/** Permission deltas (parse_perm_adjust and print_perms in kern/monitor.c):
    a two-character directive such as `+W` or `-U` becomes an operator and a
    mask, and applying the pair to an entry sets or clears exactly one flag. */
module PermAdjust {
  import opened Jos

  /** What parse_perm_adjust returns (`oper`: '|', '&', or NUL on a parse
      error) together with the value left in its out-parameter. */
  datatype Adjust = Adjust(oper: char, mask: Pte)

  /** The flag bit a directive letter names, if any. */
  function FlagBit(letter: char): (r: Option<Pte>)
    ensures r.Some? <==> letter == 'W' || letter == 'U'
    ensures letter == 'W' ==> r == Some(PTE_W)
    ensures letter == 'U' ==> r == Some(PTE_U)
  {
    if letter == 'W' then Some(PTE_W)
    else if letter == 'U' then Some(PTE_U)
    else None
  }

  /** The directives the parser accepts: a sign and one flag letter, nothing more. */
  predicate WellFormed(arg: string) {
    |arg| == 2 && (arg[0] == '+' || arg[0] == '-') && FlagBit(arg[1]).Some?
  }

  /** parse_perm_adjust: the sign selects the operator, the letter the bit;
      a revoke uses the complement of the bit. On any other input it returns
      NUL and leaves `out` as it was. */
  function ParsePermAdjust(arg: CString, out: Pte): (r: Adjust)
    ensures r.oper != '\0' <==> WellFormed(arg)
    ensures r.oper == '|' <==> WellFormed(arg) && arg[0] == '+'
    ensures r.oper == '&' <==> WellFormed(arg) && arg[0] == '-'
    ensures r.oper == '|' ==> r.mask == FlagBit(arg[1]).value
    ensures r.oper == '&' ==> r.mask == !FlagBit(arg[1]).value
    ensures r.oper == '\0' ==> r.mask == out
  {
    if |arg| == 0 || (arg[0] != '+' && arg[0] != '-') then Adjust('\0', out)
    else
      var oper := if arg[0] == '+' then '|' else '&';
      if |arg| == 1 || |arg| > 2 then Adjust('\0', out)
      else if arg[1] != 'W' && arg[1] != 'U' then Adjust('\0', out)
      else
        var mask: Pte := 0 | (if arg[1] == 'W' then PTE_W else PTE_U);
        var mask' := if oper == '&' then mask ^ 0xFFFF_FFFF else mask;
        Adjust(oper, mask')
  }

  /** `*pte &= mask` or `*pte |= mask`, whichever operator the parser chose. */
  function Apply(adj: Adjust, pte: Pte): (r: Pte)
    requires adj.oper == '|' || adj.oper == '&'
    ensures adj.oper == '&' ==> r == AndWith(pte, adj.mask)
    ensures adj.oper == '|' ==> r == OrWith(pte, adj.mask)
  {
    if adj.oper == '&' then AndWith(pte, adj.mask) else OrWith(pte, adj.mask)
  }

  /** `&=` keeps the bits inside the mask and clears the rest. */
  function AndWith(pte: Pte, mask: Pte): (r: Pte)
    ensures r & mask == pte & mask
    ensures r & !mask == 0
  {
    AndKeepsMasked(pte, mask);
    AndClearsUnmasked(pte, mask);
    pte & mask
  }

  /** `|=` sets the bits of the mask and keeps the rest. */
  function OrWith(pte: Pte, mask: Pte): (r: Pte)
    ensures r & mask == mask
    ensures r & !mask == pte & !mask
  {
    OrSetsMasked(pte, mask);
    OrKeepsUnmasked(pte, mask);
    pte | mask
  }

  lemma OrSetsMasked(pte: Pte, mask: Pte)
    ensures (pte | mask) & mask == mask
  {
  }

  lemma OrKeepsUnmasked(pte: Pte, mask: Pte)
    ensures (pte | mask) & !mask == pte & !mask
  {
  }

  lemma AndKeepsMasked(pte: Pte, mask: Pte)
    ensures (pte & mask) & mask == pte & mask
  {
  }

  lemma AndClearsUnmasked(pte: Pte, mask: Pte)
    ensures (pte & mask) & !mask == 0
  {
  }

  /** print_perms: `W` if the writable bit is set, then `U` if the user bit is. */
  function PermString(pte: Pte): (r: string)
    ensures 'W' in r <==> pte & PTE_W != 0
    ensures 'U' in r <==> pte & PTE_U != 0
    ensures forall i, j :: 0 <= i < j < |r| ==> r[i] == 'W' && r[j] == 'U'
    ensures forall c :: c in r ==> c == 'W' || c == 'U'
  {
    (if pte & PTE_W != 0 then "W" else "") + (if pte & PTE_U != 0 then "U" else "")
  }

  lemma OrKeepsOthers(pte: Pte, bit: Pte)
    requires bit == PTE_W || bit == PTE_U
    ensures (pte | bit) & !bit == pte & !bit
  {
  }

  lemma OrSets(pte: Pte, bit: Pte)
    requires bit == PTE_W || bit == PTE_U
    ensures (pte | bit) & bit == bit
  {
  }

  lemma AndKeepsOthers(pte: Pte, bit: Pte)
    requires bit == PTE_W || bit == PTE_U
    ensures (pte & !bit) & !bit == pte & !bit
  {
  }

  lemma AndClears(pte: Pte, bit: Pte)
    requires bit == PTE_W || bit == PTE_U
    ensures (pte & !bit) & bit == 0
  {
  }

  /** The adjustments the parser can produce: OR with one flag bit, or AND
      with its complement. */
  predicate FlagAdjust(adj: Adjust, bit: Pte) {
    && (bit == PTE_W || bit == PTE_U)
    && ((adj.oper == '|' && adj.mask == bit) || (adj.oper == '&' && adj.mask == !bit))
  }

  /** A successful parse yields such an adjustment, for the bit its letter names. */
  lemma ParsedIsFlagAdjust(arg: CString, out: Pte)
    requires WellFormed(arg)
    ensures FlagAdjust(ParsePermAdjust(arg, out), FlagBit(arg[1]).value)
    ensures ParsePermAdjust(arg, out).oper == (if arg[0] == '+' then '|' else '&')
  {
  }

  /** The mask is scoped to one flag: applying an adjustment sets the bit for
      OR, clears it for AND, and leaves every other bit of the entry as it was. */
  lemma ApplyChangesOnlyFlag(adj: Adjust, bit: Pte, pte: Pte)
    requires FlagAdjust(adj, bit)
    ensures Apply(adj, pte) & !bit == pte & !bit
    ensures adj.oper == '|' ==> Apply(adj, pte) & bit == bit
    ensures adj.oper == '&' ==> Apply(adj, pte) & bit == 0
  {
    if adj.oper == '|' {
      GrantSetsBit(adj, bit, pte);
      GrantKeepsOthers(adj, bit, pte);
    } else {
      RevokeClearsBit(adj, bit, pte);
      RevokeKeepsOthers(adj, bit, pte);
    }
  }

  lemma GrantSetsBit(adj: Adjust, bit: Pte, pte: Pte)
    requires FlagAdjust(adj, bit) && adj.oper == '|'
    ensures Apply(adj, pte) & bit == bit
  {
    OrSets(pte, bit);
  }

  lemma GrantKeepsOthers(adj: Adjust, bit: Pte, pte: Pte)
    requires FlagAdjust(adj, bit) && adj.oper == '|'
    ensures Apply(adj, pte) & !bit == pte & !bit
  {
    OrKeepsOthers(pte, bit);
  }

  lemma RevokeClearsBit(adj: Adjust, bit: Pte, pte: Pte)
    requires FlagAdjust(adj, bit) && adj.oper == '&'
    ensures Apply(adj, pte) & bit == 0
  {
    AndClears(pte, bit);
  }

  lemma RevokeKeepsOthers(adj: Adjust, bit: Pte, pte: Pte)
    requires FlagAdjust(adj, bit) && adj.oper == '&'
    ensures Apply(adj, pte) & !bit == pte & !bit
  {
    AndKeepsOthers(pte, bit);
  }

  /** Applying an adjustment keeps the present bit and the frame address. */
  lemma ApplyKeepsFrame(adj: Adjust, bit: Pte, pte: Pte)
    requires FlagAdjust(adj, bit)
    ensures Present(Apply(adj, pte)) == Present(pte)
    ensures PteAddr(Apply(adj, pte)) == PteAddr(pte)
  {
    ApplyKeepsPresent(adj, bit, pte);
    ApplyKeepsAddr(adj, bit, pte);
  }

  lemma ApplyKeepsPresent(adj: Adjust, bit: Pte, pte: Pte)
    requires FlagAdjust(adj, bit)
    ensures Apply(adj, pte) & PTE_P == pte & PTE_P
  {
    ApplyChangesOnlyFlag(adj, bit, pte);
    MaskedKeepsPresent(Apply(adj, pte), pte, bit);
  }

  lemma ApplyKeepsAddr(adj: Adjust, bit: Pte, pte: Pte)
    requires FlagAdjust(adj, bit)
    ensures PteAddr(Apply(adj, pte)) == PteAddr(pte)
  {
    ApplyChangesOnlyFlag(adj, bit, pte);
    MaskedKeepsAddr(Apply(adj, pte), pte, bit);
  }

  /** Entries that agree outside a flag bit agree on the present bit ... */
  lemma MaskedKeepsPresent(x: Pte, y: Pte, bit: Pte)
    requires bit == PTE_W || bit == PTE_U
    requires x & !bit == y & !bit
    ensures x & PTE_P == y & PTE_P
  {
  }

  /** ... and on the frame address. */
  lemma MaskedKeepsAddr(x: Pte, y: Pte, bit: Pte)
    requires bit == PTE_W || bit == PTE_U
    requires x & !bit == y & !bit
    ensures PteAddr(x) == PteAddr(y)
  {
  }

  /** The W and U bits are distinct, so changing one leaves the other. */
  lemma OtherFlag(pte: Pte, pte': Pte, bit: Pte)
    requires bit == PTE_W || bit == PTE_U
    requires pte' & !bit == pte & !bit
    ensures bit != PTE_W ==> pte' & PTE_W == pte & PTE_W
    ensures bit != PTE_U ==> pte' & PTE_U == pte & PTE_U
  {
  }

  /** A parsed directive, applied to any entry, changes no bit but the one
      its letter names ... */
  lemma {:induction false} ParsedKeepsOtherBits(arg: CString, out: Pte, pte: Pte)
    requires WellFormed(arg)
    ensures Apply(ParsePermAdjust(arg, out), pte) & !FlagBit(arg[1]).value == pte & !FlagBit(arg[1]).value
  {
    ParsedIsFlagAdjust(arg, out);
    ApplyChangesOnlyFlag(ParsePermAdjust(arg, out), FlagBit(arg[1]).value, pte);
  }

  /** ... sets that bit for `+` ... */
  lemma {:induction false} ParsedGrantSets(arg: CString, out: Pte, pte: Pte)
    requires WellFormed(arg) && arg[0] == '+'
    ensures Apply(ParsePermAdjust(arg, out), pte) & FlagBit(arg[1]).value == FlagBit(arg[1]).value
  {
    ParsedIsFlagAdjust(arg, out);
    GrantSetsBit(ParsePermAdjust(arg, out), FlagBit(arg[1]).value, pte);
  }

  /** ... and clears it for `-`. */
  lemma {:induction false} ParsedRevokeClears(arg: CString, out: Pte, pte: Pte)
    requires WellFormed(arg) && arg[0] == '-'
    ensures Apply(ParsePermAdjust(arg, out), pte) & FlagBit(arg[1]).value == 0
  {
    ParsedIsFlagAdjust(arg, out);
    RevokeClearsBit(ParsePermAdjust(arg, out), FlagBit(arg[1]).value, pte);
  }

  /** A parsed directive keeps the present bit and the frame address. */
  lemma {:induction false} ParsedKeepsFrame(arg: CString, out: Pte, pte: Pte)
    requires WellFormed(arg)
    ensures Present(Apply(ParsePermAdjust(arg, out), pte)) == Present(pte)
    ensures PteAddr(Apply(ParsePermAdjust(arg, out), pte)) == PteAddr(pte)
  {
    ParsedIsFlagAdjust(arg, out);
    ApplyKeepsFrame(ParsePermAdjust(arg, out), FlagBit(arg[1]).value, pte);
  }

  /** What print_perms shows after a directive: the named letter appears
      exactly for a grant, and the other letter is as it was. */
  lemma {:induction false} ApplyShows(arg: CString, out: Pte, pte: Pte)
    requires WellFormed(arg)
    ensures arg[1] in PermString(Apply(ParsePermAdjust(arg, out), pte)) <==> arg[0] == '+'
    ensures forall l :: (l == 'W' || l == 'U') && l != arg[1] ==>
              (l in PermString(Apply(ParsePermAdjust(arg, out), pte)) <==> l in PermString(pte))
  {
    var adj := ParsePermAdjust(arg, out);
    var bit := FlagBit(arg[1]).value;
    ParsedIsFlagAdjust(arg, out);
    ApplyChangesOnlyFlag(adj, bit, pte);
    OtherFlag(pte, Apply(adj, pte), bit);
  }
}
