/** The two page-table commands of the monitor (mon_showmappings and mon_perm
    in kern/monitor.c) over an abstract page table: a map from page-aligned
    virtual address to the 32-bit entry that maps it. */
module PageTables {
  import opened Jos
  import opened HexAddr
  import opened PermAdjust

  /** pgdir_walk(pgdir, va, false) with the page directory abstracted: the
      entry for the page holding `va`, if a page table covers that page. */
  function Lookup(entries: map<Word, Pte>, va: Word): (r: Option<Pte>)
    ensures r.Some? <==> PageBase(va) in entries
  {
    if PageBase(va) in entries then Some(entries[PageBase(va)]) else None
  }

  /** Every address inside an aligned page is translated by that page's
      entry, so the walk for any byte of a page finds the same slot. */
  lemma LookupWithinPage(entries: map<Word, Pte>, page: Word, va: Word)
    requires PageAligned(page) && page <= va < page + PGSIZE
    ensures Lookup(entries, va) == (if page in entries then Some(entries[page]) else None)
  {
    assert PageBase(va) == page;
  }

  /** The live page tables reached through the current page-directory root. */
  class PageTable {
    var entries: map<Word, Pte>

    constructor (entries: map<Word, Pte>)
      ensures this.entries == entries
    {
      this.entries := entries;
    }

    function Walk(va: Word): Option<Pte>
      reads this
    {
      Lookup(entries, va)
    }
  }

  /** How one page is reported: unmapped when there is no entry or its present
      bit is clear, otherwise its frame address and its W/U flags. */
  function Classify(slot: Option<Pte>): (st: PageStatus)
    ensures st.Unmapped? <==> slot.None? || !Present(slot.value)
    ensures st.Mapped? ==> st.paddr == PteAddr(slot.value) && st.perms == PermString(slot.value)
    ensures st.Mapped? ==> ('W' in st.perms <==> slot.value & PTE_W != 0)
    ensures st.Mapped? ==> ('U' in st.perms <==> slot.value & PTE_U != 0)
  {
    if slot.Some? && Present(slot.value) then Mapped(PteAddr(slot.value), PermString(slot.value))
    else Unmapped
  }

  // ---------------------------------------------------------------- showmappings

  /** Pages from START up to END, counted with 32-bit wrap-around. */
  function PageCount(start: Word, end: Word): nat {
    SubWrap(end, start) / PGSIZE
  }

  /** The k-th page visited: START advanced by k pages, modulo 2^32. */
  function PageAt(start: Word, k: nat): Word {
    (start + k * PGSIZE) % WORD_MOD
  }

  function RowAt(entries: map<Word, Pte>, start: Word, k: nat): Event {
    PageRow(PageAt(start, k), Classify(Lookup(entries, PageAt(start, k))))
  }

  function Rows(entries: map<Word, Pte>, start: Word, end: Word): (rows: seq<Event>)
    ensures |rows| == PageCount(start, end)
  {
    seq(PageCount(start, end), k requires 0 <= k => RowAt(entries, start, k))
  }

  /** What `showmappings START END` prints: a usage line, a parse error, an
      alignment error, or the header followed by one row per page. */
  function MappingsSpec(entries: map<Word, Pte>, argv: seq<CString>): (r: Reply)
    requires |argv| >= 1
    ensures r.status == 0 && |r.events| >= 1
  {
    if |argv| != 3 then Reply(0, [Usage(argv[0])])
    else match ParseHex(argv[1])
      case None => Reply(0, [BadAddress(0)])
      case Some(start) =>
        if !PageAligned(start) then Reply(0, [Misaligned(start)])
        else match ParseHex(argv[2])
          case None => Reply(0, [BadAddress(1)])
          case Some(end) =>
            if !PageAligned(end) then Reply(0, [Misaligned(end)])
            else Reply(0, [MappingsHeader(start, end)] + Rows(entries, start, end))
  }

  /** The arguments for which showmappings walks the page tables at all. */
  predicate ValidRange(argv: seq<CString>) {
    && |argv| == 3
    && ParseHex(argv[1]).Some? && PageAligned(ParseHex(argv[1]).value)
    && ParseHex(argv[2]).Some? && PageAligned(ParseHex(argv[2]).value)
  }

  lemma DistanceAligned(start: Word, end: Word)
    requires PageAligned(start) && PageAligned(end)
    ensures SubWrap(end, start) == PageCount(start, end) * PGSIZE
  {
  }

  lemma PageAtNext(start: Word, k: nat)
    ensures PageAt(start, k + 1) == AddWrap(PageAt(start, k), PGSIZE)
  {
    var y := start + k * PGSIZE;
    ModUnique(y, WORD_MOD, y / WORD_MOD, y % WORD_MOD);
    if y % WORD_MOD + PGSIZE < WORD_MOD {
      ModUnique(y + PGSIZE, WORD_MOD, y / WORD_MOD, y % WORD_MOD + PGSIZE);
    } else {
      ModUnique(y + PGSIZE, WORD_MOD, y / WORD_MOD + 1, y % WORD_MOD + PGSIZE - WORD_MOD);
    }
  }

  lemma DistanceStep(end: Word, va: Word)
    requires SubWrap(end, va) >= PGSIZE
    ensures SubWrap(end, AddWrap(va, PGSIZE)) == SubWrap(end, va) - PGSIZE
  {
  }

  /** The loop `for (i = START; i != END; i += PGSIZE)` ends exactly after
      PageCount pages: the visited pages are page aligned, pairwise distinct,
      none of them is END, and one more step reaches END. */
  lemma {:induction false} PageWalk(start: Word, end: Word)
    requires PageAligned(start) && PageAligned(end)
    ensures PageAt(start, PageCount(start, end)) == end
    ensures forall k :: 0 <= k < PageCount(start, end) ==>
              PageAligned(PageAt(start, k)) && PageAt(start, k) != end
    ensures forall j, k :: 0 <= j < k < PageCount(start, end) ==> PageAt(start, j) != PageAt(start, k)
  {
    var n := PageCount(start, end);
    DistanceAligned(start, end);
    forall k | 0 <= k <= n
      ensures PageAligned(PageAt(start, k))
      ensures SubWrap(end, PageAt(start, k)) == (n - k) * PGSIZE
    {
      WalkDistance(start, end, k);
    }
    forall j, k | 0 <= j < k < n
      ensures PageAt(start, j) != PageAt(start, k)
    {
      assert SubWrap(end, PageAt(start, j)) != SubWrap(end, PageAt(start, k));
    }
  }

  lemma {:induction false} WalkDistance(start: Word, end: Word, k: nat)
    requires PageAligned(start) && PageAligned(end) && k <= PageCount(start, end)
    ensures PageAligned(PageAt(start, k))
    ensures SubWrap(end, PageAt(start, k)) == (PageCount(start, end) - k) * PGSIZE
  {
    DistanceAligned(start, end);
    if k == 0 {
      assert PageAt(start, 0) == start;
    } else {
      WalkDistance(start, end, k - 1);
      PageAtNext(start, k - 1);
      DistanceStep(end, PageAt(start, k - 1));
    }
  }

  /** Without wrap-around (START <= END) the pages visited are exactly the
      page-aligned addresses in [START, END), in increasing order. */
  lemma NoWrapRange(start: Word, end: Word)
    requires PageAligned(start) && PageAligned(end) && start <= end
    ensures forall k :: 0 <= k < PageCount(start, end) ==>
              PageAt(start, k) == start + k * PGSIZE && start <= PageAt(start, k) < end
    ensures forall va: Word :: start <= va < end && PageAligned(va) ==>
              (va - start) / PGSIZE < PageCount(start, end) && PageAt(start, (va - start) / PGSIZE) == va
  {
  }

  /** START == END visits no page; the hint's `0xfffff000 0x0` visits the top page only. */
  lemma PageCountEdges()
    ensures forall a: Word :: PageCount(a, a) == 0
    ensures PageCount(0xfffff000, 0) == 1 && PageAt(0xfffff000, 0) == 0xfffff000
  {
  }

  /** Invalid arguments are reported before any page-table lookup: the reply
      is a single error line and does not depend on the page tables. */
  lemma ShowMappingsRejects(e1: map<Word, Pte>, e2: map<Word, Pte>, argv: seq<CString>)
    requires |argv| >= 1 && !ValidRange(argv)
    ensures MappingsSpec(e1, argv) == MappingsSpec(e2, argv)
    ensures |MappingsSpec(e1, argv).events| == 1
    ensures !MappingsSpec(e1, argv).events[0].PageRow? && !MappingsSpec(e1, argv).events[0].MappingsHeader?
  {
  }

  /** The arguments are checked in order: the first one that does not parse
      or is not page aligned is the one reported. */
  lemma MappingsArgError(entries: map<Word, Pte>, argv: seq<CString>, i: nat)
    requires |argv| == 3 && i < 2
    requires i == 1 ==> ParseHex(argv[1]).Some? && PageAligned(ParseHex(argv[1]).value)
    ensures ParseHex(argv[i + 1]).None? ==> MappingsSpec(entries, argv) == Reply(0, [BadAddress(i)])
    ensures ParseHex(argv[i + 1]).Some? && !PageAligned(ParseHex(argv[i + 1]).value) ==>
              MappingsSpec(entries, argv) == Reply(0, [Misaligned(ParseHex(argv[i + 1]).value)])
  {
    if i == 0 {
      assert argv[i + 1] == argv[1];
    } else {
      assert argv[i + 1] == argv[2];
    }
  }

  /** Both addresses valid: the header, then one row per page. */
  lemma MappingsOk(entries: map<Word, Pte>, argv: seq<CString>, start: Word, end: Word)
    requires |argv| == 3
    requires ParseHex(argv[1]) == Some(start) && PageAligned(start)
    requires ParseHex(argv[2]) == Some(end) && PageAligned(end)
    ensures MappingsSpec(entries, argv) == Reply(0, [MappingsHeader(start, end)] + Rows(entries, start, end))
  {
  }

  lemma RowsStep(entries: map<Word, Pte>, start: Word, end: Word, k: nat)
    requires k < PageCount(start, end)
    ensures Rows(entries, start, end)[..k + 1] == Rows(entries, start, end)[..k] + [RowAt(entries, start, k)]
  {
  }

  /** mon_showmappings: validate both addresses, then visit page after page
      until the 32-bit cursor equals END. Reads the page tables only. */
  method ShowMappings(pt: PageTable, argv: seq<CString>) returns (status: int, events: seq<Event>)
    requires |argv| >= 1
    ensures Reply(status, events) == MappingsSpec(pt.entries, argv)
  {
    if |argv| != 3 {
      return 0, [Usage(argv[0])];
    }
    var addrs := new Word[2];
    var i := 0;
    while i < 2
      invariant 0 <= i <= 2
      invariant i >= 1 ==> ParseHex(argv[1]) == Some(addrs[0]) && PageAligned(addrs[0])
      invariant i == 2 ==> ParseHex(argv[2]) == Some(addrs[1]) && PageAligned(addrs[1])
    {
      var st, a := ParseAddr(argv[i + 1], addrs[i]);
      MappingsArgError(pt.entries, argv, i);
      if st == -1 {
        return 0, [BadAddress(i)];
      }
      addrs[i] := a;
      if addrs[i] % PGSIZE != 0 {
        return 0, [Misaligned(addrs[i])];
      }
      i := i + 1;
    }
    var start, end := addrs[0], addrs[1];
    MappingsOk(pt.entries, argv, start, end);
    var rows := WalkPages(pt, start, end);
    return 0, [MappingsHeader(start, end)] + rows;
  }

  /** mon_showmappings' walk: visit page after page from START until the
      32-bit cursor equals END, classifying each page's entry. */
  method WalkPages(pt: PageTable, start: Word, end: Word) returns (rows: seq<Event>)
    requires PageAligned(start) && PageAligned(end)
    ensures rows == Rows(pt.entries, start, end)
  {
    ghost var n := PageCount(start, end);
    DistanceAligned(start, end);
    rows := [];
    var va := start;
    ghost var k := 0;
    while va != end
      invariant 0 <= k <= n
      invariant va == PageAt(start, k)
      invariant SubWrap(end, va) == (n - k) * PGSIZE
      invariant rows == Rows(pt.entries, start, end)[..k]
      decreases n - k
    {
      var pte := pt.Walk(va);
      RowsStep(pt.entries, start, end, k);
      if pte.Some? && Present(pte.value) {
        rows := rows + [PageRow(va, Mapped(PteAddr(pte.value), PermString(pte.value)))];
      } else {
        rows := rows + [PageRow(va, Unmapped)];
      }
      PageAtNext(start, k);
      WalkDistance(start, end, k + 1);
      va := (va + PGSIZE) % WORD_MOD;
      k := k + 1;
    }
    assert Rows(pt.entries, start, end)[..k] == Rows(pt.entries, start, end);
  }

  // ---------------------------------------------------------------- perm

  /** The reply of `perm` and the page tables afterwards. */
  datatype PermResult = PermResult(reply: Reply, entries: map<Word, Pte>)

  /** What `perm ADDR [+-][WU]` does: a usage line on a bad argument count,
      address or directive; a not-mapped line when the page has no present
      entry; otherwise the directive applied to that one entry. */
  function PermSpec(entries: map<Word, Pte>, argv: seq<CString>): (r: PermResult)
    requires |argv| >= 1
    ensures r.reply.status == 0 && |r.reply.events| == 1
    ensures r.entries.Keys == entries.Keys
  {
    var usage := PermResult(Reply(0, [Usage(argv[0])]), entries);
    if |argv| != 3 then usage
    else match ParseHex(argv[1])
      case None => usage
      case Some(addr) =>
        var adj := ParsePermAdjust(argv[2], 0);
        if adj.oper == '\0' then usage
        else match Lookup(entries, addr)
          case None => PermResult(Reply(0, [NotMapped(addr)]), entries)
          case Some(pte) =>
            if !Present(pte) then PermResult(Reply(0, [NotMapped(addr)]), entries)
            else
              var pte' := Apply(adj, pte);
              PermResult(Reply(0, [PermsSet(addr, PermString(pte'))]), entries[PageBase(addr) := pte'])
  }

  /** The page a `perm` command names, once its address parses. */
  function PermPage(argv: seq<CString>): Word
    requires |argv| == 3 && ParseHex(argv[1]).Some?
  {
    PageBase(ParseHex(argv[1]).value)
  }

  /** The arguments and page-table state for which perm changes an entry. */
  predicate PermApplies(entries: map<Word, Pte>, argv: seq<CString>) {
    && |argv| == 3
    && ParseHex(argv[1]).Some?
    && WellFormed(argv[2])
    && Lookup(entries, ParseHex(argv[1]).value).Some?
    && Present(Lookup(entries, ParseHex(argv[1]).value).value)
  }

  /** No entry changes on a wrong argument count, an unparsable address or
      directive, a page without an entry or an entry whose present bit is
      clear; and perm never adds an entry. */
  lemma PermUnchangedUnlessApplies(entries: map<Word, Pte>, argv: seq<CString>)
    requires |argv| >= 1
    ensures PermSpec(entries, argv).entries.Keys == entries.Keys
    ensures !PermApplies(entries, argv) ==> PermSpec(entries, argv).entries == entries
    ensures PermSpec(entries, argv).reply.status == 0
  {
  }

  /** The entry perm writes back when it applies. */
  function PermEntry(entries: map<Word, Pte>, argv: seq<CString>): Pte
    requires PermApplies(entries, argv)
  {
    Apply(ParsePermAdjust(argv[2], 0), entries[PermPage(argv)])
  }

  /** A wrong argument count, an address that does not parse or a directive
      that does not parse gets the usage line and changes nothing. */
  lemma PermUsage(entries: map<Word, Pte>, argv: seq<CString>)
    requires |argv| >= 1
    requires |argv| != 3 || ParseHex(argv[1]).None? || !WellFormed(argv[2])
    ensures PermSpec(entries, argv) == PermResult(Reply(0, [Usage(argv[0])]), entries)
  {
  }

  /** A page without an entry, or whose entry is not present, is reported as
      not mapped and nothing changes. */
  lemma PermNotMapped(entries: map<Word, Pte>, argv: seq<CString>)
    requires |argv| == 3 && ParseHex(argv[1]).Some? && WellFormed(argv[2])
    requires Lookup(entries, ParseHex(argv[1]).value).None? || !Present(Lookup(entries, ParseHex(argv[1]).value).value)
    ensures PermSpec(entries, argv) == PermResult(Reply(0, [NotMapped(ParseHex(argv[1]).value)]), entries)
  {
  }

  /** When perm applies, the page tables afterwards are the old ones with
      only the addressed page's entry replaced. */
  lemma PermReplacesOneEntry(entries: map<Word, Pte>, argv: seq<CString>)
    requires PermApplies(entries, argv)
    ensures PermPage(argv) in entries
    ensures PermSpec(entries, argv).entries == entries[PermPage(argv) := PermEntry(entries, argv)]
    ensures PermSpec(entries, argv).reply.events == [PermsSet(ParseHex(argv[1]).value, PermString(PermEntry(entries, argv)))]
  {
  }

  /** mon_perm: parse both arguments, find the entry, and update it in place
      with `&=` or `|=`. The operator is always one of the two, so the
      panic branch of the source cannot be reached. */
  method Perm(pt: PageTable, argv: seq<CString>) returns (status: int, events: seq<Event>)
    requires |argv| >= 1
    modifies pt
    ensures PermResult(Reply(status, events), pt.entries) == PermSpec(old(pt.entries), argv)
  {
    var addr: Word := 0;
    var mask: Pte := 0;
    if |argv| != 3 {
      PermUsage(pt.entries, argv);
      return 0, [Usage(argv[0])];
    }
    var st;
    st, addr := ParseAddr(argv[1], addr);
    if st != 0 {
      PermUsage(pt.entries, argv);
      return 0, [Usage(argv[0])];
    }
    var adj := ParsePermAdjust(argv[2], mask);
    if adj.oper == '\0' {
      PermUsage(pt.entries, argv);
      return 0, [Usage(argv[0])];
    }
    var pte := pt.Walk(addr);
    if pte.None? || !Present(pte.value) {
      PermNotMapped(pt.entries, argv);
      return 0, [NotMapped(addr)];
    }
    ghost var before := pt.entries;
    PermReplacesOneEntry(before, argv);
    var slot := PageBase(addr);
    assert slot == PermPage(argv);
    var written := UpdateEntry(pt, slot, pte.value, adj);
    assert written == PermEntry(before, argv);
    return 0, [PermsSet(addr, PermString(written))];
  }

  /** mon_perm's in-place update `*pte &= mask` or `*pte |= mask`; any other
      operator would panic, which the parser rules out. */
  method UpdateEntry(pt: PageTable, slot: Word, pte: Pte, adj: Adjust) returns (written: Pte)
    requires adj.oper == '|' || adj.oper == '&'
    modifies pt
    ensures written == Apply(adj, pte)
    ensures pt.entries == old(pt.entries)[slot := written]
  {
    if adj.oper == '&' {
      written := pte & adj.mask;
    } else if adj.oper == '|' {
      written := pte | adj.mask;
    } else {
      assert false;
    }
    pt.entries := pt.entries[slot := written];
  }

  const SHOWMAPPINGS: CString := "showmappings"

  /** The command line `showmappings START END`, as tokens. */
  function MappingsLine(start: Word, end: Word): (argv: seq<CString>)
    ensures |argv| == 3
    ensures ParseHex(argv[1]) == Some(start) && ParseHex(argv[2]) == Some(end)
  {
    var a := FormatAddr(start);
    var b := FormatAddr(end);
    [SHOWMAPPINGS, a, b]
  }

  /** `showmappings A A` prints the header and no page rows. */
  lemma EmptyRange(entries: map<Word, Pte>, a: Word)
    requires PageAligned(a)
    ensures MappingsSpec(entries, MappingsLine(a, a)) == Reply(0, [MappingsHeader(a, a)])
  {
    PageCountEdges();
    assert Rows(entries, a, a) == [];
  }

  /** `showmappings` over the single page starting at PAGE lists that page only. */
  lemma ShowOnePage(entries: map<Word, Pte>, page: Word)
    requires PageAligned(page)
    ensures var next := AddWrap(page, PGSIZE);
            MappingsSpec(entries, MappingsLine(page, next)).events
              == [MappingsHeader(page, next), PageRow(page, Classify(Lookup(entries, page)))]
  {
    var next := AddWrap(page, PGSIZE);
    assert PageAligned(next);
    assert PageCount(page, next) == 1;
    assert PageAt(page, 0) == page;
    assert Rows(entries, page, next) == [RowAt(entries, page, 0)];
  }

  const PERM: CString := "perm"
  const REVOKE_USER: CString := "-U"

  /** The command line `perm ADDR DIRECTIVE`, as tokens. */
  function PermLine(addr: Word, directive: CString): (argv: seq<CString>)
    ensures |argv| == 3 && ParseHex(argv[1]) == Some(addr) && argv[2] == directive
  {
    var a := FormatAddr(addr);
    [PERM, a, directive]
  }

  /** `perm ADDR -U` on a mapped page replaces its entry by one that is still
      present, maps the same frame, lacks U, and keeps W as it was. */
  lemma RevokeUserEntry(entries: map<Word, Pte>, page: Word)
    requires PageAligned(page) && page in entries && Present(entries[page])
    ensures var argv := PermLine(page, REVOKE_USER);
            && PermApplies(entries, argv)
            && PermSpec(entries, argv).entries == entries[page := PermEntry(entries, argv)]
            && Present(PermEntry(entries, argv))
            && PteAddr(PermEntry(entries, argv)) == PteAddr(entries[page])
            && 'U' !in PermString(PermEntry(entries, argv))
            && ('W' in PermString(PermEntry(entries, argv)) <==> 'W' in PermString(entries[page]))
  {
    var argv := PermLine(page, REVOKE_USER);
    assert WellFormed(REVOKE_USER);
    assert PermPage(argv) == page;
    PermReplacesOneEntry(entries, argv);
    ParsedKeepsFrame(REVOKE_USER, 0, entries[page]);
    ApplyShows(REVOKE_USER, 0, entries[page]);
  }

  /** `perm ADDR -U` on a mapped page, then `showmappings` over that page:
      the page is still listed as mapped to the same frame, without U, and
      with W exactly when it had W before. */
  lemma RevokeUserThenShow(entries: map<Word, Pte>, page: Word)
    requires PageAligned(page) && page in entries && Present(entries[page])
    ensures var e' := PermSpec(entries, PermLine(page, REVOKE_USER)).entries;
            var next := AddWrap(page, PGSIZE);
            var ev := MappingsSpec(e', MappingsLine(page, next)).events;
            && |ev| == 2 && ev[0] == MappingsHeader(page, next)
            && ev[1].PageRow? && ev[1].va == page && ev[1].status.Mapped?
            && ev[1].status.paddr == PteAddr(entries[page])
            && 'U' !in ev[1].status.perms
            && ('W' in ev[1].status.perms <==> 'W' in PermString(entries[page]))
  {
    RevokeUserEntry(entries, page);
    var argv := PermLine(page, REVOKE_USER);
    var e' := PermSpec(entries, argv).entries;
    var pte' := PermEntry(entries, argv);
    assert Lookup(e', page) == Some(pte');
    ShowOnePage(e', page);
  }
}
