/** The monitor's hexadecimal address parser (parseaddr in kern/monitor.c):
    a `0x` prefix, at most eight digits, upper-case A-F folded to lower case,
    digits accumulated from the least significant one. */
module HexAddr {
  import opened Jos

  /** The digit alphabet the parser searches. */
  const DIGITS: string := "0123456789abcdef"

  /** Reference meaning of a hexadecimal digit of either case. */
  function HexDigitValue(c: char): (r: Option<nat>)
    ensures r.Some? ==> r.value < 16
  {
    if '0' <= c <= '9' then Some(c as int - '0' as int)
    else if 'a' <= c <= 'f' then Some(c as int - 'a' as int + 10)
    else if 'A' <= c <= 'F' then Some(c as int - 'A' as int + 10)
    else None
  }

  predicate AllHex(d: string) {
    forall i :: 0 <= i < |d| ==> HexDigitValue(d[i]).Some?
  }

  function Pow16(k: nat): (r: nat)
    ensures r >= 1
  {
    if k == 0 then 1 else 16 * Pow16(k - 1)
  }

  /** The value of a digit string read most significant digit first (Horner's rule). */
  function HexValue(d: string): (r: nat)
    requires AllHex(d)
    ensures r < Pow16(|d|)
  {
    if d == [] then 0
    else 16 * HexValue(d[..|d| - 1]) + HexDigitValue(d[|d| - 1]).value
  }

  lemma {:induction false} Pow16Monotonic(j: nat, k: nat)
    requires j <= k
    ensures Pow16(j) <= Pow16(k)
  {
    if j < k {
      Pow16Monotonic(j, k - 1);
    }
  }

  /** Eight hexadecimal digits are exactly as wide as a word, and fewer fit strictly. */
  lemma Pow16Word(k: nat)
    requires k <= 8
    ensures Pow16(k) <= WORD_MOD
    ensures k < 8 ==> Pow16(k) < WORD_MOD
    ensures k == 8 ==> Pow16(k) == WORD_MOD
  {
    assert Pow16(7) == 0x1000_0000;
    assert Pow16(8) == WORD_MOD;
    if k < 8 {
      Pow16Monotonic(k, 7);
    } else {
      Pow16Monotonic(k, 8);
    }
  }

  /** A string of at most eight hexadecimal digits denotes a value that fits in a word. */
  lemma HexValueFits(d: string)
    requires AllHex(d) && |d| <= 8
    ensures HexValue(d) < WORD_MOD
  {
    Pow16Word(|d|);
  }

  /** The reference parse: `0x` followed by at most eight hex digits of either
      case; the value of those digits. */
  function ParseHex(s: CString): (r: Option<Word>)
    ensures r.Some? <==> |s| >= 2 && s[0] == '0' && s[1] == 'x' && |s| - 2 <= 8 && AllHex(s[2..])
    ensures r.Some? ==> r.value == HexValue(s[2..])
  {
    if |s| < 2 || s[0] != '0' || s[1] != 'x' || |s| - 2 > 8 || !AllHex(s[2..]) then None
    else
      HexValueFits(s[2..]);
      Some(HexValue(s[2..]))
  }

  /** Position of `c` in the digit alphabet, the lookup strchr(digits, c) performs. */
  function DigitIndex(c: char): (r: Option<nat>)
    ensures r.Some? ==> r.value < |DIGITS| && DIGITS[r.value] == c
    ensures r.None? ==> c !in DIGITS
  {
    if '0' <= c <= '9' then Some(c as int - '0' as int)
    else if 'a' <= c <= 'f' then Some(c as int - 'a' as int + 10)
    else None
  }

  lemma MulShift(v: int, p: int)
    ensures 16 * (v * p) == v * (16 * p)
  {
  }

  /** Prepending a digit adds its weight at the new most significant position. */
  lemma {:induction false} HexValuePrepend(c: char, d: string)
    requires HexDigitValue(c).Some? && AllHex(d)
    ensures AllHex([c] + d)
    ensures HexValue([c] + d) == HexDigitValue(c).value * Pow16(|d|) + HexValue(d)
  {
    var s := [c] + d;
    assert AllHex(s) by {
      forall i | 0 <= i < |s| ensures HexDigitValue(s[i]).Some? {
        if i > 0 { assert s[i] == d[i - 1]; }
      }
    }
    if d != [] {
      var init := d[..|d| - 1];
      var last := HexDigitValue(d[|d| - 1]).value;
      assert s[..|s| - 1] == [c] + init;
      assert s[|s| - 1] == d[|d| - 1];
      assert AllHex(init) by {
        forall i | 0 <= i < |init| ensures HexDigitValue(init[i]).Some? {
          assert init[i] == d[i];
        }
      }
      HexValuePrepend(c, init);
      var v, p := HexDigitValue(c).value, Pow16(|init|);
      assert HexValue(s) == 16 * HexValue([c] + init) + last;
      assert HexValue(d) == 16 * HexValue(init) + last;
      assert Pow16(|d|) == 16 * p;
      MulShift(v, p);
    }
  }

  /** One step of the parser's accumulation stays below 2^32. */
  lemma DigitStepFits(n: nat, v: nat, res: nat, k: nat)
    requires k < 8 && n == Pow16(k) && v < 16 && res < n
    ensures res + n * v < Pow16(k + 1) <= WORD_MOD
  {
    Pow16Word(k + 1);
    MulMonotonic(n, v, 15);
    assert Pow16(k + 1) == 16 * n;
  }

  lemma MulMonotonic(a: nat, b: nat, c: nat)
    requires b <= c
    ensures a * b <= a * c
  {
  }

  /** One step of the parser's loop: the digit at `j` joins the suffix already
      read, with weight `n`, and the sum still fits in a word. */
  lemma AccumulateStep(arg: string, j: nat, res: nat, n: nat)
    requires 2 <= j < |arg| <= 10
    requires AllHex(arg[j + 1..]) && res == HexValue(arg[j + 1..])
    requires n == Pow16(|arg| - j - 1)
    requires HexDigitValue(arg[j]).Some?
    ensures AllHex(arg[j..])
    ensures res + n * HexDigitValue(arg[j]).value == HexValue(arg[j..]) < WORD_MOD
    ensures (res + n * HexDigitValue(arg[j]).value) % WORD_MOD == HexValue(arg[j..])
    ensures |arg| - j < 8 ==> (n * 16) % WORD_MOD == Pow16(|arg| - j)
  {
    var k := |arg| - j - 1;
    var v := HexDigitValue(arg[j]).value;
    var tail := arg[j + 1..];
    assert |tail| == k;
    assert arg[j..] == [arg[j]] + tail;
    HexValuePrepend(arg[j], tail);
    assert HexValue(arg[j..]) == v * n + res;
    assert v * n == n * v;
    DigitStepFits(n, HexDigitValue(arg[j]).value, res, k);
    Pow16Word(k + 1);
    assert Pow16(k + 1) == n * 16;
    ModBelow(res + n * v);
    if k + 1 < 8 {
      ModBelow(n * 16);
    }
  }

  lemma ModBelow(x: int)
    requires 0 <= x < WORD_MOD
    ensures x % WORD_MOD == x
  {
  }

  /** parseaddr: returns 0 and the parsed address, or -1 and `out` untouched.
      The loop walks the digits from the last one to the first, adding each
      digit's weight `n`; both accumulators are 32-bit unsigned. */
  method ParseAddr(arg: CString, out: Word) returns (status: int, out': Word)
    ensures status == 0 || status == -1
    ensures status == 0 <==> ParseHex(arg).Some?
    ensures status == 0 ==> out' == ParseHex(arg).value
    ensures status == -1 ==> out' == out
  {
    if |arg| == 0 || arg[0] != '0' {
      return -1, out;
    }
    if |arg| == 1 || arg[1] != 'x' {
      return -1, out;
    }
    var n: Word := 1;
    var res: Word := 0;
    var cur := |arg|;
    if cur - 2 > 8 {
      return -1, out;
    }
    while cur > 2
      invariant 2 <= cur <= |arg| <= 10
      invariant AllHex(arg[cur..])
      invariant res == HexValue(arg[cur..])
      invariant |arg| - cur < 8 ==> n == Pow16(|arg| - cur)
    {
      cur := cur - 1;
      var c := arg[cur];
      var needle := DigitIndex(c);
      DigitLookup(c);
      if needle.None? && 'A' <= c <= 'F' {
        assert Lower(c) == (c as int + 0x20) as char;
        needle := DigitIndex((c as int + 0x20) as char);
      } else if needle.None? {
        assert arg[2..][cur - 2] == c;
        return -1, out;
      }
      assert needle == HexDigitValue(arg[cur]);
      AccumulateStep(arg, cur, res, n);
      res := (res + n * needle.value) % WORD_MOD;
      n := (n * 16) % WORD_MOD;
    }
    return 0, res;
  }

  /** A parse succeeds exactly on `0x` plus at most eight hex digits; in
      particular `0x` alone parses as zero. */
  lemma ParseHexEmptyDigits()
    ensures ParseHex("0x") == Some(0)
  {
    assert "0x"[2..] == [];
  }

  /** The parser's case fold: `c + 0x20` for an upper-case digit A-F. */
  function Lower(c: char): (r: char)
    ensures HexDigitValue(r) == HexDigitValue(c)
  {
    if 'A' <= c <= 'F' then (c as int + 0x20) as char else c
  }

  /** Folding the digits A-F of a string to lower case. */
  function FoldCase(s: string): (r: string)
    ensures |r| == |s|
    ensures forall i :: 0 <= i < |s| ==> r[i] == Lower(s[i])
  {
    seq(|s|, i requires 0 <= i < |s| => Lower(s[i]))
  }

  /** Strings whose digits have the same values, position by position, have the same value. */
  lemma {:induction false} HexValueSameDigits(d: string, e: string)
    requires AllHex(d) && |e| == |d|
    requires forall i :: 0 <= i < |d| ==> HexDigitValue(e[i]) == HexDigitValue(d[i])
    ensures AllHex(e) && HexValue(e) == HexValue(d)
  {
    assert AllHex(e) by {
      forall i | 0 <= i < |e| ensures HexDigitValue(e[i]).Some? {
        assert HexDigitValue(e[i]) == HexDigitValue(d[i]);
      }
    }
    if d != [] {
      var d0, e0 := d[..|d| - 1], e[..|e| - 1];
      assert AllHex(d0) by {
        forall i | 0 <= i < |d0| ensures HexDigitValue(d0[i]).Some? {
          assert d0[i] == d[i];
        }
      }
      forall i | 0 <= i < |d0| ensures HexDigitValue(e0[i]) == HexDigitValue(d0[i]) {
        assert d0[i] == d[i] && e0[i] == e[i];
      }
      HexValueSameDigits(d0, e0);
    }
  }

  /** Case does not matter: folding upper-case digits leaves the value unchanged. */
  lemma HexValueFoldCase(d: string)
    requires AllHex(d)
    ensures AllHex(FoldCase(d)) && HexValue(FoldCase(d)) == HexValue(d)
  {
    HexValueSameDigits(d, FoldCase(d));
  }

  /** The parser's two-step lookup finds a digit's value exactly when the
      digit is a hexadecimal digit of either case. */
  lemma DigitLookup(c: char)
    ensures DigitIndex(c).Some? ==> HexDigitValue(c) == DigitIndex(c)
    ensures DigitIndex(c).None? && 'A' <= c <= 'F' ==> HexDigitValue(c) == DigitIndex(Lower(c))
    ensures DigitIndex(c).None? && !('A' <= c <= 'F') ==> HexDigitValue(c).None?
  {
  }

  /** The character `%x` prints for a digit value. */
  function HexChar(v: nat): (c: char)
    requires v < 16
    ensures HexDigitValue(c) == Some(v)
    ensures !('A' <= c <= 'F')
  {
    if v < 10 then (v + '0' as int) as char else (v - 10 + 'a' as int) as char
  }

  /** The last `n` hexadecimal digits of `x`, most significant first. */
  function HexDigits(x: nat, n: nat): (r: string)
    ensures |r| == n && AllHex(r)
  {
    if n == 0 then []
    else
      var r := HexDigits(x / 16, n - 1) + [HexChar(x % 16)];
      assert forall i :: 0 <= i < n - 1 ==> r[i] == HexDigits(x / 16, n - 1)[i];
      r
  }

  /** `%08x`: a word as eight zero-padded lower-case digits. */
  function Hex8(x: Word): (r: string)
    ensures |r| == 8 && AllHex(r)
  {
    HexDigits(x, 8)
  }

  lemma MulSub(a: int, b: int, d: int)
    ensures a * d - b * d == (a - b) * d
  {
  }

  lemma MulAtLeast(k: int, d: int)
    requires k >= 1 && d > 0
    ensures k * d >= d
  {
  }

  lemma DivMod(q: int, p: int)
    requires p > 0
    ensures q == (q / p) * p + q % p
  {
  }

  /** Euclidean division has one quotient and one remainder. */
  lemma ModUnique(x: int, d: int, q: int, r: int)
    requires d > 0 && x == q * d + r && 0 <= r < d
    ensures x % d == r && x / d == q
  {
    var q', r' := x / d, x % d;
    assert x == q' * d + r';
    MulSub(q, q', d);
    if q > q' {
      MulAtLeast(q - q', d);
      assert false;
    } else if q < q' {
      MulSub(q', q, d);
      MulAtLeast(q' - q, d);
      assert false;
    }
  }

  lemma {:induction false} HexDigitsValue(x: nat, n: nat)
    ensures HexValue(HexDigits(x, n)) == x % Pow16(n)
  {
    if n == 0 {
      assert x % 1 == 0;
    } else {
      var s := HexDigits(x, n);
      var hi := HexDigits(x / 16, n - 1);
      assert s[..|s| - 1] == hi;
      HexDigitsValue(x / 16, n - 1);
      var q, r := x / 16, x % 16;
      var p := Pow16(n - 1);
      var a, b := q / p, q % p;
      DivMod(q, p);
      MulShift(a, p);
      assert x == 16 * q + r;
      assert x == a * (16 * p) + (16 * b + r);
      ModUnique(x, 16 * p, a, 16 * b + r);
    }
  }

  /** The monitor's `0x%08x` rendering of an address contains no NUL. */
  lemma PrefixedHexIsCString(x: Word)
    ensures '\0' !in "0x" + Hex8(x)
  {
    var s := "0x" + Hex8(x);
    assert forall i :: 2 <= i < |s| ==> s[i] == Hex8(x)[i - 2];
    assert forall i :: 0 <= i < |s| ==> s[i] != '\0';
  }

  lemma {:induction false} HexDigitsRoundTrip(x: nat, n: nat, s: CString)
    requires n <= 8 && x < Pow16(n) && s == "0x" + HexDigits(x, n)
    ensures ParseHex(s) == Some(x)
  {
    var d := HexDigits(x, n);
    assert s[2..] == d;
    assert s[0] == '0' && s[1] == 'x';
    HexDigitsValue(x, n);
    ModUnique(x, Pow16(n), 0, x);
    assert HexValue(d) == x;
  }

  /** Round trip with the monitor's own output format: an address printed as
      `0x%08x` parses back to itself. */
  lemma ParseFormatRoundTrip(x: Word, s: CString)
    requires s == "0x" + Hex8(x)
    ensures ParseHex(s) == Some(x)
  {
    Pow16Word(8);
    HexDigitsRoundTrip(x, 8, s);
  }

  /** An address written the way the monitor prints it, as a command argument. */
  function FormatAddr(x: Word): (r: CString)
    ensures ParseHex(r) == Some(x)
  {
    PrefixedHexIsCString(x);
    var s: CString := "0x" + Hex8(x);
    ParseFormatRoundTrip(x, s);
    s
  }
}
