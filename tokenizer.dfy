/** The command-line tokenizer of runcmd (kern/monitor.c): whitespace in the
    line buffer is overwritten with NULs as it is skipped, each token's start
    is recorded in `argv`, and a sixteenth token aborts the parse. */
module Tokenizer {
  import opened Jos

  /** The separator set WHITESPACE, tab, carriage return, newline and space. */
  predicate IsSpace(c: char) {
    c == '\t' || c == '\r' || c == '\n' || c == ' '
  }

  /** MAXARGS: size of the argv array; at most MAXARGS - 1 tokens fit, so
      that argv[argc] can hold the terminating null. */
  const MAXARGS: nat := 16

  /** strlen: the index of the first NUL. */
  function CLen(s: seq<char>): (n: nat)
    requires '\0' in s
    ensures n < |s| && s[n] == '\0'
    ensures forall j :: 0 <= j < n ==> s[j] != '\0'
  {
    if s[0] == '\0' then 0 else CLen(s[1..])  + 1
  }

  /** The C string stored at the start of `s`. */
  function CStr(s: seq<char>): (r: CString)
    requires '\0' in s
    ensures r == s[..CLen(s)]
  {
    var r := s[..CLen(s)];
    assert forall j :: 0 <= j < |r| ==> r[j] != '\0';
    r
  }

  /** A NUL at index n with none before it: that is where the C string ends. */
  lemma CLenAt(s: seq<char>, n: nat)
    requires n < |s| && s[n] == '\0'
    requires forall j :: 0 <= j < n ==> s[j] != '\0'
    ensures '\0' in s && CLen(s) == n
  {
    assert s[n] == '\0';
  }

  /** Position i of the line begins a token: a non-separator at the start of
      the line or right after a separator. */
  predicate IsTokenStart(line: CString, i: nat) {
    i < |line| && !IsSpace(line[i]) && (i == 0 || IsSpace(line[i - 1]))
  }

  /** The token starts below n, in increasing order. */
  function StartsBelow(line: CString, n: nat): (r: seq<nat>)
    requires n <= |line|
  {
    if n == 0 then []
    else StartsBelow(line, n - 1) + (if IsTokenStart(line, n - 1) then [n - 1] else [])
  }

  function Starts(line: CString): (r: seq<nat>)
    ensures forall k :: 0 <= k < |r| ==> IsTokenStart(line, r[k])
  {
    StartsBelowExact(line, |line|);
    StartsBelow(line, |line|)
  }

  /** The end of the token through position i: the first separator or the end of the line. */
  function TokenEnd(line: CString, i: nat): (e: nat)
    requires i <= |line|
    ensures i <= e <= |line|
    decreases |line| - i
  {
    if i == |line| || IsSpace(line[i]) then i else TokenEnd(line, i + 1)
  }

  /** The tokens of a line: each start up to its token's end. */
  function Tokens(line: CString): (r: seq<CString>)
    ensures |r| == |Starts(line)|
  {
    var st := Starts(line);
    seq(|st|, k requires 0 <= k < |st| =>
      StartsBelowBound(line, |line|);
      line[st[k]..TokenEnd(line, st[k])])
  }

  /** The buffer after the separators below `limit` have been overwritten with NULs. */
  function Scrub(s: seq<char>, limit: nat): (r: seq<char>)
    ensures |r| == |s|
  {
    seq(|s|, j requires 0 <= j < |s| => if j < limit && IsSpace(s[j]) then '\0' else s[j])
  }

  lemma ScrubSpace(s: seq<char>, p: nat)
    requires p < |s| && IsSpace(s[p])
    ensures Scrub(s, p)[p := '\0'] == Scrub(s, p + 1)
  {
  }

  lemma ScrubOther(s: seq<char>, p: nat, q: nat)
    requires p <= q <= |s|
    requires forall j :: p <= j < q ==> !IsSpace(s[j])
    ensures Scrub(s, p) == Scrub(s, q)
  {
  }

  lemma {:induction false} StartsBelowBound(line: CString, n: nat)
    requires n <= |line|
    ensures forall k :: 0 <= k < |StartsBelow(line, n)| ==> StartsBelow(line, n)[k] < n
  {
    if n > 0 {
      StartsBelowBound(line, n - 1);
    }
  }

  /** The recorded starts are exactly the token starts, strictly increasing. */
  lemma {:induction false} StartsBelowExact(line: CString, n: nat)
    requires n <= |line|
    ensures forall i: nat :: i in StartsBelow(line, n) <==> i < n && IsTokenStart(line, i)
    ensures forall j, k :: 0 <= j < k < |StartsBelow(line, n)| ==> StartsBelow(line, n)[j] < StartsBelow(line, n)[k]
  {
    if n > 0 {
      StartsBelowExact(line, n - 1);
      StartsBelowBound(line, n - 1);
    }
  }

  /** Separators add no token start. */
  lemma StartsBelowSpace(line: CString, n: nat)
    requires n < |line| && IsSpace(line[n])
    ensures StartsBelow(line, n + 1) == StartsBelow(line, n)
  {
  }

  /** Inside a token no other token starts. */
  lemma StartsBelowInside(line: CString, n: nat)
    requires 0 < n < |line| && !IsSpace(line[n]) && !IsSpace(line[n - 1])
    ensures StartsBelow(line, n + 1) == StartsBelow(line, n)
  {
  }

  lemma {:induction false} TokenEndSkip(line: CString, i: nat, q: nat)
    requires i <= q <= |line|
    requires forall j :: i <= j < q ==> !IsSpace(line[j])
    ensures TokenEnd(line, i) == TokenEnd(line, q)
    decreases q - i
  {
    if i < q {
      TokenEndSkip(line, i + 1, q);
    }
  }

  /** runcmd's "gobble whitespace" loop: from p, every separator is replaced
      by a NUL until the line ends or a non-separator is reached. Separators
      begin no token, so the starts seen so far stay the same. */
  method SkipSeparators(buf: array<char>, ghost s0: seq<char>, p: nat) returns (q: nat)
    requires '\0' in s0 && p <= |CStr(s0)|
    requires p == 0 || p == |CStr(s0)| || IsSpace(s0[p])
    requires buf[..] == Scrub(s0, p)
    modifies buf
    ensures p <= q <= |CStr(s0)|
    ensures buf[..] == Scrub(s0, q)
    ensures forall j :: p <= j < q ==> IsSpace(s0[j])
    ensures q == |CStr(s0)| || IsTokenStart(CStr(s0), q)
    ensures buf[q] == '\0' <==> q == |CStr(s0)|
    ensures StartsBelow(CStr(s0), q) == StartsBelow(CStr(s0), p)
  {
    ghost var line := CStr(s0);
    q := p;
    while buf[q] != '\0' && IsSpace(buf[q])
      invariant p <= q <= |line|
      invariant buf[..] == Scrub(s0, q)
      invariant forall j :: p <= j < q ==> IsSpace(s0[j])
      invariant StartsBelow(line, q) == StartsBelow(line, p)
      decreases |line| - q
    {
      assert buf[q] == s0[q];
      ScrubSpace(s0, q);
      StartsBelowSpace(line, q);
      buf[q] := '\0';
      q := q + 1;
    }
    assert q < |line| ==> buf[q] == line[q];
  }

  /** runcmd's "scan past next arg" loop: from a token start, the first
      separator or the end of the line is that token's end, and no other
      token starts on the way. Nothing in the buffer changes. */
  method ScanToken(buf: array<char>, ghost s0: seq<char>, p: nat) returns (q: nat)
    requires '\0' in s0 && IsTokenStart(CStr(s0), p)
    requires buf[..] == Scrub(s0, p)
    ensures p < q <= |CStr(s0)|
    ensures q == TokenEnd(CStr(s0), p)
    ensures q == |CStr(s0)| || IsSpace(s0[q])
    ensures Scrub(s0, q) == Scrub(s0, p)
    ensures StartsBelow(CStr(s0), q) == StartsBelow(CStr(s0), p) + [p]
  {
    ghost var line := CStr(s0);
    q := p;
    while buf[q] != '\0' && !IsSpace(buf[q])
      invariant p <= q <= |line|
      invariant forall j :: p <= j < q ==> !IsSpace(line[j])
      invariant q == p || StartsBelow(line, q) == StartsBelow(line, p) + [p]
      decreases |line| - q
    {
      assert buf[q] == s0[q] == line[q];
      if q > p {
        StartsBelowInside(line, q);
      }
      q := q + 1;
    }
    assert q < |line| ==> buf[q] == line[q];
    TokenEndSkip(line, p, q);
    ScrubOther(s0, p, q);
  }

  /** runcmd's parse loop. On success, argv[0..argc) hold the token starts in
      order and argv[argc] is null, and every separator of the line is now
      a NUL. On a sixteenth token it stops, the separators before that token
      already overwritten. Nothing else in the buffer changes. */
  method Tokenize(buf: array<char>) returns (argc: nat, argv: array<Option<nat>>, tooMany: bool)
    requires '\0' in buf[..]
    modifies buf
    ensures fresh(argv) && argv.Length == MAXARGS
    ensures var line := CStr(old(buf[..]));
            && (tooMany <==> |Starts(line)| >= MAXARGS)
            && (tooMany ==> buf[..] == Scrub(old(buf[..]), Starts(line)[MAXARGS - 1]))
            && (!tooMany ==>
                  && argc == |Starts(line)| < MAXARGS
                  && (forall k :: 0 <= k < argc ==> argv[k] == Some(Starts(line)[k]))
                  && argv[argc] == None
                  && buf[..] == Scrub(old(buf[..]), |line|))
  {
    ghost var s0 := buf[..];
    ghost var line := CStr(s0);
    argv := new Option<nat>[MAXARGS];
    argc := 0;
    argv[argc] := None;
    tooMany := false;
    ghost var starts: seq<nat> := [];
    var p := 0;
    while true
      invariant 0 <= p <= |line| && argc < MAXARGS
      invariant buf[..] == Scrub(s0, p)
      invariant p == 0 || p == |line| || IsSpace(line[p])
      invariant starts == StartsBelow(line, p) && argc == |starts|
      invariant forall k :: 0 <= k < argc ==> argv[k] == Some(starts[k])
      decreases |line| - p
    {
      p := SkipSeparators(buf, s0, p);
      if buf[p] == '\0' {
        break;
      }
      if argc == MAXARGS - 1 {
        SixteenthStart(line, starts, p);
        return argc, argv, true;
      }
      argv[argc] := Some(p);
      argc := argc + 1;
      starts := starts + [p];
      p := ScanToken(buf, s0, p);
    }
    StartsPrefix(line, p);
    argv[argc] := None;
  }

  /** A start found after fifteen others is the sixteenth of the line. */
  lemma SixteenthStart(line: CString, starts: seq<nat>, p: nat)
    requires IsTokenStart(line, p) && starts == StartsBelow(line, p) && |starts| == MAXARGS - 1
    ensures |Starts(line)| >= MAXARGS && Starts(line)[MAXARGS - 1] == p
  {
    assert StartsBelow(line, p + 1) == starts + [p];
    StartsPrefix(line, p + 1);
  }

  /** A prefix of the start list stays a prefix of the whole list. */
  lemma StartsPrefix(line: CString, n: nat)
    requires n <= |line|
    ensures StartsBelow(line, n) <= Starts(line)
  {
    StartsPrefixFrom(line, n, |line|);
  }

  lemma {:induction false} StartsPrefixFrom(line: CString, n: nat, m: nat)
    requires n <= m <= |line|
    ensures StartsBelow(line, n) <= StartsBelow(line, m)
    decreases m - n
  {
    if n < m {
      StartsPrefixFrom(line, n, m - 1);
    }
  }

  lemma {:induction false} TokenEndFacts(line: CString, i: nat)
    requires i <= |line|
    ensures forall j :: i <= j < TokenEnd(line, i) ==> !IsSpace(line[j])
    ensures TokenEnd(line, i) == |line| || IsSpace(line[TokenEnd(line, i)])
    decreases |line| - i
  {
    if i < |line| && !IsSpace(line[i]) {
      TokenEndFacts(line, i + 1);
    }
  }

  /** The recorded starts are exactly the positions that begin a token, in
      strictly increasing order. */
  lemma StartsExact(line: CString)
    ensures forall i: nat :: i in Starts(line) <==> IsTokenStart(line, i)
    ensures forall j, k :: 0 <= j < k < |Starts(line)| ==> Starts(line)[j] < Starts(line)[k]
  {
    StartsBelowExact(line, |line|);
  }

  /** Each token is a maximal run of non-separators: nonempty, free of
      separators, preceded by a separator or the start of the line, and
      followed by a separator or the end of the line. */
  lemma TokenShape(line: CString, k: nat)
    requires k < |Starts(line)|
    ensures var st := Starts(line)[k];
            var e := st + |Tokens(line)[k]|;
            && e <= |line| && Tokens(line)[k] == line[st..e]
            && |Tokens(line)[k]| > 0
            && (forall c :: c in Tokens(line)[k] ==> !IsSpace(c))
            && (st == 0 || IsSpace(line[st - 1]))
            && (e == |line| || IsSpace(line[e]))
  {
    StartsExact(line);
    var st := Starts(line)[k];
    assert st in Starts(line);
    TokenEndFacts(line, st);
    assert TokenEnd(line, st) > st by {
      assert !IsSpace(line[st]);
    }
  }

  /** A line with no separators is a single token, the whole line. */
  lemma OneWord(line: CString)
    requires |line| > 0 && forall j :: 0 <= j < |line| ==> !IsSpace(line[j])
    ensures Tokens(line) == [line]
  {
    OneStart(line, |line|);
    TokenEndSkip(line, 0, |line|);
    assert Starts(line) == [0];
    assert TokenEnd(line, 0) == |line|;
    assert Tokens(line)[0] == line[0..|line|] == line;
  }

  lemma {:induction false} OneStart(line: CString, n: nat)
    requires 0 < n <= |line| && forall j :: 0 <= j < |line| ==> !IsSpace(line[j])
    ensures StartsBelow(line, n) == [0]
  {
    if n > 1 {
      OneStart(line, n - 1);
      StartsBelowInside(line, n - 1);
    }
  }

  /** After a successful parse, the C string at each recorded start of the
      scrubbed buffer is exactly that token: the separator after it became
      its terminating NUL. */
  lemma ReadBack(s0: seq<char>, k: nat)
    requires '\0' in s0 && k < |Starts(CStr(s0))|
    ensures var b := Scrub(s0, |CStr(s0)|);
            var st := Starts(CStr(s0))[k];
            st <= |b| && '\0' in b[st..] && CStr(b[st..]) == Tokens(CStr(s0))[k]
  {
    var line := CStr(s0);
    var b := Scrub(s0, |line|);
    StartsBelowBound(line, |line|);
    var st := Starts(line)[k];
    var e := TokenEnd(line, st);
    TokenEndFacts(line, st);
    assert Tokens(line)[k] == line[st..e];
    forall j | st <= j < e
      ensures b[j] == line[j] && b[j] != '\0'
    {
      assert line[j] != '\0';
    }
    assert b[e] == '\0';
    ghost var tail := b[st..];
    CLenAt(tail, e - st);
    assert CStr(tail) == line[st..e];
  }


  /** A line of separators only has no tokens. */
  lemma NoStarts(line: CString)
    requires forall j :: 0 <= j < |line| ==> IsSpace(line[j])
    ensures Starts(line) == []
  {
    NoStartsBelow(line, |line|);
  }

  lemma {:induction false} NoStartsBelow(line: CString, n: nat)
    requires n <= |line| && forall j :: 0 <= j < |line| ==> IsSpace(line[j])
    ensures StartsBelow(line, n) == []
  {
    if n > 0 {
      NoStartsBelow(line, n - 1);
    }
  }

}
