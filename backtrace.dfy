/** The frame-pointer backtrace (mon_backtrace in kern/monitor.c): starting
    from the saved frame pointer, each frame holds the caller's frame pointer
    at offset 0, the return address at offset 4 and the first five argument
    words from offset 8; a zero frame pointer ends the walk. */
module Backtrace {
  import opened Jos

  /** What the walk reads: the frame-pointer register at the time of the
      call, word-addressed memory, and the debug-info lookup for a code
      address (debuginfo_eip, whose tables are not part of this model). */
  datatype Machine = Machine(ebp: Word, mem: Word -> Word, debuginfo: Word -> EipDebugInfo)

  /** `chain` lists the frames reached from `ebp` by following saved frame
      pointers, ending at the zero sentinel. A chain that never reaches zero
      has no such list, so requiring one requires a finite walk. */
  predicate ChainFrom(mem: Word -> Word, ebp: Word, chain: seq<Word>)
    ensures ChainFrom(mem, ebp, chain) ==> (chain == [] <==> ebp == 0) && 0 !in chain
    decreases |chain|
  {
    if chain == [] then ebp == 0
    else ebp != 0 && chain[0] == ebp && ChainFrom(mem, mem(ebp), chain[1..])
  }

  /** `%.*s`: at most `len` characters of the name. */
  function Truncate(name: string, len: nat): (r: string)
    ensures |r| <= len && r <= name
    ensures |name| <= len ==> r == name
    ensures len < |name| ==> r == name[..len]
  {
    if len < |name| then name[..len] else name
  }

  /** What one iteration reports for the frame at `ebp`: the return address
      `ebp[1]`, the five words `ebp[2]`..`ebp[6]`, and the source position
      and offset of the return address inside its function. */
  function FrameAt(m: Machine, ebp: Word): (f: Frame)
    ensures f.ebp == ebp && f.eip == m.mem(AddWrap(ebp, 4))
    ensures |f.args| == 5 && forall j :: 0 <= j < 5 ==> f.args[j] == m.mem(AddWrap(ebp, 8 + 4 * j))
    ensures f.offset % WORD_MOD == SubWrap(f.eip, m.debuginfo(f.eip).fnAddr)
    ensures -0x8000_0000 <= f.offset < 0x8000_0000
    ensures f.file == m.debuginfo(f.eip).file && f.line == m.debuginfo(f.eip).line
    ensures f.fnName == Truncate(m.debuginfo(f.eip).fnName, m.debuginfo(f.eip).fnNameLen)
  {
    var eip := m.mem(AddWrap(ebp, 4));
    var info := m.debuginfo(eip);
    Frame(ebp, eip,
          [m.mem(AddWrap(ebp, 8)), m.mem(AddWrap(ebp, 12)), m.mem(AddWrap(ebp, 16)),
           m.mem(AddWrap(ebp, 20)), m.mem(AddWrap(ebp, 24))],
          info.file, info.line, Truncate(info.fnName, info.fnNameLen),
          Signed(SubWrap(eip, info.fnAddr)))
  }

  function Frames(m: Machine, chain: seq<Word>): (r: seq<Event>)
    ensures |r| == |chain|
  {
    seq(|chain|, k requires 0 <= k < |chain| => FrameLine(FrameAt(m, chain[k])))
  }

  lemma FramesSnoc(m: Machine, chain: seq<Word>, k: nat)
    requires k < |chain|
    ensures Frames(m, chain[..k + 1]) == Frames(m, chain[..k]) + [FrameLine(FrameAt(m, chain[k]))]
  {
    assert chain[..k + 1][k] == chain[k];
  }

  /** The whole report: a header, then one line per frame, innermost first. */
  function BacktraceSpec(m: Machine, chain: seq<Word>): (r: seq<Event>)
    ensures |r| == |chain| + 1 && r[0] == BacktraceHeader
  {
    [BacktraceHeader] + Frames(m, chain)
  }

  /** mon_backtrace: follow saved frame pointers until the zero sentinel.
      Memory is only read. */
  method Backtrace(m: Machine, ghost chain: seq<Word>) returns (status: int, events: seq<Event>)
    requires ChainFrom(m.mem, m.ebp, chain)
    ensures status == 0
    ensures events == BacktraceSpec(m, chain)
  {
    events := [BacktraceHeader];
    var ebp := m.ebp;
    ghost var k := 0;
    while ebp != 0
      invariant 0 <= k <= |chain|
      invariant ChainFrom(m.mem, ebp, chain[k..])
      invariant events == [BacktraceHeader] + Frames(m, chain[..k])
      decreases |chain| - k
    {
      var eip := m.mem(AddWrap(ebp, 4));
      var args := [m.mem(AddWrap(ebp, 8)), m.mem(AddWrap(ebp, 12)), m.mem(AddWrap(ebp, 16)),
                   m.mem(AddWrap(ebp, 20)), m.mem(AddWrap(ebp, 24))];
      var info := m.debuginfo(eip);
      var frame := Frame(ebp, eip, args, info.file, info.line,
                         Truncate(info.fnName, info.fnNameLen), Signed(SubWrap(eip, info.fnAddr)));
      assert chain[k..][0] == chain[k] == ebp;
      FramesSnoc(m, chain, k);
      events := events + [FrameLine(frame)];
      ebp := m.mem(ebp);
      assert chain[k..][1..] == chain[k + 1..];
      k := k + 1;
    }
    assert chain[k..] == [];
    assert chain[..k] == chain;
    return 0, events;
  }

  /** Memory determines the chain: chains from the same frame pointer are equal. */
  lemma {:induction false} ChainUnique(mem: Word -> Word, a: Word, b: Word, c1: seq<Word>, c2: seq<Word>)
    requires ChainFrom(mem, a, c1) && ChainFrom(mem, b, c2)
    ensures a == b ==> c1 == c2
    decreases |c1|
  {
    if a == b && c1 != [] && c2 != [] {
      ChainUnique(mem, mem(a), mem(b), c1[1..], c2[1..]);
      assert c1 == [c1[0]] + c1[1..] && c2 == [c2[0]] + c2[1..];
    }
  }

  /** Frame `k` of the list is nonzero and saves frame `k + 1`, or zero for the last frame. */
  predicate Linked(mem: Word -> Word, chain: seq<Word>, k: nat)
    requires k < |chain|
  {
    chain[k] != 0 && mem(chain[k]) == (if k + 1 < |chain| then chain[k + 1] else 0)
  }

  /** The chain is exactly the links memory holds. */
  lemma {:induction false} ChainLinks(mem: Word -> Word, ebp: Word, chain: seq<Word>)
    requires ChainFrom(mem, ebp, chain)
    ensures chain == [] <==> ebp == 0
    ensures chain != [] ==> chain[0] == ebp
    ensures forall k :: 0 <= k < |chain| ==> Linked(mem, chain, k)
    decreases |chain|
  {
    if chain != [] {
      var rest := chain[1..];
      ChainLinks(mem, mem(ebp), rest);
      forall k | 0 <= k < |chain|
        ensures Linked(mem, chain, k)
      {
        if k > 0 {
          assert Linked(mem, rest, k - 1);
          assert chain[k] == rest[k - 1];
          if k + 1 < |chain| { assert chain[k + 1] == rest[k]; }
        } else if 1 < |chain| {
          assert chain[1] == rest[0];
        }
      }
    }
  }

  /** Conversely, a list of nonzero frames linked through memory and ending
      at zero is the chain. */
  lemma {:induction false} LinksChain(mem: Word -> Word, ebp: Word, chain: seq<Word>)
    requires chain == [] <==> ebp == 0
    requires chain != [] ==> chain[0] == ebp
    requires forall k :: 0 <= k < |chain| ==> Linked(mem, chain, k)
    ensures ChainFrom(mem, ebp, chain)
    decreases |chain|
  {
    if chain != [] {
      var rest := chain[1..];
      assert Linked(mem, chain, 0);
      if 1 < |chain| {
        assert Linked(mem, chain, 1);
        assert rest[0] == chain[1];
      }
      forall k | 0 <= k < |rest|
        ensures Linked(mem, rest, k)
      {
        assert Linked(mem, chain, k + 1);
        assert rest[k] == chain[k + 1];
        if k + 1 < |rest| { assert rest[k + 1] == chain[k + 2]; }
      }
      LinksChain(mem, mem(ebp), rest);
    }
  }

  /** A finite chain never returns to a frame it has already visited. */
  lemma ChainDistinct(mem: Word -> Word, ebp: Word, chain: seq<Word>)
    requires ChainFrom(mem, ebp, chain)
    ensures forall i, j :: 0 <= i < j < |chain| ==> chain[i] != chain[j]
  {
    forall i, j | 0 <= i < j < |chain|
      ensures chain[i] != chain[j]
    {
      ChainSuffix(mem, ebp, chain, i);
      ChainSuffix(mem, ebp, chain, j);
      ChainUnique(mem, chain[i], chain[j], chain[i..], chain[j..]);
      assert |chain[i..]| != |chain[j..]|;
    }
  }

  /** Every suffix of the chain is the chain of its first frame. */
  lemma {:induction false} ChainSuffix(mem: Word -> Word, ebp: Word, chain: seq<Word>, i: nat)
    requires ChainFrom(mem, ebp, chain) && i < |chain|
    ensures ChainFrom(mem, chain[i], chain[i..])
    decreases i
  {
    if i > 0 {
      ChainSuffix(mem, mem(ebp), chain[1..], i - 1);
      assert chain[1..][i - 1..] == chain[i..];
    }
  }

  /** The report has one frame line per frame of the chain, innermost first. */
  lemma BacktraceReport(m: Machine, chain: seq<Word>)
    ensures |BacktraceSpec(m, chain)| == |chain| + 1
    ensures BacktraceSpec(m, chain)[0] == BacktraceHeader
    ensures forall k :: 0 <= k < |chain| ==> BacktraceSpec(m, chain)[k + 1] == FrameLine(FrameAt(m, chain[k]))
  {
    forall k | 0 <= k < |chain|
      ensures BacktraceSpec(m, chain)[k + 1] == FrameLine(FrameAt(m, chain[k]))
    {
      assert BacktraceSpec(m, chain)[k + 1] == Frames(m, chain)[k];
    }
  }

  /** The reported offset is the distance from the function's start whenever
      that distance fits in an int32. */
  lemma OffsetIsDistance(eip: Word, fnAddr: Word)
    requires -0x8000_0000 <= eip - fnAddr < 0x8000_0000
    ensures Signed(SubWrap(eip, fnAddr)) == eip - fnAddr
  {
  }
}
