/** `MemoryLayout::simplifyInit`, on the words: the same one-pass scheme as the main optimiser. */
module InitOptimizer {
  import opened Tracing
  import opened Layouts
  import opened InitCode
  import opened Seqs

  /** A repeated block that simplifies to nothing is met while nothing is stepped over: four words are taken back, only two were written. */
  predicate Stumbles(c: Init, p: Pending)
    requires Valid(p)
    decreases c
  {
    !c.Stop? && (
      || (c.Repeat? && Stumbles(c.body, Nothing))
      || (c.Repeat? && BodyOf(c).Stop? && p.skip == 0)
      || Stumbles(c.next, After(c, p).pending))
  }

  function SkipWords(n: nat): seq<nat> {
    if n == 0 then [] else [INIT_SKIP, n]
  }

  function DataWords(d: seq<nat>): seq<nat> {
    if d == [] then [] else [INIT, |d|] + d
  }

  lemma PendingWords(p: Pending, next: Init)
    ensures InitWords(PassOver(p.skip, next)) == SkipWords(p.skip) + InitWords(next)
    ensures InitWords(PutData(p.data, next)) == DataWords(p.data) + InitWords(next)
  {
    if p.skip == 0 {
      assert [] + InitWords(next) == InitWords(next);
    }
    if p.data == [] {
      assert [] + InitWords(next) == InitWords(next);
    }
  }

  method PushPendingSkip(simplified: MemoryLayout, skip: nat)
    modifies simplified`initOps
    ensures simplified.initOps == old(simplified.initOps) + SkipWords(skip)
  {
    if skip > 0 {
      simplified.PushInitSkip(skip);
    }
  }

  method PushPendingData(simplified: MemoryLayout, data: seq<nat>)
    modifies simplified`initOps
    ensures simplified.initOps == old(simplified.initOps) + DataWords(data)
  {
    if data != [] {
      simplified.PushInit(data);
    }
  }

  /** The length and the first word of what a block added tell what it is. */
  lemma BlockLength(b: Init)
    ensures InitLen(b) == 0 <==> b.Stop?
    ensures InitLen(b) == 2 && InitWords(b)[0] == INIT_SKIP <==> IsLonePass(b)
    ensures IsLonePass(b) ==> InitWords(b) == [INIT_SKIP, b.n]
  {
    if !b.Stop? {
      assert InitLen(b) == HeadLen(b) + InitLen(b.next);
      if InitLen(b) == 2 {
        assert InitWords(b) == HeadWords(b) + InitWords(b.next);
      }
    }
  }

  /**
   What one repetition makes of its block's words: see `Take`. When the block is empty and nothing was stepped over, the two
   words before the repetition are lost too; where there are none, the size asked for is negative.
   */
  method SquashRepeat(simplified: MemoryLayout, arraySize: nat, contentI: nat, skip0: nat, ghost before: seq<nat>, ghost b: Init)
    returns (skip: nat, ok: bool)
    requires simplified.initOps == before + SkipWords(skip0) + [INIT_REPEAT, arraySize] + InitWords(b)
    requires contentI == |before| + |SkipWords(skip0)| + 2
    modifies simplified`initOps
    ensures ok <==> !(b.Stop? && skip0 == 0)
    ensures !ok && |before| >= 2 ==> simplified.initOps == before[..|before| - 2]
    ensures ok && b.Stop? ==> simplified.initOps == before && skip == skip0
    ensures IsLonePass(b) ==> simplified.initOps == before && skip == skip0 + b.n * arraySize
    ensures !b.Stop? && !IsLonePass(b) ==> simplified.initOps == old(simplified.initOps) + [INIT_END] && skip == 0
  {
    skip, ok := skip0, true;
    BlockLength(b);
    var addedOps := |simplified.initOps| - contentI;
    if addedOps == 2 && simplified.initOps[contentI] == INIT_SKIP {
      var count := simplified.initOps[contentI + 1] * arraySize;
      if skip > 0 {
        skip := skip + count;
        simplified.TruncateInit(contentI - 4);
      } else {
        skip := count;
        simplified.TruncateInit(contentI - 2);
      }
    } else if addedOps == 0 {
      ok := skip > 0;
      if contentI >= 4 {
        simplified.TruncateInit(contentI - 4);
      }
    } else {
      simplified.PushInitEnd();
      skip := 0;
    }
  }

  /** The words of everything pending and of one operation behind it. */
  lemma KeepWords(p: Pending, keep: Init, before: seq<nat>)
    ensures before + InitWords(PutData(p.data, PassOver(p.skip, keep)))
            == before + DataWords(p.data) + SkipWords(p.skip) + InitWords(keep)
  {
    PendingWords(p, keep);
    PendingWords(p, PassOver(p.skip, keep));
    Spread(before, DataWords(p.data), SkipWords(p.skip), InitWords(keep));
  }

  lemma Spread(a: seq<nat>, b: seq<nat>, c: seq<nat>, d: seq<nat>)
    ensures a + (b + (c + d)) == a + b + c + d
  {
  }

  method SimplifyRepeat(w: seq<nat>, start: nat, simplified: MemoryLayout, skip0: nat, ghost c: Init, ghost p: Pending, ghost before: seq<nat>)
    returns (it: nat, skip: nat, ok: bool)
    requires c.Repeat? && ReadsInit(w, start, c) && Valid(p) && skip0 == p.skip
    requires simplified.initOps == before + DataWords(p.data)
    modifies simplified`initOps
    ensures ok <==> !Stumbles(c.body, Nothing) && !(BodyOf(c).Stop? && skip0 == 0)
    ensures !ok && !Stumbles(c.body, Nothing) && |old(simplified.initOps)| >= 2 ==>
              simplified.initOps == old(simplified.initOps)[..|old(simplified.initOps)| - 2]
    ensures ok ==> it == start + 2 + InitLen(c.body)
    ensures ok ==> Pending(skip, []) == After(c, p).pending
    ensures ok ==> simplified.initOps == before + InitWords(After(c, p).written)
    decreases |w| - start, 0
  {
    ghost var written, b := simplified.initOps, BodyOf(c);
    skip := skip0;
    PushPendingSkip(simplified, skip);
    var arraySize := w[start + 1];
    simplified.PushInitGenericOp(INIT_REPEAT, arraySize);
    var contentI := |simplified.initOps|;
    it, ok := SimplifyInitFrom(w, start + 2, simplified, false, c.body);
    if !ok {
      return;
    }
    skip, ok := SquashRepeat(simplified, arraySize, contentI, skip, written, b);
    RepeatWords(before, p, arraySize, b);
  }

  lemma RepeatWords(before: seq<nat>, p: Pending, count: nat, b: Init)
    ensures before + DataWords(p.data) == before + InitWords(PutData(p.data, Stop))
    ensures before + DataWords(p.data) + SkipWords(p.skip) + [INIT_REPEAT, count] + InitWords(b) + [INIT_END]
            == before + InitWords(PutData(p.data, PassOver(p.skip, Repeat(count, b, Stop))))
  {
    PendingWords(p, Stop);
    KeepWords(p, Repeat(count, b, Stop), before);
    var words := [INIT_REPEAT, count] + InitWords(b) + [INIT_END];
    assert InitWords(Repeat(count, b, Stop)) == words;
    var lead := before + DataWords(p.data) + SkipWords(p.skip);
    assert lead + words == lead + [INIT_REPEAT, count] + InitWords(b) + [INIT_END];
  }

  method SimplifyEmpty(simplified: MemoryLayout, skip: nat, handle: nat, ghost p: Pending, ghost before: seq<nat>)
    requires skip == p.skip && simplified.initOps == before + DataWords(p.data)
    modifies simplified`initOps
    ensures simplified.initOps == before + InitWords(PutData(p.data, PassOver(p.skip, Empty(handle, Stop))))
  {
    PushPendingSkip(simplified, skip);
    simplified.PushInitGenericOp(INIT_CONTAINER, handle);
    KeepWords(p, Empty(handle, Stop), before);
    assert InitWords(Empty(handle, Stop)) == [INIT_CONTAINER, handle];
  }

  /** One turn of the loop, on the operation at `start`. */
  method SimplifyInitTurn(w: seq<nat>, start: nat, simplified: MemoryLayout, skip0: nat, data0: seq<nat>, ghost c: Init, ghost p: Pending)
    returns (it: nat, skip: nat, data: seq<nat>, ok: bool)
    requires !c.Stop? && ReadsInit(w, start, c) && Valid(p) && skip0 == p.skip && data0 == p.data
    modifies simplified`initOps
    ensures !ok ==> Stumbles(c, p)
    ensures ok ==> Stumbles(c, p) == Stumbles(c.next, After(c, p).pending)
    ensures ok ==> it == start + HeadLen(c)
    ensures ok ==> simplified.initOps == old(simplified.initOps) + InitWords(After(c, p).written)
    ensures ok ==> Pending(skip, data) == After(c, p).pending
    decreases |w| - start, 2
  {
    it, skip, data, ok := start, skip0, data0, true;
    if w[start] == INIT {
      PushPendingSkip(simplified, skip);
      PendingWords(p, Stop);
      skip := 0;
      var initSize := w[start + 1];
      data := data + w[start + 2..start + 2 + initSize];
      assert w[start + 2..start + 2 + initSize] == c.bytes;
      it := start + 2 + initSize;
      return;
    }
    PushPendingData(simplified, data);
    data := [];
    it, skip, ok := SimplifyPass(w, start, simplified, skip, c, p, old(simplified.initOps));
  }

  /** The operations other than data, once pending data has been written. */
  method SimplifyPass(w: seq<nat>, start: nat, simplified: MemoryLayout, skip0: nat, ghost c: Init, ghost p: Pending, ghost before: seq<nat>)
    returns (it: nat, skip: nat, ok: bool)
    requires !c.Stop? && !c.Data? && ReadsInit(w, start, c) && Valid(p) && skip0 == p.skip
    requires simplified.initOps == before + DataWords(p.data)
    modifies simplified`initOps
    ensures !ok ==> Stumbles(c, p)
    ensures ok ==> Stumbles(c, p) == Stumbles(c.next, After(c, p).pending)
    ensures ok ==> it == start + HeadLen(c)
    ensures ok ==> simplified.initOps == before + InitWords(After(c, p).written)
    ensures ok ==> Pending(skip, []) == After(c, p).pending
    decreases |w| - start, 1
  {
    it, skip, ok := start + 1, skip0, true;
    if w[start] == INIT_REPEAT {
      it, skip, ok := SimplifyRepeat(w, start, simplified, skip, c, p, before);
    } else if w[start] == INIT_CONTAINER {
      SimplifyEmpty(simplified, skip, w[it], p, before);
      skip := 0;
    } else {
      PendingWords(p, Stop);
      skip := skip + w[it];
    }
    it := it + 1;
  }

  ghost predicate Under(top: bool, w: seq<nat>, it: nat, rest: Init, p: Pending, ops: seq<nat>, goal: seq<nat>) {
    ReadsInit(w, it, rest) && Valid(p) && ops + InitWords(Simplified(top, rest, p)) == goal
  }

  lemma UnderNext(top: bool, w: seq<nat>, it: nat, rest: Init, p: Pending, ops: seq<nat>, goal: seq<nat>)
    requires Under(top, w, it, rest, p, ops, goal) && !rest.Stop?
    ensures var t := After(rest, p); Under(top, w, it + HeadLen(rest), rest.next, t.pending, ops + InitWords(t.written), goal)
  {
    var t := After(rest, p);
    ReadsInitNext(w, it, rest);
    WordsJoin(t.written, Simplified(top, rest.next, t.pending));
    Regroup(ops, InitWords(t.written), InitWords(Simplified(top, rest.next, t.pending)));
  }

  method PushLast(simplified: MemoryLayout, shave: bool, skip: nat, data: seq<nat>)
    requires Valid(Pending(skip, data))
    modifies simplified`initOps
    ensures simplified.initOps == old(simplified.initOps) + InitWords(Simplified(shave, Stop, Pending(skip, data)))
  {
    if skip > 0 && !shave {
      simplified.PushInitSkip(skip);
    } else if data != [] {
      simplified.PushInit(data);
    }
    PendingWords(Pending(if shave then 0 else skip, data), PutData(data, Stop));
    PendingWords(Pending(skip, data), Stop);
  }

  method SimplifyInitFrom(w: seq<nat>, start: nat, simplified: MemoryLayout, shave: bool, ghost c: Init) returns (it: nat, ok: bool)
    requires ReadsInit(w, start, c) && (shave <==> start + InitLen(c) == |w|)
    modifies simplified`initOps
    ensures ok <==> !Stumbles(c, Nothing)
    ensures ok ==> it == start + InitLen(c)
    ensures ok ==> simplified.initOps == old(simplified.initOps) + InitWords(Simplified(shave, c, Nothing))
    decreases |w| - start, 3
  {
    ghost var goal := simplified.initOps + InitWords(Simplified(shave, c, Nothing));
    ghost var rest, p := c, Nothing;
    var skip, data := 0, [];
    ok, it := true, start;
    ReadsInitStops(w, start, c);
    while it != |w| && w[it] != INIT_END
      invariant start <= it <= |w| && it + InitLen(rest) == start + InitLen(c)
      invariant p == Pending(skip, data)
      invariant Under(shave, w, it, rest, p, simplified.initOps, goal)
      invariant Stumbles(c, Nothing) == Stumbles(rest, p)
      decreases |w| - it
    {
      UnderNext(shave, w, it, rest, p, simplified.initOps, goal);
      ReadsInitNext(w, it, rest);
      it, skip, data, ok := SimplifyInitTurn(w, it, simplified, skip, data, rest, p);
      if !ok {
        return;
      }
      rest, p := rest.next, After(rest, p).pending;
    }
    assert rest.Stop?;
    PushLast(simplified, shave, skip, data);
  }

  // ----- an input -----

  /** A container, then an array of structures without bytes. */
  function Unlucky(handle: nat): Init {
    Empty(handle, Repeat(2, Pass(0, Stop), Stop))
  }

  lemma UnluckyStumbles(handle: nat)
    ensures Stumbles(Unlucky(handle), Nothing)
  {
    var rest := Repeat(2, Pass(0, Stop), Stop);
    assert BodyOf(rest) == Stop;
    assert Stumbles(rest, Nothing);
    assert After(Unlucky(handle), Nothing).pending == Nothing;
  }

  /** The four words it takes back are all there are: the container is not initialised at all. */
  lemma UnluckyIsLost(env: Sizes, handle: nat, c: Init)
    requires var written := [INIT_CONTAINER, handle] + [INIT_REPEAT, 2]; ReadsInit(written[..|written| - 4], 0, c)
    ensures Effect(env, Unlucky(handle), 0, NoWrite).Clear? && Effect(env, c, 0, NoWrite) == NoWrite
  {
    assert ([INIT_CONTAINER, handle] + [INIT_REPEAT, 2])[..0] == [];
  }
}
