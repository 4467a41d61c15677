/**
 `MemoryLayout::simplify`, on the words: one pass with a pending operation, blocks
 simplified recursively straight into the output, and words taken back from the
 output when a block turns out to be one operation or nothing at all.
 */
module Optimizer {
  import opened Bytecode
  import opened Simplification
  import opened Tracing
  import opened Layouts
  import opened Seqs

  /**
   An array whose block simplifies to nothing is met while nothing is pending. The pass then
   takes back four words although the array only wrote two, and so destroys the words in front.
   */
  predicate Stumbles(merge: bool, c: Code, p: Pending)
    requires Valid(merge, p)
    decreases c
  {
    !c.Done? && (
      || (HasBody(c) && Stumbles(merge, c.body, Nothing))
      || (c.Array? && BodyOf(merge, c).Done? && p.count == 0)
      || Stumbles(merge, c.next, After(merge, c, p).pending))
  }

  /** One turn adds its words in front of what the rest of the block will add. */
  lemma WordsStep(merge: bool, edge: Edge, c: Code, p: Pending, before: seq<nat>)
    requires Valid(merge, p) && !c.Done?
    ensures var t := After(merge, c, p);
            before + Words(Simplified(merge, edge, c, p))
            == before + Words(Written(p, t)) + Words(Simplified(merge, edge, c.next, t.pending))
  {
    var t := After(merge, c, p);
    var a, b := Written(p, t), Simplified(merge, edge, c.next, t.pending);
    WordsAppend(a, b);
    Regroup(before, Words(a), Words(b));
  }

  /** The two words of a pending operation, if it is written at all. */
  function PendingWords(op: nat, count: nat): seq<nat> {
    if count == 0 then [] else [op, count]
  }

  lemma EmitWords(p: Pending, next: Code)
    requires p.op == MEMCPY || p.op == SKIP
    ensures Words(Emit(p, next)) == PendingWords(p.op, p.count) + Words(next)
  {
    if p.count == 0 {
      assert [] + Words(next) == Words(next);
    }
  }

  /** The length of what a block added tells what it is. */
  lemma BlockLength(b: Code)
    ensures Len(b) == 0 <==> b.Done?
    ensures Len(b) == 2 <==> IsLone(b)
    ensures IsLone(b) ==> Words(b) == [OpOf(b), b.n]
  {
    if b.Memcpy? || b.Skip? {
      assert Len(b) == 2 + Len(b.next);
    }
  }

  method PushPending(simplified: MemoryLayout, op: nat, count: nat)
    modifies simplified`ops
    ensures simplified.ops == old(simplified.ops) + PendingWords(op, count)
  {
    if count > 0 {
      simplified.PushGenericOp(op, count);
    }
  }

  /**
   What one array makes of its block's words: see `Take`. When the block is empty and nothing was pending, the two
   words before the array are lost too; where there are none, the size asked for is negative.
   */
  method SquashArray(simplified: MemoryLayout, arraySize: nat, contentI: nat, op0: nat, count0: nat,
                     ghost before: seq<nat>, ghost b: Code)
    returns (op: nat, count: nat, ok: bool)
    requires simplified.ops == before + PendingWords(op0, count0) + [ARRAY, arraySize] + Words(b)
    requires contentI == |before| + |PendingWords(op0, count0)| + 2
    modifies simplified`ops
    ensures ok <==> !(b.Done? && count0 == 0)
    ensures !ok && |before| >= 2 ==> simplified.ops == before[..|before| - 2]
    ensures ok && b.Done? ==> simplified.ops == before && op == op0 && count == count0
    ensures IsLone(b) && OpOf(b) == op0 && count0 > 0 ==>
              simplified.ops == before && op == op0 && count == count0 + b.n * arraySize
    ensures IsLone(b) && !(OpOf(b) == op0 && count0 > 0) ==>
              simplified.ops == before + PendingWords(op0, count0) && op == OpOf(b) && count == b.n * arraySize
    ensures !b.Done? && !IsLone(b) ==>
              simplified.ops == old(simplified.ops) + [END] && op == op0 && count == 0
  {
    op, count, ok := op0, count0, true;
    BlockLength(b);
    var addedOps := |simplified.ops| - contentI;
    if addedOps == 2 {
      var bodyOp := simplified.ops[contentI];
      var total := simplified.ops[contentI + 1] * arraySize;
      if bodyOp == op && count > 0 {
        count := count + total;
        simplified.Truncate(contentI - 4);
      } else {
        op, count := bodyOp, total;
        simplified.Truncate(contentI - 2);
      }
    } else if addedOps == 0 {
      ok := count > 0;
      if contentI >= 4 {
        simplified.Truncate(contentI - 4);
      }
    } else {
      simplified.PushEnd();
      count := 0;
    }
  }

  method SimplifyArray(merge: bool, remove: bool, w: seq<nat>, start: nat, depth: nat, simplified: MemoryLayout,
                       op0: nat, count0: nat, ghost c: Code, ghost p: Pending)
    returns (it: nat, op: nat, count: nat, ok: bool)
    requires c.Array? && Reads(w, start, c)
    requires Valid(merge, p) && op0 == p.op && count0 == p.count
    modifies simplified`ops
    ensures ok <==> !Stumbles(merge, c.body, Nothing) && !(BodyOf(merge, c).Done? && count0 == 0)
    ensures !ok && !Stumbles(merge, c.body, Nothing) && |old(simplified.ops)| >= 2 ==>
              simplified.ops == old(simplified.ops)[..|old(simplified.ops)| - 2]
    ensures ok ==> it == start + 2 + Len(c.body)
    ensures ok ==> var t := After(merge, c, p);
                   && simplified.ops == old(simplified.ops) + Words(Written(p, t))
                   && op == t.pending.op && count == t.pending.count
    decreases |w| - start, 0
  {
    ghost var before := simplified.ops;
    PushPending(simplified, op0, count0);
    var arraySize := w[start + 1];
    simplified.PushGenericOp(ARRAY, arraySize);
    var contentI := |simplified.ops|;
    op, count := op0, count0;
    it, ok := SimplifyFrom(merge, remove, w, start + 2, depth + 1, simplified, c.body);
    if !ok {
      return;
    }
    op, count, ok := SquashArray(simplified, arraySize, contentI, op0, count0, before, BodyOf(merge, c));
    ArrayWritten(merge, c, p, before);
  }

  lemma ArrayWritten(merge: bool, c: Code, p: Pending, before: seq<nat>)
    requires c.Array? && Valid(merge, p)
    ensures var b := BodyOf(merge, c);
            var w := Words(Written(p, After(merge, c, p)));
            && (b.Done? ==> before + w == before)
            && (IsLone(b) && OpOf(b) == p.op && p.count > 0 ==> before + w == before)
            && (IsLone(b) && !(OpOf(b) == p.op && p.count > 0) ==> before + w == before + PendingWords(p.op, p.count))
            && (!b.Done? && !IsLone(b) ==>
                  before + w == before + PendingWords(p.op, p.count) + [ARRAY, c.count] + Words(b) + [END])
  {
    var b := BodyOf(merge, c);
    if b.Done? || IsLone(b) {
      EmitWords(p, Done);
    } else {
      BlockWritten(p, Array(c.count, b, Done), before);
    }
  }

  /** The words of a pending operation and of a block behind it, as the pass writes them. */
  lemma BlockWritten(p: Pending, keep: Code, before: seq<nat>)
    requires (p.op == MEMCPY || p.op == SKIP) && HasBody(keep) && keep.next.Done?
    ensures before + Words(Emit(p, keep))
            == before + PendingWords(p.op, p.count)
               + (if keep.Array? then [ARRAY, keep.count] else [CONTAINER, keep.handle]) + Words(keep.body) + [END]
  {
    EmitWords(p, keep);
    var head := if keep.Array? then [ARRAY, keep.count] else [CONTAINER, keep.handle];
    assert Words(keep) == head + Words(keep.body) + [END];
    Spread(before, PendingWords(p.op, p.count), head, Words(keep.body), [END]);
  }

  lemma Spread(a: seq<nat>, b: seq<nat>, c: seq<nat>, d: seq<nat>, e: seq<nat>)
    ensures a + (b + (c + d + e)) == a + b + c + d + e
  {
  }

  method SimplifyContainer(merge: bool, remove: bool, w: seq<nat>, start: nat, depth: nat, simplified: MemoryLayout,
                           op: nat, count: nat, ghost c: Code, ghost p: Pending)
    returns (it: nat, ok: bool)
    requires c.Container? && Reads(w, start, c)
    requires Valid(merge, p) && op == p.op && count == p.count
    modifies simplified`ops
    ensures ok <==> !Stumbles(merge, c.body, Nothing)
    ensures ok ==> it == start + 2 + Len(c.body)
    ensures ok ==> simplified.ops == old(simplified.ops) + Words(Written(p, After(merge, c, p)))
    decreases |w| - start, 0
  {
    ghost var before := simplified.ops;
    PushPending(simplified, op, count);
    simplified.PushGenericOp(CONTAINER, w[start + 1]);
    it, ok := SimplifyFrom(merge, remove, w, start + 2, depth + 1, simplified, c.body);
    if !ok {
      return;
    }
    simplified.PushEnd();
    BlockWritten(p, Container(c.handle, BodyOf(merge, c), Done), before);
  }

  /** MEMCPY or SKIP: added to what is pending, or pending in its turn. */
  method SimplifyOp(merge: bool, current: nat, size: nat, simplified: MemoryLayout, op0: nat, count0: nat, ghost c: Code, ghost p: Pending)
    returns (op: nat, count: nat)
    requires (c.Memcpy? && current == MEMCPY) || (c.Skip? && current == SKIP)
    requires size == c.n && Valid(merge, p) && op0 == p.op && count0 == p.count
    modifies simplified`ops
    ensures var t := Take(merge, c, Done, p);
            && simplified.ops == old(simplified.ops) + Words(Written(p, t))
            && op == t.pending.op && count == t.pending.count
  {
    op, count := op0, count0;
    if current == op {
      count := count + size;
    } else if merge {
      op, count := MEMCPY, count + size;
    } else {
      PushPending(simplified, op, count);
      EmitWords(p, Done);
      op, count := current, size;
    }
  }

  /** The end of the block: at the end of the whole program, padding still pending is not written. */
  method PushLast(simplified: MemoryLayout, edge: Edge, op: nat, count: nat, skip: nat)
    requires (op == MEMCPY || op == SKIP) && skip <= count
    modifies simplified`ops
    ensures simplified.ops == old(simplified.ops) + Words(Finish(edge, Pending(op, count, skip)))
  {
    if edge.Block? {
      PushPending(simplified, op, count);
    } else if count > 0 {
      if !edge.removeTrailingSkips || op != SKIP {
        simplified.PushGenericOp(op, count - skip);
      }
    }
  }

  /** One turn of the loop, on the operation at `start`. */
  method SimplifyTurn(merge: bool, remove: bool, w: seq<nat>, start: nat, depth: nat, simplified: MemoryLayout,
                      op0: nat, count0: nat, skip0: nat, ghost c: Code, ghost p: Pending)
    returns (it: nat, op: nat, count: nat, skip: nat, ok: bool)
    requires !c.Done? && Reads(w, start, c)
    requires Valid(merge, p) && op0 == p.op && count0 == p.count && skip0 == p.skip
    modifies simplified`ops
    ensures !ok ==> Stumbles(merge, c, p)
    ensures ok ==> Stumbles(merge, c, p) == Stumbles(merge, c.next, After(merge, c, p).pending)
    ensures ok ==> it == start + HeadLen(c)
    ensures ok ==> simplified.ops == old(simplified.ops) + Words(Written(p, After(merge, c, p)))
    ensures ok ==> Pending(op, count, skip) == After(merge, c, p).pending
    decreases |w| - start, 1
  {
    var current := w[start];
    it, op, count, skip, ok := start, op0, count0, skip0, true;
    if current == ARRAY {
      it, op, count, ok := SimplifyArray(merge, remove, w, it, depth, simplified, op, count, c, p);
    } else if current == CONTAINER {
      it, ok := SimplifyContainer(merge, remove, w, it, depth, simplified, op, count, c, p);
      count := 0;
    } else {
      it := it + 1;
      var size := w[it];
      if current == SKIP {
        skip := skip + size;
      }
      op, count := SimplifyOp(merge, current, size, simplified, op, count, c, p);
    }
    if current != SKIP {
      skip := 0;
    }
    it := it + 1;
  }

  /** Where the loop stands: `rest` is still to be read at `it`, and its words will complete `ops` to `goal`. */
  ghost predicate Under(merge: bool, edge: Edge, w: seq<nat>, it: nat, rest: Code, p: Pending, ops: seq<nat>, goal: seq<nat>) {
    Reads(w, it, rest) && Valid(merge, p) && ops + Words(Simplified(merge, edge, rest, p)) == goal
  }

  lemma UnderNext(merge: bool, edge: Edge, w: seq<nat>, it: nat, rest: Code, p: Pending, ops: seq<nat>, goal: seq<nat>)
    requires Under(merge, edge, w, it, rest, p, ops, goal) && !rest.Done?
    ensures var t := After(merge, rest, p);
            Under(merge, edge, w, it + HeadLen(rest), rest.next, t.pending, ops + Words(Written(p, t)), goal)
  {
    ReadsNext(w, it, rest);
    WordsStep(merge, edge, rest, p, ops);
  }

  method SimplifyFrom(merge: bool, remove: bool, w: seq<nat>, start: nat, depth: nat, simplified: MemoryLayout, ghost c: Code)
    returns (it: nat, ok: bool)
    requires Reads(w, start, c) && (depth == 0 <==> start + Len(c) == |w|)
    modifies simplified`ops
    ensures ok <==> !Stumbles(merge, c, Nothing)
    ensures ok ==> it == start + Len(c)
    ensures ok ==> simplified.ops == old(simplified.ops)
                                     + Words(Simplified(merge, if depth == 0 then Top(remove) else Block, c, Nothing))
    decreases |w| - start, 2
  {
    ghost var edge := if depth == 0 then Top(remove) else Block;
    ghost var goal := simplified.ops + Words(Simplified(merge, edge, c, Nothing));
    ghost var rest, p := c, Nothing;
    var op, count, skip := MEMCPY, 0, 0;
    ok, it := true, start;
    ReadsStops(w, start, c);
    while it != |w| && w[it] != END
      invariant start <= it <= |w| && it + Len(rest) == start + Len(c)
      invariant p == Pending(op, count, skip)
      invariant Under(merge, edge, w, it, rest, p, simplified.ops, goal)
      invariant Stumbles(merge, c, Nothing) == Stumbles(merge, rest, p)
      decreases |w| - it
    {
      UnderNext(merge, edge, w, it, rest, p, simplified.ops, goal);
      ReadsNext(w, it, rest);
      it, op, count, skip, ok := SimplifyTurn(merge, remove, w, it, depth, simplified, op, count, skip, rest, p);
      if !ok {
        return;
      }
      rest, p := rest.next, After(merge, rest, p).pending;
    }
    assert rest.Done?;
    PushLast(simplified, if it == |w| then Top(remove) else Block, op, count, skip);
  }

  // ----- when the pass is safe -----

  /** Every array block, at any depth, covers at least one byte. */
  ghost predicate Solid(env: Sizes, c: Code) {
    match c
    case Done => true
    case Memcpy(_, next) => Solid(env, next)
    case Skip(_, next) => Solid(env, next)
    case Array(_, b, next) => Span(env, b) > 0 && Solid(env, b) && Solid(env, next)
    case Container(_, b, next) => Solid(env, b) && Solid(env, next)
  }

  lemma {:induction false} SolidNeverStumbles(env: Sizes, merge: bool, c: Code, p: Pending)
    requires Solid(env, c) && Valid(merge, p)
    ensures !Stumbles(merge, c, p)
    decreases c
  {
    if !c.Done? {
      if HasBody(c) {
        SolidNeverStumbles(env, merge, c.body, Nothing);
        BlockTrace(env, merge, c.body, 0, Nil);
      }
      SolidNeverStumbles(env, merge, c.next, After(merge, c, p).pending);
    }
  }

  /** A merged block vanishes, and an array of it is at risk, exactly when it has no container and covers no byte. */
  lemma VanishesExactly(env: Sizes, c: Code)
    ensures Simplified(true, Block, c, Nothing).Done? <==> Plain(c) && Span(env, c) == 0
  {
    BlockTrace(env, true, c, 0, Nil);
    PlainStays(true, Block, c, Nothing);
    if Plain(c) {
      PlainMerges(env, Block, c, Nothing);
    }
  }

  /** A container followed by an array of an empty structure. */
  function Unlucky(handle: nat): Code {
    Container(handle, Memcpy(4, Done), Array(2, Skip(0, Done), Done))
  }

  lemma UnluckyStumbles(handle: nat, merge: bool)
    ensures Stumbles(merge, Unlucky(handle), Nothing)
  {
    var rest := Array(2, Skip(0, Done), Done);
    assert BodyOf(merge, rest) == Done;
    assert Stumbles(merge, rest, Nothing);
    assert After(merge, Unlucky(handle), Nothing).pending == Nothing;
  }

  /** The four words it takes back from the words written so far leave a vector that is no program at all. */
  lemma UnluckyIsDestroyed(handle: nat, c: Code)
    ensures var written := [CONTAINER, handle, MEMCPY, 4, END] + [ARRAY, 2];
            !Reads(written[..|written| - 4], 0, c)
  {
    var left := [CONTAINER, handle, MEMCPY];
    assert ([CONTAINER, handle, MEMCPY, 4, END] + [ARRAY, 2])[..3] == left;
    if c.Container? {
      CutShort(left, 2, c.body);
    }
  }

  lemma CutShort(w: seq<nat>, i: nat, c: Code)
    requires |w| == i + 1 && w[i] == MEMCPY
    ensures !Reads(w, i, c)
  {
  }
}
