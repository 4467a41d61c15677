/**
 Zeroing through the raw program of a type and through the layout whose padding is kept apart. The second drops the
 padding at its end, which the other interpreters do not act on, but zeroing does.
 */
module ZeroingUnmerged {
  import opened Bytecode
  import opened Tracing
  import opened Simplification
  import opened Types
  import opened Memory
  import opened Leftovers
  import opened Zeroing

  // ----- what an unmerged program reaches -----

  /** What the first operation reaches, in front of `rest`. */
  function HeadReached(env: Sizes, c: Code, off: nat, rest: Atoms): Atoms
    requires !c.Done?
  {
    match c
    case Memcpy(n, _) => Bytes(off, n, rest)
    case Skip(n, _) => Bytes(off, n, rest)
    case Array(k, b, _) => ReachedEach(env, b, k, off, rest)
    case Container(h, _, _) => Box(off, h, Nil, rest)
  }

  lemma ReachedStep(env: Sizes, c: Code, off: nat, mid: nat, tail: Atoms)
    requires !c.Done? && mid == off + HeadSpan(env, c)
    ensures Reached(env, c, off, tail) == HeadReached(env, c, off, Reached(env, c.next, mid, tail))
  {
  }

  lemma {:induction false} ReachedAppend(env: Sizes, a: Code, b: Code, off: nat, end: nat, tail: Atoms)
    requires end == off + Span(env, a)
    ensures Reached(env, Append(a, b), off, tail) == Reached(env, a, off, Reached(env, b, end, tail))
    decreases a
  {
    if !a.Done? {
      var mid, c := off + HeadSpan(env, a), Append(a, b);
      assert c.next == Append(a.next, b) && HeadSpan(env, c) == HeadSpan(env, a);
      ReachedAppend(env, a.next, b, mid, end, tail);
      ReachedStep(env, c, off, mid, tail);
      ReachedStep(env, a, off, mid, Reached(env, b, end, tail));
    }
  }

  /** `b` may stand for `a`. */
  ghost predicate Alike(env: Sizes, a: Code, b: Code) {
    && Span(env, a) == Span(env, b)
    && forall off: nat, tail: Atoms :: Reached(env, a, off, tail) == Reached(env, b, off, tail)
  }

  lemma {:induction false} EachAlike(env: Sizes, a: Code, b: Code, k: nat, off: nat, tail: Atoms)
    requires Alike(env, a, b)
    ensures ReachedEach(env, a, k, off, tail) == ReachedEach(env, b, k, off, tail)
    decreases k
  {
    if k > 0 {
      EachAlike(env, a, b, k - 1, off + Span(env, a), tail);
    }
  }

  lemma {:induction false} EachLone(env: Sizes, b: Code, k: nat, off: nat, tail: Atoms)
    requires IsLone(b)
    ensures ReachedEach(env, b, k, off, tail) == Bytes(off, Times(k, b.n), tail)
    decreases k
  {
    if k > 0 {
      var more := Bytes(off + b.n, Times(k - 1, b.n), tail);
      assert Span(env, b) == b.n && Reached(env, b, off, more) == Bytes(off, b.n, more);
      EachLone(env, b, k - 1, off + b.n, tail);
      BytesSplit(off, b.n, Times(k - 1, b.n), tail);
    }
  }

  lemma {:induction false} EachDone(env: Sizes, k: nat, off: nat, tail: Atoms)
    ensures ReachedEach(env, Done, k, off, tail) == tail && Times(k, 0) == 0
    decreases k
  {
    if k > 0 {
      EachDone(env, k - 1, off, tail);
    }
  }

  /** The bytes of the first operation, when it amounts to bytes. */
  function ItemBytes(i: Item): nat {
    if i.Copy? || i.Pad? then i.n else 0
  }

  /** What the first operation reaches, in terms of what it amounts to. */
  lemma ItemReached(env: Sizes, c: Code, off: nat, tail: Atoms)
    requires !c.Done? && !ItemOf(c).Wall? && (c.Array? ==> Alike(env, c.body, BodyOf(false, c)))
    ensures var n := ItemBytes(ItemOf(c));
            HeadSpan(env, c) == n && Reached(env, c, off, tail) == Bytes(off, n, Reached(env, c.next, off + n, tail))
  {
    if c.Array? {
      var b, k := BodyOf(false, c), c.count;
      var n := Times(k, Span(env, b));
      ShortBlock(env, b, k, off, Reached(env, c.next, off + n, tail));
      EachAlike(env, c.body, b, k, off, Reached(env, c.next, off + n, tail));
    }
  }

  lemma ShortBlock(env: Sizes, b: Code, k: nat, off: nat, tail: Atoms)
    requires b.Done? || IsLone(b)
    ensures Times(k, Span(env, b)) == if b.Done? then 0 else b.n * k
    ensures ReachedEach(env, b, k, off, tail) == Bytes(off, Times(k, Span(env, b)), tail)
  {
    ShortBlockSpan(env, k, b);
    if b.Done? {
      EachDone(env, k, off, tail);
    } else {
      EachLone(env, b, k, off, tail);
    }
  }

  /** The block that stays, then the rest. */
  lemma WallReached(env: Sizes, c: Code, off: nat, tail: Atoms)
    requires !c.Done? && ItemOf(c).Wall? && (c.Array? ==> Alike(env, c.body, BodyOf(false, c)))
    ensures Span(env, Staying(c, Done)) == HeadSpan(env, c)
    ensures Reached(env, c, off, tail) == Reached(env, Staying(c, Done), off, Reached(env, c.next, off + HeadSpan(env, c), tail))
  {
    if c.Array? {
      EachAlike(env, c.body, BodyOf(false, c), c.count, off, Reached(env, c.next, off + HeadSpan(env, c), tail));
    }
  }

  /** Where one turn takes place: what is pending starts at `off`, the operation at `start`, what it leaves pending at `mid`, the rest at `after`. */
  ghost predicate TurnAt(env: Sizes, c: Code, p: Pending, off: nat, start: nat, mid: nat, after: nat)
    requires Valid(false, p) && !c.Done?
  {
    var t := After(false, c, p);
    start == off + p.count && mid == off + Span(env, Written(p, t)) && after == mid + t.pending.count
  }

  /** What one turn writes and what it leaves pending reach what was pending and the operation. */
  ghost predicate TurnReaches(env: Sizes, c: Code, p: Pending, off: nat, start: nat, mid: nat, after: nat, tail: Atoms)
    requires Valid(false, p) && !c.Done?
  {
    var t := After(false, c, p);
    && after == start + HeadSpan(env, c)
    && Reached(env, Written(p, t), off, Bytes(mid, t.pending.count, Reached(env, c.next, after, tail)))
       == Bytes(off, p.count, Reached(env, c, start, tail))
  }

  lemma WallTurn(env: Sizes, c: Code, p: Pending, off: nat, start: nat, mid: nat, after: nat, tail: Atoms)
    requires Valid(false, p) && !c.Done? && ItemOf(c).Wall? && (c.Array? ==> Alike(env, c.body, BodyOf(false, c)))
    requires TurnAt(env, c, p, off, start, mid, after)
    ensures TurnReaches(env, c, p, off, start, mid, after, tail)
  {
    ItemTurn(c, p);
    WallReached(env, c, start, tail);
    EmitReached(env, p, Staying(c, Done), off, Reached(env, c.next, after, tail));
  }

  lemma ItemTurnReaches(env: Sizes, c: Code, p: Pending, off: nat, start: nat, mid: nat, after: nat, tail: Atoms)
    requires Valid(false, p) && !c.Done? && !ItemOf(c).Wall? && (c.Array? ==> Alike(env, c.body, BodyOf(false, c)))
    requires TurnAt(env, c, p, off, start, mid, after)
    ensures TurnReaches(env, c, p, off, start, mid, after, tail)
  {
    var t, n := After(false, c, p), ItemBytes(ItemOf(c));
    ItemTurn(c, p);
    ItemReached(env, c, start, tail);
    EmitReached(env, p, Done, off, Bytes(mid, t.pending.count, Reached(env, c.next, after, tail)));
    BytesSplit(off, p.count, n, Reached(env, c.next, start + n, tail));
  }

  lemma EmitReached(env: Sizes, p: Pending, next: Code, off: nat, tail: Atoms)
    ensures Reached(env, Emit(p, next), off, tail) == Bytes(off, p.count, Reached(env, next, off + p.count, tail))
    ensures Span(env, Emit(p, next)) == p.count + Span(env, next)
  {
  }

  lemma SpanBound(env: Sizes, edge: Edge, c: Code, p: Pending)
    requires Valid(false, p)
    ensures var n := Span(env, Simplified(false, edge, c, p)); n <= p.count + Span(env, c) && (edge.Block? ==> n == p.count + Span(env, c))
  {
    SimplifiedKeeps(env, false, edge, c, p, 0, p.count, Nil, Nil);
  }

  /** `pad` stands for the bytes that the simplified program drops, from where it stops to `end`; then `tail`. */
  ghost predicate IsRest(env: Sizes, edge: Edge, c: Code, p: Pending, off: nat, end: nat, pad: Atoms, tail: Atoms)
    requires Valid(false, p)
  {
    var stop := off + Span(env, Simplified(false, edge, c, p));
    stop <= end == off + p.count + Span(env, c) && pad == Bytes(stop, end - stop, tail)
  }

  /** A simplified program, and the bytes it dropped at its end, reach what it was given. */
  ghost predicate ReachKeeps(env: Sizes, edge: Edge, c: Code, p: Pending, off: nat, start: nat, pad: Atoms, tail: Atoms)
    requires Valid(false, p)
  {
    Reached(env, Simplified(false, edge, c, p), off, pad) == Bytes(off, p.count, Reached(env, c, start, tail))
  }

  lemma FinishReaches(env: Sizes, edge: Edge, p: Pending, off: nat, start: nat, pad: Atoms, tail: Atoms)
    requires Valid(false, p) && start == off + p.count && IsRest(env, edge, Done, p, off, start, pad, tail)
    ensures ReachKeeps(env, edge, Done, p, off, start, pad, tail)
  {
    if edge.Top? {
      BytesSplit(off, p.count - p.skip, p.skip, tail);
    }
  }

  lemma RestNext(env: Sizes, edge: Edge, c: Code, p: Pending, off: nat, mid: nat, after: nat, end: nat, pad: Atoms, tail: Atoms)
    requires Valid(false, p) && !c.Done? && TurnAt(env, c, p, off, off + p.count, mid, after) && after == off + p.count + HeadSpan(env, c)
    requires IsRest(env, edge, c, p, off, end, pad, tail)
    ensures IsRest(env, edge, c.next, After(false, c, p).pending, mid, end, pad, tail)
  {
    var t := After(false, c, p);
    SpanAppend(env, Written(p, t), Simplified(false, edge, c.next, t.pending));
  }

  lemma StepReaches(env: Sizes, edge: Edge, c: Code, p: Pending, off: nat, start: nat, mid: nat, after: nat, pad: Atoms, tail: Atoms)
    requires Valid(false, p) && !c.Done? && TurnAt(env, c, p, off, start, mid, after)
    requires TurnReaches(env, c, p, off, start, mid, after, tail) && ReachKeeps(env, edge, c.next, After(false, c, p).pending, mid, after, pad, tail)
    ensures ReachKeeps(env, edge, c, p, off, start, pad, tail)
  {
    var t := After(false, c, p);
    var w, s := Written(p, t), Simplified(false, edge, c.next, t.pending);
    ReachedAppend(env, w, s, off, mid, pad);
    assert Simplified(false, edge, c, p) == Append(w, s);
  }

  lemma {:induction false} SimplifiedReaches(env: Sizes, edge: Edge, c: Code, p: Pending, off: nat, start: nat, end: nat, pad: Atoms, tail: Atoms)
    requires Valid(false, p) && start == off + p.count && IsRest(env, edge, c, p, off, end, pad, tail)
    ensures ReachKeeps(env, edge, c, p, off, start, pad, tail)
    decreases c, 1
  {
    if c.Done? {
      FinishReaches(env, edge, p, off, start, pad, tail);
    } else {
      var t := After(false, c, p);
      var mid := off + Span(env, Written(p, t));
      var after := mid + t.pending.count;
      BodyTurn(env, c, p, off, start, mid, after, tail);
      RestNext(env, edge, c, p, off, mid, after, end, pad, tail);
      SimplifiedReaches(env, edge, c.next, t.pending, mid, after, end, pad, tail);
      StepReaches(env, edge, c, p, off, start, mid, after, pad, tail);
    }
  }

  lemma {:induction false} BodyTurn(env: Sizes, c: Code, p: Pending, off: nat, start: nat, mid: nat, after: nat, tail: Atoms)
    requires Valid(false, p) && !c.Done? && TurnAt(env, c, p, off, start, mid, after)
    ensures TurnReaches(env, c, p, off, start, mid, after, tail)
    decreases c, 0
  {
    if c.Array? {
      BodyAlike(env, c.body);
    }
    if ItemOf(c).Wall? {
      WallTurn(env, c, p, off, start, mid, after, tail);
    } else {
      ItemTurnReaches(env, c, p, off, start, mid, after, tail);
    }
  }

  lemma BlockRest(env: Sizes, c: Code, p: Pending, off: nat, end: nat, tail: Atoms)
    requires Valid(false, p) && end == off + p.count + Span(env, c)
    ensures IsRest(env, Block, c, p, off, end, tail, tail)
  {
    SpanBound(env, Block, c, p);
    assert Bytes(end, 0, tail) == tail;
  }

  lemma {:induction false} BlockReaches(env: Sizes, c: Code, p: Pending, off: nat, end: nat, tail: Atoms)
    requires Valid(false, p) && end == off + p.count + Span(env, c)
    ensures ReachKeeps(env, Block, c, p, off, off + p.count, tail, tail)
    decreases c, 2
  {
    BlockRest(env, c, p, off, end, tail);
    SimplifiedReaches(env, Block, c, p, off, off + p.count, end, tail, tail);
  }

  lemma {:induction false} BodyAlike(env: Sizes, c: Code)
    ensures Alike(env, c, Simplified(false, Block, c, Nothing))
    decreases c, 3
  {
    SpanBound(env, Block, c, Nothing);
    forall off: nat, tail: Atoms
      ensures Reached(env, c, off, tail) == Reached(env, Simplified(false, Block, c, Nothing), off, tail)
    {
      BlockReaches(env, c, Nothing, off, off + Span(env, c), tail);
    }
  }

  /** What the unmerged program reaches, then the bytes it dropped, are what the raw program reaches. */
  lemma UnmergedReaches(env: Sizes, c: Code, remove: bool)
    ensures var s, cut := Simplified(false, Top(remove), c, Nothing), Dropped(false, remove, c);
            && Span(env, s) + cut == Span(env, c)
            && Reached(env, c, 0, Nil) == Then(Reached(env, s, 0, Nil), Bytes(Span(env, s), cut, Nil))
  {
    var s, cut := Simplified(false, Top(remove), c, Nothing), Dropped(false, remove, c);
    SimplifiedSpan(env, false, remove, c);
    SimplifiedReaches(env, Top(remove), c, Nothing, 0, 0, Span(env, c), Bytes(Span(env, s), cut, Nil), Nil);
    ReachedThen(env, s, 0, Nil, Bytes(Span(env, s), cut, Nil));
  }

  function Ones(n: nat): (m: seq<Cell>)
    ensures |m| == n && forall i :: 0 <= i < n ==> m[i] == Cell.Raw(1)
  {
    seq(n, i => Cell.Raw(1))
  }

  /** Bytes only below `hi`. */
  ghost predicate BytesBelow(t: Atoms, hi: nat) {
    !t.Nil? ==> (t.Byte? ==> t.at < hi) && BytesBelow(t.rest, hi)
  }

  lemma {:induction false} FewBytesBelow(off: nat, n: nat, tail: Atoms, hi: nat)
    requires BytesBelow(tail, hi) && off + n <= hi
    ensures BytesBelow(Bytes(off, n, tail), hi)
    decreases n
  {
    if n > 0 {
      FewBytesBelow(off + 1, n - 1, tail, hi);
    }
  }

  lemma {:induction false} ReachedBelow(env: Sizes, c: Code, off: nat, tail: Atoms, hi: nat)
    requires BytesBelow(tail, hi) && off + Span(env, c) <= hi
    ensures BytesBelow(Reached(env, c, off, tail), hi)
    decreases c, 1
  {
    if !c.Done? {
      var mid := off + HeadSpan(env, c);
      ReachedBelow(env, c.next, mid, tail, hi);
      ReachedStep(env, c, off, mid, tail);
      HeadBelow(env, c, off, Reached(env, c.next, mid, tail), hi);
    }
  }

  lemma {:induction false} HeadBelow(env: Sizes, c: Code, off: nat, rest: Atoms, hi: nat)
    requires !c.Done? && BytesBelow(rest, hi) && off + HeadSpan(env, c) <= hi
    ensures BytesBelow(HeadReached(env, c, off, rest), hi)
    decreases c, 0
  {
    match c
    case Memcpy(n, _) => FewBytesBelow(off, n, rest, hi);
    case Skip(n, _) => FewBytesBelow(off, n, rest, hi);
    case Array(k, b, _) => EachBelow(env, b, k, off, rest, hi);
    case Container(_, _, _) =>
  }

  lemma {:induction false} EachBelow(env: Sizes, b: Code, k: nat, off: nat, tail: Atoms, hi: nat)
    requires BytesBelow(tail, hi) && off + Times(k, Span(env, b)) <= hi
    ensures BytesBelow(ReachedEach(env, b, k, off, tail), hi)
    decreases b, k + 2
  {
    if k > 0 {
      EachBelow(env, b, k - 1, off + Span(env, b), tail, hi);
      ReachedBelow(env, b, off, ReachedEach(env, b, k - 1, off + Span(env, b), tail), hi);
    }
  }

  lemma {:induction false} RawBeyond(t: Atoms, hi: nat, mem: seq<Cell>)
    requires BytesBelow(t, hi)
    ensures forall i :: hi <= i < |mem| && mem[i].Raw? ==> Wiped(t, mem)[i] == mem[i]
    decreases t
  {
    if !t.Nil? {
      RawBeyond(t.rest, hi, WipedAt(t, mem));
    }
  }

  /** On memory full of ones, the last byte is cleared through the raw program only, if padding was dropped. */
  lemma ZeroDiffers(env: Sizes, c: Code, remove: bool)
    requires Dropped(false, remove, c) > 0
    ensures Span(env, c) > 0
    ensures var s, mem, last := Simplified(false, Top(remove), c, Nothing), Ones(Span(env, c)), Span(env, c) - 1;
            Wiped(Reached(env, c, 0, Nil), mem)[last] == Cell.Raw(0) && Wiped(Reached(env, s, 0, Nil), mem)[last] == Cell.Raw(1)
  {
    var s, mem, cut := Simplified(false, Top(remove), c, Nothing), Ones(Span(env, c)), Dropped(false, remove, c);
    UnmergedReaches(env, c, remove);
    var reached, hi := Reached(env, s, 0, Nil), Span(env, s);
    WipedThen(reached, Bytes(hi, cut, Nil), mem);
    WipedBytes(hi, cut, Nil, Wiped(reached, mem));
    ReachedBelow(env, s, 0, Nil, hi);
    RawBeyond(reached, hi, mem);
  }

  /** The unmerged program zeroes what the raw one does, whatever the memory. */
  ghost predicate ZeroesAlike(env: Sizes, c: Code, remove: bool) {
    forall mem: seq<Cell> ::
      |mem| >= Span(env, c) ==>
        Wiped(Reached(env, Simplified(false, Top(remove), c, Nothing), 0, Nil), mem) == Wiped(Reached(env, c, 0, Nil), mem)
  }

  /** That holds if and only if no padding is dropped at the end. */
  lemma UnmergedZeroes(env: Sizes, c: Code, remove: bool)
    ensures ZeroesAlike(env, c, remove) <==> Dropped(false, remove, c) == 0
  {
    var s := Simplified(false, Top(remove), c, Nothing);
    UnmergedReaches(env, c, remove);
    if Dropped(false, remove, c) == 0 {
      ReachedThen(env, s, 0, Nil, Nil);
      assert Then(Reached(env, s, 0, Nil), Nil) == Reached(env, s, 0, Nil);
    } else {
      ZeroDiffers(env, c, remove);
      var mem := Ones(Span(env, c));
      assert Wiped(Reached(env, s, 0, Nil), mem) != Wiped(Reached(env, c, 0, Nil), mem);
    }
  }

  /** Zeroing a structure with padding at its end through the raw and the unmerged layout leaves different padding. */
  lemma PaddingDiffers(env: Sizes, m: nat, n: nat, pad: nat, remove: bool)
    requires pad > 0
    ensures Ordered(Pair(m, n, pad)) && !ZeroesAlike(env, Types.Raw(Pair(m, n, pad)), remove)
  {
    PairRaw(m, n, pad);
    PairDropped(m, n, pad, false, remove);
    UnmergedZeroes(env, Types.Raw(Pair(m, n, pad)), remove);
  }
}
