/**
 How many bytes a simplified program advances over, and when a program that was simplified without merging
 still has two copies side by side.
 */
module Leftovers {
  import opened Bytecode
  import opened Tracing
  import opened Simplification
  import opened Types

  // ----- what an operation amounts to -----

  /** What the first operation of a program amounts to: bytes copied, padding, nothing, or a block that stays. */
  datatype Item = Copy(n: nat) | Pad(n: nat) | Gone | Wall

  function ItemOf(c: Code): Item
    requires !c.Done?
  {
    match c
    case Memcpy(n, _) => Copy(n)
    case Skip(n, _) => Pad(n)
    case Container(_, _, _) => Wall
    case Array(k, _, _) =>
      var b := BodyOf(false, c);
      if b.Done? then Gone else if !IsLone(b) then Wall else if b.Memcpy? then Copy(b.n * k) else Pad(b.n * k)
  }

  /** The block that stays, in front of `next`. */
  function Staying(c: Code, next: Code): Code
    requires HasBody(c)
  {
    if c.Array? then Array(c.count, BodyOf(false, c), next) else Container(c.handle, BodyOf(false, c), next)
  }

  /** How one turn without merging treats it. */
  lemma ItemTurn(c: Code, p: Pending)
    requires Valid(false, p) && !c.Done?
    ensures var t, i := After(false, c, p), ItemOf(c);
            var q := t.pending;
            match i
            case Copy(n) =>
              && t.keep.Done? && q == Pending(MEMCPY, n + (if p.op == MEMCPY then p.count else 0), 0)
              && (t.flush ==> p.op == SKIP || p.count == 0) && (p.op == SKIP ==> t.flush)
            case Pad(n) =>
              && t.keep.Done? && q.op == SKIP && q.count == n + (if p.op == SKIP then p.count else 0)
              && (t.flush ==> p.op == MEMCPY || p.count == 0) && (p.op == MEMCPY ==> t.flush)
            case Gone => !t.flush && q == Pending(p.op, p.count, 0)
            case Wall => t.flush && q == Pending(p.op, 0, 0) && HasBody(c) && t.keep == Staying(c, Done)
  {
  }

  // ----- the bytes dropped at the end -----

  /**
   Bytes of padding after the last thing that is not padding, `n` of them already seen. Arrays whose block is
   padding count as padding here, and arrays whose block vanishes are not there at all.
   */
  function PadEnd(c: Code, n: nat): nat {
    if c.Done? then n
    else
      var i := ItemOf(c);
      PadEnd(c.next, if i.Pad? then n + i.n else if i.Gone? then n else 0)
  }

  /** What a whole program loses. Only without merging does the flag make a difference, and only to arrays of padding. */
  function Dropped(merge: bool, remove: bool, c: Code): nat {
    if merge || !remove then Trail(c, 0) else PadEnd(c, 0)
  }

  /** The padding that is pending. */
  function PadOf(p: Pending): nat {
    if p.op == SKIP then p.count else 0
  }

  /** How much of a pending operation is dropped when nothing follows it. */
  ghost predicate Lost(env: Sizes, merge: bool, remove: bool, c: Code, p: Pending)
    requires Valid(merge, p)
  {
    Span(env, Simplified(merge, Top(remove), c, p)) + (if merge || !remove then Trail(c, p.skip) else PadEnd(c, PadOf(p)))
    == p.count + Span(env, c)
  }

  lemma {:induction false} SpanLost(env: Sizes, merge: bool, remove: bool, c: Code, p: Pending)
    requires Valid(merge, p)
    ensures Lost(env, merge, remove, c, p)
    decreases c
  {
    if !c.Done? {
      var t := After(merge, c, p);
      BodyTrace(env, merge, c, p, 0, Nil);
      SpanLost(env, merge, remove, c.next, t.pending);
      SpanAppend(env, Written(p, t), Simplified(merge, Top(remove), c.next, t.pending));
      TrailNext(merge, c, p);
      if !merge {
        PadNext(c, p);
      }
    }
  }

  lemma TrailNext(merge: bool, c: Code, p: Pending)
    requires Valid(merge, p) && !c.Done?
    ensures Trail(c, p.skip) == Trail(c.next, After(merge, c, p).pending.skip)
  {
    TakeSkip(merge, c, BodyOf(merge, c), p);
  }

  lemma TakeSkip(merge: bool, c: Code, b: Code, p: Pending)
    requires Valid(merge, p) && !c.Done? && (merge ==> !b.Skip?)
    ensures Take(merge, c, b, p).pending.skip == if c.Skip? then p.skip + c.n else 0
  {
  }

  lemma PadNext(c: Code, p: Pending)
    requires Valid(false, p) && !c.Done?
    ensures PadEnd(c, PadOf(p)) == PadEnd(c.next, PadOf(After(false, c, p).pending))
  {
    ItemTurn(c, p);
  }

  /** `simplify` drops exactly the padding at the end, and so keeps the span if and only if there is none. */
  lemma SimplifiedSpan(env: Sizes, merge: bool, remove: bool, c: Code)
    ensures var s := Simplified(merge, Top(remove), c, Nothing);
            && Span(env, s) + Dropped(merge, remove, c) == Span(env, c)
            && (Span(env, s) == Span(env, c) <==> Dropped(merge, remove, c) == 0)
  {
    SpanLost(env, merge, remove, c, Nothing);
  }

  /** The layout of a type is as long as the type, but for the padding at its end. */
  lemma LayoutSpan(env: Sizes, t: Type, merge: bool, remove: bool)
    requires Ordered(t) && Described(env, t)
    ensures Span(env, LayoutOf(t, merge, remove)) + Dropped(merge, remove, Types.Raw(t)) == Size(t)
  {
    SimplifiedSpan(env, merge, remove, Types.Raw(t));
    RawIsExact(env, t, 0, Nil);
  }

  /** Four bytes, then two structures without fields. */
  function PaddedArray(): Code {
    Memcpy(4, Array(2, Skip(1, Done), Done))
  }

  /** An array of padding at the end stays or goes as the flag says; plain padding always goes. */
  lemma FlagMatters(remove: bool)
    ensures Dropped(false, remove, PaddedArray()) == if remove then 2 else 0
    ensures Dropped(false, remove, Memcpy(4, Skip(3, Done))) == 3
  {
    var last := Array(2, Skip(1, Done), Done);
    assert BodyOf(false, last) == Skip(1, Done);
    assert ItemOf(last) == Pad(2);
    assert PadEnd(last, 0) == PadEnd(Done, 2);
    assert Trail(last, 0) == 0;
  }

  // ----- copies side by side -----

  /** No two copies follow each other, at any depth. */
  predicate Apart(c: Code) {
    match c
    case Done => true
    case Memcpy(_, next) => !next.Memcpy? && Apart(next)
    case Skip(_, next) => Apart(next)
    case Array(_, b, next) => Apart(b) && Apart(next)
    case Container(_, b, next) => Apart(b) && Apart(next)
  }

  /** What lies directly in front: no copied byte, copied bytes, or copied bytes and then padding of length 0. */
  datatype Front = Clear | Copying | Paused

  function Past(f: Front, i: Item): Front {
    match i
    case Copy(n) => if n > 0 then Copying else f
    case Pad(n) => if n > 0 then Clear else if f.Copying? then Paused else f
    case Gone => f
    case Wall => Clear
  }

  /**
   Somewhere, at this level or in a block that stays, two non-empty copies have padding of total length 0
   between them, and at least one operation for it.
   */
  predicate Touches(c: Code, f: Front)
    decreases c
  {
    !c.Done? && (
      var i := ItemOf(c);
      || (f.Paused? && i.Copy? && i.n > 0)
      || (i.Wall? && HasBody(c) && Touches(c.body, Clear))
      || Touches(c.next, Past(f, i)))
  }

  /** What lies in front when `p` is pending; `led` if the last operation written is a copy. */
  function FrontOf(p: Pending, led: bool): Front {
    if p.count > 0 then (if p.op == MEMCPY then Copying else Clear) else if led then Paused else Clear
  }

  function LedAfter(p: Pending, t: Turn, led: bool): bool {
    if !t.flush then led else if !t.keep.Done? then false else if p.count > 0 then p.op == MEMCPY else led
  }

  /** Nothing in `s` touches, nor its start what is in front. */
  predicate ApartFrom(led: bool, s: Code) {
    Apart(s) && !(led && s.Memcpy?)
  }

  lemma {:induction false} StartsCopying(edge: Edge, c: Code, p: Pending)
    requires Valid(false, p) && p.op == MEMCPY && p.count > 0
    ensures Simplified(false, edge, c, p).Memcpy?
    decreases c
  {
    if !c.Done? {
      var t := After(false, c, p);
      if !t.flush {
        StartsCopying(edge, c.next, t.pending);
      }
    }
  }

  /** Where one turn leaves off. */
  lemma FrontNext(c: Code, p: Pending, led: bool)
    requires Valid(false, p) && !c.Done? && !(led && p.op == MEMCPY && p.count > 0)
    ensures var t := After(false, c, p);
            var led' := LedAfter(p, t, led);
            if FrontOf(p, led).Paused? && ItemOf(c).Copy? && ItemOf(c).n > 0 then
              led' && t.pending.op == MEMCPY && t.pending.count > 0
            else
              && !(led' && t.pending.op == MEMCPY && t.pending.count > 0)
              && FrontOf(t.pending, led') == Past(FrontOf(p, led), ItemOf(c))
  {
    ItemTurn(c, p);
  }

  lemma GlueApart(c: Code, p: Pending, led: bool, s: Code)
    requires Valid(false, p) && !c.Done? && !(led && p.op == MEMCPY && p.count > 0)
    ensures var t := After(false, c, p);
            ApartFrom(led, Append(Written(p, t), s)) <==>
              (ItemOf(c).Wall? ==> Apart(BodyOf(false, c))) && ApartFrom(LedAfter(p, t, led), s)
  {
    var t := After(false, c, p);
    ItemTurn(c, p);
    assert Append(Done, s) == s;
    if ItemOf(c).Wall? {
      assert Append(t.keep, s) == Staying(c, s);
      assert Apart(Staying(c, s)) <==> Apart(BodyOf(false, c)) && Apart(s);
    }
  }

  lemma {:induction false} TouchesExactly(edge: Edge, c: Code, p: Pending, led: bool)
    requires Valid(false, p) && !(led && p.op == MEMCPY && p.count > 0)
    ensures ApartFrom(led, Simplified(false, edge, c, p)) <==> !Touches(c, FrontOf(p, led))
    decreases c
  {
    if !c.Done? {
      var t := After(false, c, p);
      var led' := LedAfter(p, t, led);
      var s := Simplified(false, edge, c.next, t.pending);
      assert Simplified(false, edge, c, p) == Append(Written(p, t), s);
      FrontNext(c, p, led);
      GlueApart(c, p, led, s);
      if HasBody(c) {
        TouchesExactly(Block, c.body, Nothing, false);
      }
      var f, i := FrontOf(p, led), ItemOf(c);
      if f.Paused? && i.Copy? && i.n > 0 {
        StartsCopying(edge, c.next, t.pending);
        assert Touches(c, f);
      } else {
        TouchesExactly(edge, c.next, t.pending, led');
        assert Touches(c, f) <==> (i.Wall? && HasBody(c) && Touches(c.body, Clear)) || Touches(c.next, Past(f, i));
      }
    } else {
      assert ApartFrom(led, Finish(edge, p));
    }
  }

  /** Without merging, copies are left side by side if and only if padding of length 0 was between them. */
  lemma UnmergedApart(c: Code, remove: bool)
    ensures Apart(Simplified(false, Top(remove), c, Nothing)) <==> !Touches(c, Clear)
  {
    TouchesExactly(Top(remove), c, Nothing, false);
  }

  /** A structure of two numbers of `m` and `n` bytes, with `pad` bytes behind them. */
  function Pair(m: nat, n: nat, pad: nat): Type {
    CompoundType(FieldAt("first", 0, NumericType(m), FieldAt("second", m, NumericType(n), NoMore)), m + n + pad)
  }

  /** An empty skip, a copy of `n` bytes, then `rest`. */
  function Field(n: nat, rest: Code): Code {
    Skip(0, Memcpy(n, rest))
  }

  lemma PairRaw(m: nat, n: nat, pad: nat)
    ensures Ordered(Pair(m, n, pad)) && Types.Raw(Pair(m, n, pad)) == Field(m, Field(n, Skip(pad, Done)))
  {
    var fs, size := Pair(m, n, pad).fields, m + n + pad;
    assert OrderedFields(fs.rest.rest, m + n, size) && OrderedFields(fs.rest, m, size);
    assert RawFields(fs.rest.rest, m + n, size) == Skip(pad, Done);
    assert Append(Memcpy(n, Done), Skip(pad, Done)) == Memcpy(n, Skip(pad, Done));
    assert RawFields(fs.rest, m, size) == Field(n, Skip(pad, Done));
    assert Append(Memcpy(m, Done), Field(n, Skip(pad, Done))) == Memcpy(m, Field(n, Skip(pad, Done)));
    assert RawFields(fs, 0, size) == Skip(0, Append(Memcpy(m, Done), RawFields(fs.rest, m, size)));
  }

  /** Its padding goes with either flag. */
  lemma PairDropped(m: nat, n: nat, pad: nat, merge: bool, remove: bool)
    ensures Dropped(merge, remove, Field(m, Field(n, Skip(pad, Done)))) == pad
  {
    var c := Skip(pad, Done);
    assert Trail(Done, pad) == pad && PadEnd(Done, pad) == pad;
    assert Trail(c, 0) == pad && PadEnd(c, 0) == pad;
    assert Trail(Memcpy(n, c), 0) == pad && PadEnd(Memcpy(n, c), 0) == pad;
    assert Trail(Field(n, c), 0) == pad && PadEnd(Field(n, c), 0) == pad;
    assert Trail(Memcpy(m, Field(n, c)), 0) == pad && PadEnd(Memcpy(m, Field(n, c)), 0) == pad;
  }

  lemma FieldSimplified(edge: Edge, m: nat, n: nat, rest: Code)
    ensures Simplified(false, edge, Field(n, rest), Pending(MEMCPY, m, 0))
            == Emit(Pending(MEMCPY, m, 0), Simplified(false, edge, rest, Pending(MEMCPY, n, 0)))
  {
    var p, q, c := Pending(MEMCPY, m, 0), Pending(SKIP, 0, 0), Memcpy(n, rest);
    assert After(false, Skip(0, c), p) == Turn(true, Done, q);
    assert After(false, c, q) == Turn(true, Done, Pending(MEMCPY, n, 0));
    var s := Simplified(false, edge, rest, Pending(MEMCPY, n, 0));
    assert Simplified(false, edge, c, q) == Append(Done, s) == s;
    assert Append(Emit(p, Done), s) == Emit(p, s);
  }

  lemma LastSimplified(remove: bool, n: nat)
    requires n > 0
    ensures Simplified(false, Top(remove), Skip(0, Done), Pending(MEMCPY, n, 0)) == Memcpy(n, Done)
  {
    var c, p := Skip(0, Done), Pending(MEMCPY, n, 0);
    assert After(false, c, p) == Turn(true, Done, Pending(SKIP, 0, 0));
    assert Append(Memcpy(n, Done), Done) == Memcpy(n, Done);
  }

  /** Its two copies are left side by side, although nothing is between them. */
  lemma PairTouches(m: nat, n: nat, remove: bool)
    requires m > 0 && n > 0
    ensures Ordered(Pair(m, n, 0)) && LayoutOf(Pair(m, n, 0), false, remove) == Memcpy(m, Memcpy(n, Done))
    ensures Touches(Types.Raw(Pair(m, n, 0)), Clear)
  {
    PairRaw(m, n, 0);
    FieldSimplified(Top(remove), 0, m, Field(n, Skip(0, Done)));
    FieldSimplified(Top(remove), m, n, Skip(0, Done));
    LastSimplified(remove, n);
    UnmergedApart(Types.Raw(Pair(m, n, 0)), remove);
  }
}
