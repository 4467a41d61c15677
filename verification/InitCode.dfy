/**
 The initialisation program of a layout and its optimiser.

 An initialisation program writes constant bytes, puts empty containers in place and
 steps over everything else. Its meaning is the sequence of writes it makes, and
 `simplifyInit` keeps that sequence.
 */
module InitCode {
  import opened Tracing
  import opened Layouts
  import opened Seqs
  import B = Bytecode

  datatype Init =
    | Stop
    | Data(bytes: seq<nat>, next: Init)
    | Pass(n: nat, next: Init)
    | Repeat(count: nat, body: Init, next: Init)
    | Empty(handle: nat, next: Init)

  function InitWords(c: Init): (w: seq<nat>)
    ensures |w| == InitLen(c)
  {
    match c
    case Stop => []
    case Data(d, next) => [INIT, |d|] + d + InitWords(next)
    case Pass(n, next) => [INIT_SKIP, n] + InitWords(next)
    case Repeat(k, b, next) => [INIT_REPEAT, k] + InitWords(b) + [INIT_END] + InitWords(next)
    case Empty(h, next) => [INIT_CONTAINER, h] + InitWords(next)
  }

  function InitLen(c: Init): nat {
    match c
    case Stop => 0
    case Data(d, next) => 2 + |d| + InitLen(next)
    case Pass(_, next) => 2 + InitLen(next)
    case Repeat(_, b, next) => 3 + InitLen(b) + InitLen(next)
    case Empty(_, next) => 2 + InitLen(next)
  }

  function Join(a: Init, b: Init): Init {
    if a.Stop? then b else a.(next := Join(a.next, b))
  }

  /** The words of the first operation. */
  function HeadWords(c: Init): (w: seq<nat>)
    requires !c.Stop?
    ensures |w| == HeadLen(c) && InitWords(c) == w + InitWords(c.next)
  {
    match c
    case Data(d, _) => [INIT, |d|] + d
    case Pass(n, _) => [INIT_SKIP, n]
    case Repeat(k, b, _) => [INIT_REPEAT, k] + InitWords(b) + [INIT_END]
    case Empty(h, _) => [INIT_CONTAINER, h]
  }

  function HeadLen(c: Init): (n: nat)
    requires !c.Stop?
    ensures n >= 2 && InitLen(c) == n + InitLen(c.next)
  {
    match c
    case Data(d, _) => 2 + |d|
    case Pass(_, _) => 2
    case Repeat(_, b, _) => 3 + InitLen(b)
    case Empty(_, _) => 2
  }

  lemma {:induction false} WordsJoin(a: Init, b: Init)
    ensures InitWords(Join(a, b)) == InitWords(a) + InitWords(b)
  {
    if a.Stop? {
      assert [] + InitWords(b) == InitWords(b);
    } else {
      WordsJoin(a.next, b);
      assert HeadWords(Join(a, b)) == HeadWords(a);
      Regroup(HeadWords(a), InitWords(a.next), InitWords(b));
    }
  }

  /** The words from `i` on spell `c`, followed by END or the end of the vector. */
  ghost predicate ReadsInit(w: seq<nat>, i: nat, c: Init)
    decreases c
  {
    match c
    case Stop => i <= |w| && (i < |w| ==> w[i] == INIT_END)
    case Data(d, next) =>
      && i + 2 + |d| <= |w| && w[i] == INIT && w[i + 1] == |d|
      && (forall j :: 0 <= j < |d| ==> w[i + 2 + j] == d[j])
      && ReadsInit(w, i + 2 + |d|, next)
    case Pass(n, next) => i + 2 <= |w| && w[i] == INIT_SKIP && w[i + 1] == n && ReadsInit(w, i + 2, next)
    case Repeat(k, b, next) =>
      && i + 2 <= |w| && w[i] == INIT_REPEAT && w[i + 1] == k
      && ReadsInit(w, i + 2, b) && i + 2 + InitLen(b) < |w| && ReadsInit(w, i + 3 + InitLen(b), next)
    case Empty(h, next) => i + 2 <= |w| && w[i] == INIT_CONTAINER && w[i + 1] == h && ReadsInit(w, i + 2, next)
  }

  lemma ReadsInitNext(w: seq<nat>, i: nat, c: Init)
    requires ReadsInit(w, i, c) && !c.Stop?
    ensures i + HeadLen(c) <= |w| && w[i] != INIT_END
    ensures ReadsInit(w, i + HeadLen(c), c.next)
  {
  }

  lemma {:induction false} ReadsInitStops(w: seq<nat>, i: nat, c: Init)
    requires ReadsInit(w, i, c)
    ensures i + InitLen(c) <= |w|
    ensures i + InitLen(c) < |w| ==> w[i + InitLen(c)] == INIT_END
    decreases c
  {
    if !c.Stop? {
      ReadsInitNext(w, i, c);
      ReadsInitStops(w, i + HeadLen(c), c.next);
    }
  }

  lemma HoldsData(w: seq<nat>, i: nat, d: seq<nat>, rest: seq<nat>)
    requires B.Holds(w, i, [INIT, |d|] + d + rest)
    ensures i + 2 + |d| <= |w| && w[i] == INIT && w[i + 1] == |d| && B.Holds(w, i + 2 + |d|, rest)
    ensures forall j :: 0 <= j < |d| ==> w[i + 2 + j] == d[j]
  {
    B.HoldsSplit(w, i, [INIT, |d|] + d, rest);
    B.HoldsPair(w, i, INIT, |d|, d);
  }

  /** A program is read back wherever its words are written. */
  lemma {:induction false} ReadsInitWords(w: seq<nat>, i: nat, c: Init)
    requires B.Holds(w, i, InitWords(c)) && (i + InitLen(c) < |w| ==> w[i + InitLen(c)] == INIT_END)
    ensures ReadsInit(w, i, c)
    decreases c, 1
  {
    match c
    case Stop =>
    case Data(d, next) =>
      HoldsData(w, i, d, InitWords(next));
      ReadsInitWords(w, i + 2 + |d|, next);
    case Pass(n, next) =>
      B.HoldsPair(w, i, INIT_SKIP, n, InitWords(next));
      ReadsInitWords(w, i + 2, next);
    case Repeat(_, _, _) =>
      ReadsRepeatWords(w, i, c);
    case Empty(h, next) =>
      B.HoldsPair(w, i, INIT_CONTAINER, h, InitWords(next));
      ReadsInitWords(w, i + 2, next);
  }

  lemma {:induction false} ReadsRepeatWords(w: seq<nat>, i: nat, c: Init)
    requires c.Repeat? && B.Holds(w, i, InitWords(c)) && (i + InitLen(c) < |w| ==> w[i + InitLen(c)] == INIT_END)
    ensures ReadsInit(w, i, c)
    decreases c, 0
  {
    B.HoldsNested(w, i, INIT_REPEAT, c.count, InitWords(c.body), InitWords(c.next));
    ReadsInitWords(w, i + 2, c.body);
    ReadsInitWords(w, i + 3 + InitLen(c.body), c.next);
  }

  // ----- meaning -----

  /** Writes to memory, in order: a constant byte, or an empty container object. */
  datatype Writes =
    | NoWrite
    | Set(at: nat, value: nat, rest: Writes)
    | Clear(at: nat, handle: nat, rest: Writes)

  function InitSpan(env: Sizes, c: Init): nat {
    match c
    case Stop => 0
    case Data(d, next) => |d| + InitSpan(env, next)
    case Pass(n, next) => n + InitSpan(env, next)
    case Repeat(k, b, next) => Times(k, InitSpan(env, b)) + InitSpan(env, next)
    case Empty(h, next) => SizeOf(env, h) + InitSpan(env, next)
  }

  function Sets(off: nat, d: seq<nat>, tail: Writes): Writes
    decreases |d|
  {
    if d == [] then tail else Set(off, d[0], Sets(off + 1, d[1..], tail))
  }

  /** The writes of `c` run from address `off`, followed by `tail`. */
  function Effect(env: Sizes, c: Init, off: nat, tail: Writes): Writes
    decreases c, 0
  {
    match c
    case Stop => tail
    case Data(d, next) => Sets(off, d, Effect(env, next, off + |d|, tail))
    case Pass(n, next) => Effect(env, next, off + n, tail)
    case Repeat(k, b, next) => EffectEach(env, b, k, off, Effect(env, next, off + Times(k, InitSpan(env, b)), tail))
    case Empty(h, next) => Clear(off, h, Effect(env, next, off + SizeOf(env, h), tail))
  }

  function EffectEach(env: Sizes, b: Init, k: nat, off: nat, tail: Writes): Writes
    decreases b, k + 1
  {
    if k == 0 then tail else Effect(env, b, off, EffectEach(env, b, k - 1, off + InitSpan(env, b), tail))
  }

  lemma {:induction false} SetsSplit(off: nat, d: seq<nat>, e: seq<nat>, tail: Writes)
    ensures Sets(off, d + e, tail) == Sets(off, d, Sets(off + |d|, e, tail))
    decreases |d|
  {
    if d == [] {
      assert d + e == e;
    } else {
      assert (d + e)[1..] == d[1..] + e;
      SetsSplit(off + 1, d[1..], e, tail);
    }
  }

  lemma {:induction false} SpanJoin(env: Sizes, a: Init, b: Init)
    ensures InitSpan(env, Join(a, b)) == InitSpan(env, a) + InitSpan(env, b)
  {
    if !a.Stop? {
      SpanJoin(env, a.next, b);
    }
  }

  function HeadSpan(env: Sizes, c: Init): (n: nat)
    requires !c.Stop?
    ensures InitSpan(env, c) == n + InitSpan(env, c.next)
  {
    match c
    case Data(d, _) => |d|
    case Pass(n, _) => n
    case Repeat(k, b, _) => Times(k, InitSpan(env, b))
    case Empty(h, _) => SizeOf(env, h)
  }

  /** The writes of the first operation, in front of others. */
  function HeadEffect(env: Sizes, c: Init, off: nat, rest: Writes): Writes
    requires !c.Stop?
  {
    match c
    case Data(d, _) => Sets(off, d, rest)
    case Pass(_, _) => rest
    case Repeat(k, b, _) => EffectEach(env, b, k, off, rest)
    case Empty(h, _) => Clear(off, h, rest)
  }

  lemma EffectHead(env: Sizes, c: Init, off: nat, next: nat, tail: Writes)
    requires !c.Stop? && next == off + HeadSpan(env, c)
    ensures Effect(env, c, off, tail) == HeadEffect(env, c, off, Effect(env, c.next, next, tail))
  {
  }

  lemma {:induction false} EffectJoin(env: Sizes, a: Init, b: Init, off: nat, mid: nat, tail: Writes)
    requires mid == off + InitSpan(env, a)
    ensures Effect(env, Join(a, b), off, tail) == Effect(env, a, off, Effect(env, b, mid, tail))
    decreases a
  {
    if !a.Stop? {
      var next := off + HeadSpan(env, a);
      EffectJoin(env, a.next, b, next, mid, tail);
      assert HeadSpan(env, Join(a, b)) == HeadSpan(env, a);
      EffectHead(env, Join(a, b), off, next, tail);
      EffectHead(env, a, off, next, Effect(env, b, mid, tail));
    }
  }

  // ----- the optimiser -----

  /** Bytes stepped over and not yet written, or data not yet written; never both. */
  datatype Pending = Pending(skip: nat, data: seq<nat>)

  const Nothing := Pending(0, [])

  predicate Valid(p: Pending) {
    p.skip == 0 || p.data == []
  }

  function PassOver(n: nat, next: Init): Init {
    if n == 0 then next else Pass(n, next)
  }

  function PutData(d: seq<nat>, next: Init): Init {
    if d == [] then next else Data(d, next)
  }

  /** A block that only steps over bytes. */
  predicate IsLonePass(c: Init) {
    c.Pass? && c.next.Stop?
  }

  datatype Turn = Turn(written: Init, pending: Pending)

  /** One turn of the loop on the first operation of `c`, whose block, if any, simplifies to `b`. */
  function Take(c: Init, b: Init, p: Pending): (t: Turn)
    requires !c.Stop? && Valid(p)
    ensures Valid(t.pending)
  {
    match c
    case Data(d, _) => Turn(PassOver(p.skip, Stop), Pending(0, p.data + d))
    case Pass(n, _) => Turn(PutData(p.data, Stop), Pending(p.skip + n, []))
    case Empty(h, _) => Turn(PutData(p.data, PassOver(p.skip, Empty(h, Stop))), Nothing)
    case Repeat(k, _, _) =>
      if b.Stop? then Turn(PutData(p.data, Stop), Pending(p.skip, []))
      else if IsLonePass(b) then Turn(PutData(p.data, Stop), Pending(p.skip + b.n * k, []))
      else Turn(PutData(p.data, PassOver(p.skip, Repeat(k, b, Stop))), Nothing)
  }

  /** `top` is the whole program, whose last bytes stepped over are not written. */
  function Simplified(top: bool, c: Init, p: Pending): Init
    requires Valid(p)
    decreases c
  {
    if c.Stop? then PassOver(if top then 0 else p.skip, PutData(p.data, Stop))
    else
      var b := if c.Repeat? then Simplified(false, c.body, Nothing) else Stop;
      var t := Take(c, b, p);
      Join(t.written, Simplified(top, c.next, t.pending))
  }

  function BodyOf(c: Init): Init {
    if c.Repeat? then Simplified(false, c.body, Nothing) else Stop
  }

  function After(c: Init, p: Pending): (t: Turn)
    requires !c.Stop? && Valid(p)
    ensures Valid(t.pending)
  {
    Take(c, BodyOf(c), p)
  }

  /** `b` may stand for `a`. */
  ghost predicate Equivalent(env: Sizes, a: Init, b: Init) {
    && InitSpan(env, a) == InitSpan(env, b)
    && forall off: nat, tail: Writes :: Effect(env, a, off, tail) == Effect(env, b, off, tail)
  }

  lemma {:induction false} EachEquivalent(env: Sizes, a: Init, b: Init, k: nat, off: nat, tail: Writes)
    requires Equivalent(env, a, b)
    ensures EffectEach(env, a, k, off, tail) == EffectEach(env, b, k, off, tail)
    decreases k
  {
    if k > 0 {
      EachEquivalent(env, a, b, k - 1, off + InitSpan(env, a), tail);
    }
  }

  lemma {:induction false} EachPasses(env: Sizes, b: Init, k: nat, off: nat, tail: Writes)
    requires b.Stop? || IsLonePass(b)
    ensures EffectEach(env, b, k, off, tail) == tail
    decreases k
  {
    if k > 0 {
      EachPasses(env, b, k - 1, off + InitSpan(env, b), tail);
      assert Effect(env, b, off, tail) == tail;
    }
  }

  /** What a repetition amounts to, given an equivalent of its block. */
  lemma RepeatHead(env: Sizes, c: Init, b: Init, off: nat, rest: Writes)
    requires c.Repeat? && Equivalent(env, c.body, b)
    ensures HeadSpan(env, c) == Times(c.count, InitSpan(env, b))
    ensures HeadEffect(env, c, off, rest) == EffectEach(env, b, c.count, off, rest)
    ensures b.Stop? ==> HeadSpan(env, c) == 0 && HeadEffect(env, c, off, rest) == rest
    ensures IsLonePass(b) ==> HeadSpan(env, c) == b.n * c.count && HeadEffect(env, c, off, rest) == rest
  {
    EachEquivalent(env, c.body, b, c.count, off, rest);
    TimesIsProduct(c.count, InitSpan(env, b));
    if b.Stop? || IsLonePass(b) {
      assert b.Pass? ==> InitSpan(env, b) == b.n;
      EachPasses(env, b, c.count, off, rest);
    }
  }

  // What is pending, from the point of view of memory.
  function Extent(p: Pending): nat {
    p.skip + |p.data|
  }

  function Held(p: Pending, off: nat, rest: Writes): Writes {
    Sets(off + p.skip, p.data, rest)
  }

  lemma PutDataEffect(env: Sizes, d: seq<nat>, next: Init, off: nat, tail: Writes)
    ensures InitSpan(env, PutData(d, next)) == |d| + InitSpan(env, next)
    ensures Effect(env, PutData(d, next), off, tail) == Sets(off, d, Effect(env, next, off + |d|, tail))
  {
  }

  lemma PassOverEffect(env: Sizes, n: nat, next: Init, off: nat, tail: Writes)
    ensures InitSpan(env, PassOver(n, next)) == n + InitSpan(env, next)
    ensures Effect(env, PassOver(n, next), off, tail) == Effect(env, next, off + n, tail)
  {
  }

  /** What is pending starts at `off`, the first operation at `start`; what is pending afterwards at `mid`, the next operation at `after`. */
  datatype Place = Place(off: nat, start: nat, mid: nat, after: nat)

  ghost predicate Placed(env: Sizes, c: Init, p: Pending, t: Turn, at: Place)
    requires !c.Stop?
  {
    && at.start == at.off + Extent(p)
    && at.after == at.start + HeadSpan(env, c)
    && at.mid == at.off + InitSpan(env, t.written)
    && at.after == at.mid + Extent(t.pending)
  }

  /** What the turn writes, then what it leaves pending, is what was pending and the first operation. */
  ghost predicate Accounts(env: Sizes, c: Init, p: Pending, t: Turn, at: Place, rest: Writes)
    requires !c.Stop?
  {
    && Placed(env, c, p, t, at)
    && Held(p, at.off, HeadEffect(env, c, at.start, rest)) == Effect(env, t.written, at.off, Held(t.pending, at.mid, rest))
  }

  function PlaceOf(env: Sizes, p: Pending, t: Turn, off: nat): Place {
    var mid := off + InitSpan(env, t.written);
    Place(off, off + Extent(p), mid, mid + Extent(t.pending))
  }

  lemma TakeData(env: Sizes, c: Init, p: Pending, off: nat, rest: Writes)
    requires c.Data? && Valid(p)
    ensures var t := Take(c, Stop, p); Accounts(env, c, p, t, PlaceOf(env, p, t, off), rest)
  {
    var t := Take(c, Stop, p);
    PassOverEffect(env, p.skip, Stop, off, Held(t.pending, off + p.skip, rest));
    SetsSplit(off + p.skip, p.data, c.bytes, rest);
  }

  /** A turn that writes no more than the pending data, because the first operation only steps over `n` bytes. */
  lemma PassAccounts(env: Sizes, c: Init, n: nat, p: Pending, t: Turn, off: nat, rest: Writes)
    requires !c.Stop? && Valid(p) && t == Turn(PutData(p.data, Stop), Pending(p.skip + n, []))
    requires HeadSpan(env, c) == n && HeadEffect(env, c, off + Extent(p), rest) == rest
    ensures Accounts(env, c, p, t, PlaceOf(env, p, t, off), rest)
  {
    PutDataEffect(env, p.data, Stop, off, rest);
  }

  /** A turn that writes everything pending and then one operation that stands for the first one. */
  lemma KeepAccounts(env: Sizes, c: Init, keep: Init, p: Pending, t: Turn, off: nat, rest: Writes)
    requires !c.Stop? && Valid(p) && !keep.Stop? && keep.next.Stop?
    requires t == Turn(PutData(p.data, PassOver(p.skip, keep)), Nothing)
    requires InitSpan(env, keep) == HeadSpan(env, c)
    requires Effect(env, keep, off + Extent(p), rest) == HeadEffect(env, c, off + Extent(p), rest)
    ensures Accounts(env, c, p, t, PlaceOf(env, p, t, off), rest)
  {
    PutDataEffect(env, p.data, PassOver(p.skip, keep), off, rest);
    PassOverEffect(env, p.skip, keep, off + |p.data|, rest);
    HeldPlain(p, off, Effect(env, keep, off + Extent(p), rest));
  }

  lemma HeldPlain(p: Pending, off: nat, rest: Writes)
    requires Valid(p)
    ensures Held(p, off, rest) == Sets(off, p.data, rest)
  {
  }

  lemma TakeRepeat(env: Sizes, c: Init, b: Init, p: Pending, off: nat, rest: Writes)
    requires c.Repeat? && Valid(p) && Equivalent(env, c.body, b)
    ensures var t := Take(c, b, p); Accounts(env, c, p, t, PlaceOf(env, p, t, off), rest)
  {
    var t, start := Take(c, b, p), off + Extent(p);
    RepeatHead(env, c, b, start, rest);
    if b.Stop? {
      PassAccounts(env, c, 0, p, t, off, rest);
    } else if IsLonePass(b) {
      PassAccounts(env, c, b.n * c.count, p, t, off, rest);
    } else {
      var keep := Repeat(c.count, b, Stop);
      EffectHead(env, keep, start, start + HeadSpan(env, keep), rest);
      KeepAccounts(env, c, keep, p, t, off, rest);
    }
  }

  lemma TakeAccounts(env: Sizes, c: Init, b: Init, p: Pending, off: nat, rest: Writes)
    requires !c.Stop? && Valid(p) && (c.Repeat? ==> Equivalent(env, c.body, b))
    ensures var t := Take(c, b, p); Accounts(env, c, p, t, PlaceOf(env, p, t, off), rest)
  {
    match c
    case Data(_, _) => TakeData(env, c, p, off, rest);
    case Pass(n, _) => PassAccounts(env, c, n, p, Take(c, b, p), off, rest);
    case Empty(h, _) => KeepAccounts(env, c, Empty(h, Stop), p, Take(c, b, p), off, rest);
    case Repeat(_, _, _) => TakeRepeat(env, c, b, p, off, rest);
  }

  ghost predicate Keeps(env: Sizes, top: bool, c: Init, p: Pending, off: nat, start: nat, tail: Writes)
    requires Valid(p)
  {
    var s := Simplified(top, c, p);
    && (!top ==> InitSpan(env, s) == Extent(p) + InitSpan(env, c))
    && Effect(env, s, off, tail) == Held(p, off, Effect(env, c, start, tail))
  }

  lemma StopKeeps(env: Sizes, top: bool, p: Pending, off: nat, tail: Writes)
    requires Valid(p)
    ensures Keeps(env, top, Stop, p, off, off + Extent(p), tail)
  {
    var skip := if top then 0 else p.skip;
    PassOverEffect(env, skip, PutData(p.data, Stop), off, tail);
    PutDataEffect(env, p.data, Stop, off + skip, tail);
  }

  lemma StepEffect(env: Sizes, top: bool, c: Init, p: Pending, off: nat, mid: nat, tail: Writes)
    requires !c.Stop? && Valid(p) && mid == off + InitSpan(env, After(c, p).written)
    ensures var t := After(c, p);
            var s := Simplified(top, c.next, t.pending);
            && InitSpan(env, Simplified(top, c, p)) == InitSpan(env, t.written) + InitSpan(env, s)
            && Effect(env, Simplified(top, c, p), off, tail) == Effect(env, t.written, off, Effect(env, s, mid, tail))
  {
    var t := After(c, p);
    var s := Simplified(top, c.next, t.pending);
    SpanJoin(env, t.written, s);
    EffectJoin(env, t.written, s, off, mid, tail);
  }

  lemma StepKeeps(env: Sizes, top: bool, c: Init, p: Pending, at: Place, tail: Writes)
    requires !c.Stop? && Valid(p)
    requires Accounts(env, c, p, After(c, p), at, Effect(env, c.next, at.after, tail))
    requires Keeps(env, top, c.next, After(c, p).pending, at.mid, at.after, tail)
    ensures Keeps(env, top, c, p, at.off, at.start, tail)
  {
    StepEffect(env, top, c, p, at.off, at.mid, tail);
    EffectHead(env, c, at.start, at.after, tail);
  }

  lemma {:induction false} SimplifiedKeeps(env: Sizes, top: bool, c: Init, p: Pending, off: nat, tail: Writes)
    requires Valid(p)
    ensures Keeps(env, top, c, p, off, off + Extent(p), tail)
    decreases c, 2
  {
    if c.Stop? {
      StopKeeps(env, top, p, off, tail);
    } else {
      var t := After(c, p);
      var at := PlaceOf(env, p, t, off);
      StepAccounts(env, c, p, off, Effect(env, c.next, at.after, tail));
      SimplifiedKeeps(env, top, c.next, t.pending, at.mid, tail);
      StepKeeps(env, top, c, p, at, tail);
    }
  }

  lemma {:induction false} StepAccounts(env: Sizes, c: Init, p: Pending, off: nat, rest: Writes)
    requires !c.Stop? && Valid(p)
    ensures Accounts(env, c, p, After(c, p), PlaceOf(env, p, After(c, p), off), rest)
    decreases c, 1
  {
    BodyEquivalent(env, c);
    TakeAccounts(env, c, BodyOf(c), p, off, rest);
  }

  lemma {:induction false} BodyEquivalent(env: Sizes, c: Init)
    ensures c.Repeat? ==> Equivalent(env, c.body, BodyOf(c))
    decreases c, 0
  {
    if c.Repeat? {
      SimplifiedKeeps(env, false, c.body, Nothing, 0, NoWrite);
      forall off: nat, tail: Writes
        ensures Effect(env, c.body, off, tail) == Effect(env, BodyOf(c), off, tail)
      {
        SimplifiedKeeps(env, false, c.body, Nothing, off, tail);
      }
    }
  }

  /** A program that only steps over bytes is dropped. */
  function Cleared(c: Init): Init {
    if IsLonePass(c) then Stop else c
  }

  /** `simplifyInit` makes the same writes, in the same order. */
  lemma SimplifiedEffect(env: Sizes, c: Init)
    ensures Effect(env, Cleared(Simplified(true, c, Nothing)), 0, NoWrite) == Effect(env, c, 0, NoWrite)
  {
    SimplifiedKeeps(env, true, c, Nothing, 0, NoWrite);
    var s := Simplified(true, c, Nothing);
    if IsLonePass(s) {
      assert Effect(env, s, 0, NoWrite) == Effect(env, Stop, s.n, NoWrite);
    }
  }
}
