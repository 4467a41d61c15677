/**
 The peephole optimiser of memory layouts.

 `Simplified` is the program that the one-pass optimiser of `MemoryLayout::simplify`
 produces, as a function of the block structure and of the pending operation. The
 theorems say what that rewriting keeps:
 - without merging, the trace;
 - with merging, the trace of the program that copies its padding too, minus the
   padding at the very end.
 */
module Simplification {
  import opened Bytecode
  import opened Tracing

  /** Where the block being simplified ends: on END, or at the end of the whole program. */
  datatype Edge = Block | Top(removeTrailingSkips: bool)

  /** The operation not yet written: `count` bytes, the last `skip` of them plain padding. */
  datatype Pending = Pending(op: nat, count: nat, skip: nat)

  const Nothing := Pending(MEMCPY, 0, 0)

  predicate Valid(merge: bool, p: Pending) {
    && (p.op == MEMCPY || p.op == SKIP)
    && p.skip <= p.count
    && (merge ==> p.op == MEMCPY)
    && (!merge && p.op == MEMCPY ==> p.skip == 0)
  }

  /** An operation in front of a block. */
  function Owed(op: nat, count: nat, c: Code): Code {
    if op == SKIP then Skip(count, c) else Memcpy(count, c)
  }

  /** A pending operation is written only if it covers something. */
  function Emit(p: Pending, next: Code): Code {
    if p.count == 0 then next else Owed(p.op, p.count, next)
  }

  /** What is written when the block ends with `p` pending. */
  function Finish(edge: Edge, p: Pending): Code
    requires p.skip <= p.count
  {
    if edge.Block? then Emit(p, Done)
    else if p.count == 0 || (edge.removeTrailingSkips && p.op == SKIP) then Done
    else Owed(p.op, p.count - p.skip, Done)
  }

  /** A block made of one MEMCPY or SKIP: the only two-word blocks there are. */
  predicate IsLone(c: Code) {
    (c.Memcpy? || c.Skip?) && c.next.Done?
  }

  function OpOf(c: Code): nat {
    if c.Skip? then SKIP else MEMCPY
  }

  /** One turn of the loop: whether the pending operation is written, what is written after it, what is pending then. */
  datatype Turn = Turn(flush: bool, keep: Code, pending: Pending)

  /** The turn taken on the first operation of `c`, whose body, if it has one, simplifies to `b`. */
  function Take(merge: bool, c: Code, b: Code, p: Pending): (t: Turn)
    requires !c.Done? && Valid(merge, p) && (merge ==> !b.Skip?)
    ensures Valid(merge, t.pending)
  {
    match c
    case Memcpy(n, _) =>
      if p.op == MEMCPY || merge then Turn(false, Done, Pending(MEMCPY, p.count + n, 0))
      else Turn(true, Done, Pending(MEMCPY, n, 0))
    case Skip(n, _) =>
      if p.op == SKIP then Turn(false, Done, Pending(SKIP, p.count + n, p.skip + n))
      else if merge then Turn(false, Done, Pending(MEMCPY, p.count + n, p.skip + n))
      else Turn(true, Done, Pending(SKIP, n, p.skip + n))
    case Array(k, _, _) =>
      if b.Done? then Turn(false, Done, Pending(p.op, p.count, 0))
      else if IsLone(b) && OpOf(b) == p.op && p.count > 0 then Turn(false, Done, Pending(p.op, p.count + b.n * k, 0))
      else if IsLone(b) then Turn(true, Done, Pending(OpOf(b), b.n * k, 0))
      else Turn(true, Array(k, b, Done), Pending(p.op, 0, 0))
    case Container(h, _, _) =>
      Turn(true, Container(h, b, Done), Pending(p.op, 0, 0))
  }

  function Written(p: Pending, t: Turn): Code {
    if t.flush then Emit(p, t.keep) else Done
  }

  function Simplified(merge: bool, edge: Edge, c: Code, p: Pending): Code
    requires Valid(merge, p)
    ensures merge ==> !Simplified(merge, edge, c, p).Skip?
    decreases c
  {
    if c.Done? then Finish(edge, p)
    else
      var b := if HasBody(c) then Simplified(merge, Block, c.body, Nothing) else Done;
      var t := Take(merge, c, b, p);
      Append(Written(p, t), Simplified(merge, edge, c.next, t.pending))
  }

  function BodyOf(merge: bool, c: Code): (b: Code)
    ensures merge ==> !b.Skip?
  {
    if HasBody(c) then Simplified(merge, Block, c.body, Nothing) else Done
  }

  /** The turn on the first operation of `c`. */
  function After(merge: bool, c: Code, p: Pending): (t: Turn)
    requires Valid(merge, p) && !c.Done?
    ensures Valid(merge, t.pending)
  {
    Take(merge, c, BodyOf(merge, c), p)
  }

  // ----- equivalent programs -----

  /** The visits of a plain operation, in front of others. */
  function Lead(op: nat, count: nat, off: nat, rest: Atoms): Atoms {
    if op == SKIP then rest else Bytes(off, count, rest)
  }

  lemma EmitTrace(env: Sizes, p: Pending, next: Code, off: nat, tail: Atoms)
    ensures Trace(env, Emit(p, next), off, tail) == Lead(p.op, p.count, off, Trace(env, next, off + p.count, tail))
    ensures Span(env, Emit(p, next)) == p.count + Span(env, next)
  {
  }

  /** Two adjacent operations of the same kind are one longer operation. */
  lemma LeadTwice(op: nat, m: nat, n: nat, off: nat, rest: Atoms)
    ensures Lead(op, m, off, Lead(op, n, off + m, rest)) == Lead(op, m + n, off, rest)
  {
    BytesSplit(off, m, n, rest);
  }

  /** An array whose block is one operation is one longer operation. */
  lemma LoneArray(env: Sizes, k: nat, b: Code, c: Code, off: nat, tail: Atoms)
    requires IsLone(b)
    ensures Trace(env, Array(k, b, c), off, tail) == Lead(OpOf(b), b.n * k, off, Trace(env, c, off + b.n * k, tail))
    ensures Span(env, Array(k, b, c)) == b.n * k + Span(env, c)
  {
    var m := b.n;
    TimesIsProduct(k, m);
    assert Span(env, b) == m && Times(k, m) == m * k;
    if b.Memcpy? {
      assert b == Memcpy(m, Done);
      RepeatedMemcpy(env, m, k, off, Trace(env, c, off + m * k, tail));
    } else {
      assert b == Skip(m, Done);
      RepeatedSkip(env, m, k, off, Trace(env, c, off + m * k, tail));
    }
  }

  /** `b` may stand for `a`: same visits from every start, same extent. */
  ghost predicate Equivalent(env: Sizes, a: Code, b: Code) {
    && Span(env, a) == Span(env, b)
    && forall off: nat, tail: Atoms :: Trace(env, a, off, tail) == Trace(env, b, off, tail)
  }

  lemma {:induction false} RepeatedEquivalent(env: Sizes, a: Code, b: Code, k: nat, off: nat, tail: Atoms)
    requires Equivalent(env, a, b)
    ensures Repeated(env, a, k, off, tail) == Repeated(env, b, k, off, tail)
    decreases k
  {
    if k > 0 {
      RepeatedEquivalent(env, a, b, k - 1, off + Span(env, a), tail);
    }
  }

  /** The first operation with another block. */
  function WithBody(c: Code, b: Code): Code {
    match c
    case Array(k, _, next) => Array(k, b, next)
    case Container(h, _, next) => Container(h, b, next)
    case _ => c
  }

  lemma WithBodyTrace(env: Sizes, c: Code, b: Code, off: nat, tail: Atoms)
    requires HasBody(c) && Equivalent(env, c.body, b)
    ensures Trace(env, WithBody(c, b), off, tail) == Trace(env, c, off, tail)
    ensures Span(env, WithBody(c, b)) == Span(env, c)
  {
    if c.Array? {
      var more := Trace(env, c.next, off + Times(c.count, Span(env, b)), tail);
      RepeatedEquivalent(env, c.body, b, c.count, off, more);
    }
  }

  // ----- one turn -----

  /**
   The addresses around one turn: the pending operation starts at `off`, the first operation
   at `start`; what is pending afterwards starts at `mid`, the next operation at `after`.
   */
  datatype Place = Place(off: nat, start: nat, mid: nat, after: nat)

  ghost predicate Placed(env: Sizes, c: Code, p: Pending, t: Turn, at: Place)
    requires !c.Done?
  {
    && at.start == at.off + p.count
    && at.after == at.start + HeadSpan(env, c)
    && at.mid == at.off + Span(env, Written(p, t))
    && at.after == at.mid + t.pending.count
  }

  /** Bytes that the first operation advances over. */
  function HeadSpan(env: Sizes, c: Code): (n: nat)
    requires !c.Done?
    ensures Span(env, c) == n + Span(env, c.next)
  {
    match c
    case Memcpy(n, _) => n
    case Skip(n, _) => n
    case Array(k, b, _) => Times(k, Span(env, b))
    case Container(h, _, _) => SizeOf(env, h)
  }

  /** What the turn writes, then what it leaves pending, is what it was given. */
  ghost predicate Accounts(env: Sizes, c: Code, p: Pending, t: Turn, at: Place, tail: Atoms)
    requires !c.Done?
  {
    var q := t.pending;
    Lead(p.op, p.count, at.off, Trace(env, c, at.start, tail))
    == Trace(env, Written(p, t), at.off, Lead(q.op, q.count, at.mid, Trace(env, c.next, at.after, tail)))
  }

  /** A turn that writes the pending operation, then `keep`. */
  lemma FlushAccounts(env: Sizes, c: Code, p: Pending, t: Turn, at: Place, tail: Atoms)
    requires !c.Done? && t.flush && Placed(env, c, p, t, at)
    requires var q := t.pending;
             Trace(env, c, at.start, tail)
             == Trace(env, t.keep, at.start, Lead(q.op, q.count, at.mid, Trace(env, c.next, at.after, tail)))
    ensures Accounts(env, c, p, t, at, tail)
  {
    var q := t.pending;
    EmitTrace(env, p, t.keep, at.off, Lead(q.op, q.count, at.mid, Trace(env, c.next, at.after, tail)));
  }

  /** A first operation that has the trace of a plain operation may be merged into the pending one. */
  lemma MergeAccounts(env: Sizes, c: Code, m: nat, p: Pending, t: Turn, at: Place, tail: Atoms)
    requires !c.Done? && !t.flush && Placed(env, c, p, t, at) && t.pending.op == p.op && t.pending.count == p.count + m
    requires Trace(env, c, at.start, tail) == Lead(p.op, m, at.start, Trace(env, c.next, at.after, tail))
    ensures Accounts(env, c, p, t, at, tail)
  {
    LeadTwice(p.op, p.count, m, at.off, Trace(env, c.next, at.after, tail));
  }

  lemma TakeOp(env: Sizes, merge: bool, c: Code, p: Pending, at: Place, tail: Atoms)
    requires Valid(merge, p) && (c.Memcpy? || c.Skip?) && (merge ==> !c.Skip?)
    requires Placed(env, c, p, Take(merge, c, Done, p), at)
    ensures Accounts(env, c, p, Take(merge, c, Done, p), at, tail)
  {
    var t := Take(merge, c, Done, p);
    if t.flush {
      FlushAccounts(env, c, p, t, at, tail);
    } else {
      MergeAccounts(env, c, c.n, p, t, at, tail);
    }
  }

  lemma TakeLoneArray(env: Sizes, merge: bool, c: Code, p: Pending, at: Place, tail: Atoms)
    requires Valid(merge, p) && c.Array? && (merge ==> !c.body.Skip?) && IsLone(c.body)
    requires Placed(env, c, p, Take(merge, c, c.body, p), at)
    ensures Accounts(env, c, p, Take(merge, c, c.body, p), at, tail)
  {
    var t := Take(merge, c, c.body, p);
    LoneArray(env, c.count, c.body, c.next, at.start, tail);
    if t.flush {
      FlushAccounts(env, c, p, t, at, tail);
    } else {
      MergeAccounts(env, c, c.body.n * c.count, p, t, at, tail);
    }
  }

  lemma TakeEmptyArray(env: Sizes, merge: bool, c: Code, p: Pending, at: Place, tail: Atoms)
    requires Valid(merge, p) && c.Array? && c.body.Done?
    requires Placed(env, c, p, Take(merge, c, c.body, p), at)
    ensures Accounts(env, c, p, Take(merge, c, c.body, p), at, tail)
  {
    RepeatedDone(env, c.count, at.start, Trace(env, c.next, at.after, tail));
    MergeAccounts(env, c, 0, p, Take(merge, c, c.body, p), at, tail);
  }

  /** One turn on a first operation whose block is already simplified. */
  lemma TakeAccounts(env: Sizes, merge: bool, c: Code, p: Pending, t: Turn, at: Place, tail: Atoms)
    requires Valid(merge, p) && !c.Done? && (merge ==> !c.Skip? && (HasBody(c) ==> !c.body.Skip?))
    requires t == Take(merge, c, if HasBody(c) then c.body else Done, p) && Placed(env, c, p, t, at)
    ensures Accounts(env, c, p, t, at, tail)
  {
    if !HasBody(c) {
      TakeOp(env, merge, c, p, at, tail);
    } else if c.Array? && c.body.Done? {
      TakeEmptyArray(env, merge, c, p, at, tail);
    } else if c.Array? && IsLone(c.body) {
      TakeLoneArray(env, merge, c, p, at, tail);
    } else {
      FlushAccounts(env, c, p, t, at, tail);
    }
  }

  /** The addresses of a turn do follow from where it starts. */
  lemma TakePlaced(env: Sizes, merge: bool, c: Code, p: Pending, t: Turn, off: nat)
    requires Valid(merge, p) && !c.Done? && (merge ==> HasBody(c) ==> !c.body.Skip?)
    requires t == Take(merge, c, if HasBody(c) then c.body else Done, p)
    ensures var start, mid := off + p.count, off + Span(env, Written(p, t));
            Placed(env, c, p, t, Place(off, start, mid, mid + t.pending.count))
  {
    EmitSpan(env, p, t.keep);
    if c.Array? && (c.body.Done? || IsLone(c.body)) {
      ShortBlockSpan(env, c.count, c.body);
    }
  }

  lemma EmitSpan(env: Sizes, p: Pending, next: Code)
    ensures Span(env, Emit(p, next)) == p.count + Span(env, next)
  {
  }

  lemma ShortBlockSpan(env: Sizes, k: nat, b: Code)
    requires b.Done? || IsLone(b)
    ensures b.Done? ==> Times(k, Span(env, b)) == 0
    ensures IsLone(b) ==> Times(k, Span(env, b)) == b.n * k
  {
    TimesIsProduct(k, Span(env, b));
    if IsLone(b) {
      assert Span(env, b) == b.n;
    }
  }

  // ----- what the simplified program stands for -----

  /** The program that copies its padding instead of skipping it. */
  function Copied(c: Code): Code {
    match c
    case Done => Done
    case Memcpy(n, next) => Memcpy(n, Copied(next))
    case Skip(n, next) => Memcpy(n, Copied(next))
    case Array(k, b, next) => Array(k, Copied(b), Copied(next))
    case Container(h, b, next) => Container(h, Copied(b), Copied(next))
  }

  function Meant(merge: bool, c: Code): Code {
    if merge then Copied(c) else c
  }

  lemma {:induction false} MeantSpan(env: Sizes, merge: bool, c: Code)
    ensures Span(env, Meant(merge, c)) == Span(env, c)
  {
    if !c.Done? {
      MeantSpan(env, merge, c.next);
      if c.Array? {
        MeantSpan(env, merge, c.body);
      }
    }
  }

  /** What the turn on `c` stands for: its padding copied if merging, its block simplified. */
  function Ready(merge: bool, c: Code): Code {
    WithBody(Meant(merge, c), BodyOf(merge, c))
  }

  lemma ReadyTrace(env: Sizes, merge: bool, c: Code, off: nat, tail: Atoms)
    requires !c.Done? && (HasBody(c) ==> Equivalent(env, Meant(merge, c).body, BodyOf(merge, c)))
    ensures !Ready(merge, c).Done? && Ready(merge, c).next == Meant(merge, c.next)
    ensures Trace(env, Ready(merge, c), off, tail) == Trace(env, Meant(merge, c), off, tail)
    ensures HeadSpan(env, Ready(merge, c)) == HeadSpan(env, c)
  {
    MeantSpan(env, merge, c);
    MeantSpan(env, merge, c.next);
    if HasBody(c) {
      WithBodyTrace(env, Meant(merge, c), BodyOf(merge, c), off, tail);
    }
  }

  lemma ReadyTurn(merge: bool, c: Code, p: Pending)
    requires Valid(merge, p) && !c.Done?
    ensures var r := Ready(merge, c);
            && !r.Done? && (merge ==> !r.Skip? && (HasBody(r) ==> !r.body.Skip?))
            && BodyOf(merge, c) == (if HasBody(r) then r.body else Done)
            && var t, u := After(merge, c, p), Take(merge, r, BodyOf(merge, c), p);
               t == u.(pending := u.pending.(skip := t.pending.skip))
  {
  }

  /** One turn, in terms of what the two programs stand for. */
  ghost predicate StepAccounts(env: Sizes, merge: bool, c: Code, p: Pending, at: Place, tail: Atoms)
    requires Valid(merge, p) && !c.Done?
  {
    var t := After(merge, c, p);
    var q := t.pending;
    && Placed(env, c, p, t, at)
    && Lead(p.op, p.count, at.off, Trace(env, Meant(merge, c), at.start, tail))
       == Trace(env, Written(p, t), at.off, Lead(q.op, q.count, at.mid, Trace(env, Meant(merge, c.next), at.after, tail)))
  }

  /** Where the turn on `c` takes place. */
  function PlaceOf(env: Sizes, merge: bool, c: Code, p: Pending, off: nat): Place
    requires Valid(merge, p) && !c.Done?
  {
    var t := After(merge, c, p);
    var mid := off + Span(env, Written(p, t));
    Place(off, off + p.count, mid, mid + t.pending.count)
  }

  lemma StepTrace(env: Sizes, merge: bool, c: Code, p: Pending, off: nat, tail: Atoms)
    requires Valid(merge, p) && !c.Done? && (HasBody(c) ==> Equivalent(env, Meant(merge, c).body, BodyOf(merge, c)))
    ensures StepAccounts(env, merge, c, p, PlaceOf(env, merge, c, p, off), tail)
  {
    var r, at := Ready(merge, c), PlaceOf(env, merge, c, p, off);
    ReadyTurn(merge, c, p);
    ReadyTrace(env, merge, c, at.start, tail);
    var u := Take(merge, r, BodyOf(merge, c), p);
    TakePlaced(env, merge, r, p, u, off);
    TakeAccounts(env, merge, r, p, u, at, tail);
  }

  // ----- the padding at the end -----

  /** Bytes of padding after the last thing that is not padding, `skip` of them already seen. */
  function Trail(c: Code, skip: nat): nat {
    match c
    case Done => skip
    case Skip(n, next) => Trail(next, skip + n)
    case _ => Trail(c.next, 0)
  }

  /** The padding that a whole program loses at its end. */
  function Trimmed(merge: bool, edge: Edge, c: Code, skip: nat): nat {
    if merge && edge.Top? then Trail(c, skip) else 0
  }

  lemma {:induction false} TrailBound(env: Sizes, c: Code, skip: nat)
    ensures Trail(c, skip) <= skip + Span(env, c)
  {
    match c
    case Done =>
    case Skip(n, next) => TrailBound(env, next, skip + n);
    case _ => TrailBound(env, c.next, 0);
  }

  lemma TrimmedNext(merge: bool, edge: Edge, c: Code, p: Pending)
    requires Valid(merge, p) && !c.Done?
    ensures Trimmed(merge, edge, c, p.skip) == Trimmed(merge, edge, c.next, After(merge, c, p).pending.skip)
  {
  }

  /** `tail'` is `tail` behind the padding dropped from a program that ends at `end`. */
  ghost predicate IsPad(merge: bool, edge: Edge, c: Code, skip: nat, end: nat, tail': Atoms, tail: Atoms) {
    var cut := Trimmed(merge, edge, c, skip);
    cut <= end && tail' == Bytes(end - cut, cut, tail)
  }

  lemma PadNext(merge: bool, edge: Edge, c: Code, p: Pending, end: nat, tail': Atoms, tail: Atoms)
    requires Valid(merge, p) && !c.Done? && IsPad(merge, edge, c, p.skip, end, tail', tail)
    ensures IsPad(merge, edge, c.next, After(merge, c, p).pending.skip, end, tail', tail)
  {
    TrimmedNext(merge, edge, c, p);
  }

  // ----- the whole block -----

  /** The visits of the simplified block, then the padding it dropped, are the visits it was given. */
  ghost predicate Keeps(env: Sizes, merge: bool, edge: Edge, c: Code, p: Pending, off: nat, start: nat, tail': Atoms, tail: Atoms)
    requires Valid(merge, p)
  {
    var s := Simplified(merge, edge, c, p);
    && Span(env, s) <= p.count + Span(env, c) && (edge.Block? ==> Span(env, s) == p.count + Span(env, c))
    && Trace(env, s, off, tail') == Lead(p.op, p.count, off, Trace(env, Meant(merge, c), start, tail))
  }

  lemma FinishKeeps(env: Sizes, merge: bool, edge: Edge, p: Pending, off: nat, start: nat, tail': Atoms, tail: Atoms)
    requires Valid(merge, p) && start == off + p.count && IsPad(merge, edge, Done, p.skip, start, tail', tail)
    ensures Keeps(env, merge, edge, Done, p, off, start, tail', tail)
  {
    if merge && edge.Top? {
      BytesSplit(off, p.count - p.skip, p.skip, tail);
    }
  }

  lemma StepKeeps(env: Sizes, merge: bool, edge: Edge, c: Code, p: Pending, at: Place, tail': Atoms, tail: Atoms)
    requires Valid(merge, p) && !c.Done? && StepAccounts(env, merge, c, p, at, tail)
    requires Keeps(env, merge, edge, c.next, After(merge, c, p).pending, at.mid, at.after, tail', tail)
    ensures Keeps(env, merge, edge, c, p, at.off, at.start, tail', tail)
  {
    var t := After(merge, c, p);
    var w, s := Written(p, t), Simplified(merge, edge, c.next, t.pending);
    TraceAppend(env, w, s, at.off, tail');
    SpanAppend(env, w, s);
    assert Simplified(merge, edge, c, p) == Append(w, s);
  }

  lemma {:induction false} SimplifiedKeeps(env: Sizes, merge: bool, edge: Edge, c: Code, p: Pending, off: nat, start: nat, tail': Atoms, tail: Atoms)
    requires Valid(merge, p) && start == off + p.count && IsPad(merge, edge, c, p.skip, start + Span(env, c), tail', tail)
    ensures Keeps(env, merge, edge, c, p, off, start, tail', tail)
    decreases c, 2
  {
    if c.Done? {
      FinishKeeps(env, merge, edge, p, off, start, tail', tail);
    } else {
      var at := PlaceOf(env, merge, c, p, off);
      BodyTrace(env, merge, c, p, off, tail);
      PadNext(merge, edge, c, p, start + Span(env, c), tail', tail);
      SimplifiedKeeps(env, merge, edge, c.next, After(merge, c, p).pending, at.mid, at.after, tail', tail);
      StepKeeps(env, merge, edge, c, p, at, tail', tail);
    }
  }

  lemma {:induction false} BodyTrace(env: Sizes, merge: bool, c: Code, p: Pending, off: nat, tail: Atoms)
    requires Valid(merge, p) && !c.Done?
    ensures StepAccounts(env, merge, c, p, PlaceOf(env, merge, c, p, off), tail)
    decreases c, 1
  {
    BodyEquivalent(env, merge, c);
    StepTrace(env, merge, c, p, off, tail);
  }

  lemma {:induction false} BodyEquivalent(env: Sizes, merge: bool, c: Code)
    ensures HasBody(c) ==> Equivalent(env, Meant(merge, c).body, BodyOf(merge, c))
    decreases c, 0
  {
    if HasBody(c) {
      BlockTrace(env, merge, c.body, 0, Nil);
      forall off: nat, tail: Atoms
        ensures Trace(env, Meant(merge, c.body), off, tail) == Trace(env, BodyOf(merge, c), off, tail)
      {
        BlockTrace(env, merge, c.body, off, tail);
      }
    }
  }

  // ----- the theorems -----

  /** A simplified block visits what it stands for, from every start, and advances as far. */
  lemma {:induction false} BlockTrace(env: Sizes, merge: bool, c: Code, off: nat, tail: Atoms)
    ensures Trace(env, Simplified(merge, Block, c, Nothing), off, tail) == Trace(env, Meant(merge, c), off, tail)
    ensures Span(env, Simplified(merge, Block, c, Nothing)) == Span(env, c) == Span(env, Meant(merge, c))
    decreases c, 3
  {
    SimplifiedKeeps(env, merge, Block, c, Nothing, off, off, tail, tail);
    MeantSpan(env, merge, c);
  }

  /** `simplify(false, r)`: the same visits, in the same order, whatever the flag. */
  lemma UnmergedTrace(env: Sizes, c: Code, remove: bool)
    ensures Span(env, Simplified(false, Top(remove), c, Nothing)) <= Span(env, c)
    ensures Trace(env, Simplified(false, Top(remove), c, Nothing), 0, Nil) == Trace(env, c, 0, Nil)
  {
    SimplifiedKeeps(env, false, Top(remove), c, Nothing, 0, 0, Nil, Nil);
  }

  /** `simplify(true, r)`: followed by the padding at the end of the program, all of its bytes and containers. */
  lemma MergedTracePadded(env: Sizes, c: Code, remove: bool)
    ensures Trail(c, 0) <= Span(env, c) && Span(env, Simplified(true, Top(remove), c, Nothing)) <= Span(env, c)
    ensures Trace(env, Simplified(true, Top(remove), c, Nothing), 0, Bytes(Span(env, c) - Trail(c, 0), Trail(c, 0), Nil))
            == Trace(env, Copied(c), 0, Nil)
  {
    TrailBound(env, c, 0);
    SimplifiedKeeps(env, true, Top(remove), c, Nothing, 0, 0, Bytes(Span(env, c) - Trail(c, 0), Trail(c, 0), Nil), Nil);
  }

  predicate AllSkips(c: Code) {
    c.Done? || (c.Skip? && AllSkips(c.next))
  }

  /** The program without the padding at its end, and that padding. */
  function Untrailed(c: Code): Code {
    if AllSkips(c) then Done else c.(next := Untrailed(c.next))
  }

  function TrailOf(c: Code): Code {
    if AllSkips(c) then c else TrailOf(c.next)
  }

  lemma {:induction false} AllSkipsTrail(env: Sizes, c: Code, skip: nat)
    requires AllSkips(c)
    ensures Trail(c, skip) == skip + Span(env, c)
  {
    if c.Skip? {
      AllSkipsTrail(env, c.next, skip + c.n);
    }
  }

  lemma {:induction false} AllSkipsTrace(env: Sizes, c: Code, off: nat, tail: Atoms)
    requires AllSkips(c)
    ensures Trace(env, c, off, tail) == tail && Trace(env, Copied(c), off, tail) == Bytes(off, Span(env, c), tail)
  {
    if c.Skip? {
      AllSkipsTrace(env, c.next, off + c.n, tail);
      BytesSplit(off, c.n, Span(env, c.next), tail);
    }
  }

  lemma {:induction false} TrailForgets(c: Code, skip: nat, more: nat)
    requires !AllSkips(c)
    ensures Trail(c, skip) == Trail(c, more)
  {
    if c.Skip? {
      TrailForgets(c.next, skip + c.n, more + c.n);
    }
  }

  lemma {:induction false} TrailSplits(env: Sizes, c: Code)
    ensures c == Append(Untrailed(c), TrailOf(c))
    ensures AllSkips(TrailOf(c)) && Span(env, TrailOf(c)) == Trail(c, 0)
  {
    if AllSkips(c) {
      AllSkipsTrail(env, c, 0);
    } else {
      TrailSplits(env, c.next);
      if c.Skip? {
        TrailForgets(c.next, 0, c.n);
      }
    }
  }

  lemma {:induction false} CopiedAppend(a: Code, b: Code)
    ensures Copied(Append(a, b)) == Append(Copied(a), Copied(b))
  {
    if !a.Done? {
      CopiedAppend(a.next, b);
    }
  }

  lemma UntrailedSpan(env: Sizes, c: Code)
    ensures Span(env, c) == Span(env, Untrailed(c)) + Trail(c, 0)
  {
    TrailSplits(env, c);
    SpanAppend(env, Untrailed(c), TrailOf(c));
  }

  lemma UntrailedTrace(env: Sizes, c: Code, off: nat, tail: Atoms)
    ensures Span(env, c) == Span(env, Untrailed(c)) + Trail(c, 0)
    ensures Trace(env, Untrailed(c), off, tail) == Trace(env, c, off, tail)
    ensures Trace(env, Copied(c), off, tail)
            == Trace(env, Copied(Untrailed(c)), off, Bytes(off + Span(env, Untrailed(c)), Trail(c, 0), tail))
  {
    var a, b := Untrailed(c), TrailOf(c);
    TrailSplits(env, c);
    CopiedAppend(a, b);
    SpanAppend(env, a, b);
    MeantSpan(env, true, a);
    TraceAppend(env, a, b, off, tail);
    TraceAppend(env, Copied(a), Copied(b), off, tail);
    AllSkipsTrace(env, b, off + Span(env, a), tail);
  }

  /** Two traces with the same continuation that end up equal are equal without it. */
  lemma {:induction false} CancelTail(env: Sizes, a: Code, b: Code, off: nat, tail: Atoms)
    requires Trace(env, a, off, tail) == Trace(env, b, off, tail)
    ensures Trace(env, a, off, Nil) == Trace(env, b, off, Nil)
  {
    TraceThen(env, a, off, Nil, tail);
    TraceThen(env, b, off, Nil, tail);
    CancelThen(Trace(env, a, off, Nil), Trace(env, b, off, Nil), tail);
  }

  /** `a` followed by `b`. */
  function Then(a: Atoms, b: Atoms): Atoms {
    match a
    case Nil => b
    case Byte(at, rest) => Byte(at, Then(rest, b))
    case Box(at, h, elem, rest) => Box(at, h, elem, Then(rest, b))
  }

  function Length(t: Atoms): nat {
    if t.Nil? then 0 else 1 + Length(t.rest)
  }

  lemma {:induction false} ThenLength(a: Atoms, b: Atoms)
    ensures Length(Then(a, b)) == Length(a) + Length(b)
  {
    if !a.Nil? {
      ThenLength(a.rest, b);
    }
  }

  lemma {:induction false} CancelThen(a: Atoms, b: Atoms, tail: Atoms)
    requires Then(a, tail) == Then(b, tail)
    ensures a == b
  {
    ThenLength(a, tail);
    ThenLength(b, tail);
    if !a.Nil? && !b.Nil? {
      CancelThen(a.rest, b.rest, tail);
    }
  }

  lemma {:induction false} BytesThen(off: nat, n: nat, s: Atoms, t: Atoms)
    ensures Bytes(off, n, Then(s, t)) == Then(Bytes(off, n, s), t)
    decreases n
  {
    if n > 0 {
      BytesThen(off + 1, n - 1, s, t);
    }
  }

  /** A trace does not depend on what follows it. */
  lemma {:induction false} TraceThen(env: Sizes, c: Code, off: nat, s: Atoms, t: Atoms)
    ensures Trace(env, c, off, Then(s, t)) == Then(Trace(env, c, off, s), t)
    decreases c, 0
  {
    match c
    case Done =>
    case Memcpy(n, next) =>
      TraceThen(env, next, off + n, s, t);
      BytesThen(off, n, Trace(env, next, off + n, s), t);
    case Skip(n, next) =>
      TraceThen(env, next, off + n, s, t);
    case Array(k, b, next) =>
      var mid := off + Times(k, Span(env, b));
      TraceThen(env, next, mid, s, t);
      RepeatedThen(env, b, k, off, Trace(env, next, mid, s), t);
    case Container(h, _, next) =>
      TraceThen(env, next, off + SizeOf(env, h), s, t);
  }

  lemma {:induction false} RepeatedThen(env: Sizes, b: Code, k: nat, off: nat, s: Atoms, t: Atoms)
    ensures Repeated(env, b, k, off, Then(s, t)) == Then(Repeated(env, b, k, off, s), t)
    decreases b, k + 1
  {
    if k > 0 {
      RepeatedThen(env, b, k - 1, off + Span(env, b), s, t);
      TraceThen(env, b, off, Repeated(env, b, k - 1, off + Span(env, b), s), t);
    }
  }

  /** `simplify(true, r)`: exactly the program that copies its padding, without the padding at the end. */
  lemma MergedTrace(env: Sizes, c: Code, remove: bool)
    ensures Span(env, Simplified(true, Top(remove), c, Nothing)) <= Span(env, c)
    ensures Trace(env, Simplified(true, Top(remove), c, Nothing), 0, Nil) == Trace(env, Copied(Untrailed(c)), 0, Nil)
  {
    MergedTracePadded(env, c, remove);
    UntrailedTrace(env, c, 0, Nil);
    CancelTail(env, Simplified(true, Top(remove), c, Nothing), Copied(Untrailed(c)), 0,
               Bytes(Span(env, c) - Trail(c, 0), Trail(c, 0), Nil));
  }

  // ----- what merging adds -----

  /** `raw` is `merged` with some byte visits left out, at this level and inside containers. */
  ghost predicate Covers(merged: Atoms, raw: Atoms)
    decreases merged
  {
    match merged
    case Nil => raw.Nil?
    case Byte(at, rest) => Covers(rest, raw) || (raw.Byte? && raw.at == at && Covers(rest, raw.rest))
    case Box(at, h, elem, rest) =>
      raw.Box? && raw.at == at && raw.handle == h && Covers(elem, raw.elem) && Covers(rest, raw.rest)
  }

  lemma {:induction false} BytesCover(off: nat, n: nat, m: Atoms, r: Atoms)
    requires Covers(m, r)
    ensures Covers(Bytes(off, n, m), Bytes(off, n, r)) && Covers(Bytes(off, n, m), r)
    decreases n
  {
    if n > 0 {
      BytesCover(off + 1, n - 1, m, r);
    }
  }

  /** Merging keeps every visit of the raw program, at the same place and in the same order. */
  lemma {:induction false} CopiedCovers(env: Sizes, c: Code, off: nat, m: Atoms, r: Atoms)
    requires Covers(m, r)
    ensures Covers(Trace(env, Copied(c), off, m), Trace(env, c, off, r))
    decreases c, 0
  {
    match c
    case Done =>
    case Memcpy(n, next) =>
      CopiedCovers(env, next, off + n, m, r);
      BytesCover(off, n, Trace(env, Copied(next), off + n, m), Trace(env, next, off + n, r));
    case Skip(n, next) =>
      CopiedCovers(env, next, off + n, m, r);
      BytesCover(off, n, Trace(env, Copied(next), off + n, m), Trace(env, next, off + n, r));
    case Array(k, b, next) =>
      var mid := off + Times(k, Span(env, b));
      MeantSpan(env, true, b);
      CopiedCovers(env, next, mid, m, r);
      CopiedRepeated(env, b, k, off, Trace(env, Copied(next), mid, m), Trace(env, next, mid, r));
    case Container(h, b, next) =>
      CopiedCovers(env, b, 0, Nil, Nil);
      CopiedCovers(env, next, off + SizeOf(env, h), m, r);
  }

  lemma {:induction false} CopiedRepeated(env: Sizes, b: Code, k: nat, off: nat, m: Atoms, r: Atoms)
    requires Covers(m, r)
    ensures Covers(Repeated(env, Copied(b), k, off, m), Repeated(env, b, k, off, r))
    decreases b, k + 1
  {
    if k > 0 {
      var mid := off + Span(env, b);
      MeantSpan(env, true, b);
      CopiedRepeated(env, b, k - 1, mid, m, r);
      CopiedCovers(env, b, off, Repeated(env, Copied(b), k - 1, mid, m), Repeated(env, b, k - 1, mid, r));
    }
  }

  lemma {:induction false} UntrailedKnown(env: Sizes, c: Code)
    requires Known(env, c)
    ensures Known(env, Untrailed(c)) && Known(env, Copied(c)) && Known(env, Copied(Untrailed(c)))
  {
    if !c.Done? {
      UntrailedKnown(env, c.next);
      if HasBody(c) {
        UntrailedKnown(env, c.body);
      }
    }
  }

  /** `simplify(true, r)` visits all that the raw program visits, and nothing at or past its end. */
  lemma MergedCovers(env: Sizes, c: Code, remove: bool)
    requires Known(env, c)
    ensures var t := Trace(env, Simplified(true, Top(remove), c, Nothing), 0, Nil);
            Covers(t, Trace(env, c, 0, Nil)) && Within(t, 0, Span(env, Untrailed(c)))
  {
    var d := Untrailed(c);
    MergedTrace(env, c, remove);
    UntrailedTrace(env, c, 0, Nil);
    CopiedCovers(env, d, 0, Nil, Nil);
    UntrailedKnown(env, c);
    MeantSpan(env, true, d);
    TraceWithin(env, Copied(d), 0, Nil, Span(env, d));
  }

  lemma {:induction false} CoversWithin(t: Atoms, raw: Atoms, lo: nat, hi: nat)
    requires Within(t, lo, hi) && Covers(t, raw)
    ensures Within(raw, lo, hi)
    decreases t
  {
    if t.Byte? {
      if Covers(t.rest, raw) {
        CoversWithin(t.rest, raw, t.at + 1, hi);
        WithinLater(raw, lo, t.at + 1, hi);
      } else {
        CoversWithin(t.rest, raw.rest, t.at + 1, hi);
      }
    } else if t.Box? {
      CoversWithin(t.rest, raw.rest, t.at + 1, hi);
    }
  }

  // ----- the shape of merged programs -----

  /** No SKIP, no two MEMCPYs in a row, no array that is empty or could be one operation. */
  predicate Normal(c: Code) {
    match c
    case Done => true
    case Memcpy(_, next) => !next.Memcpy? && Normal(next)
    case Skip(_, _) => false
    case Array(_, b, next) => !b.Done? && !IsLone(b) && Normal(b) && Normal(next)
    case Container(_, b, next) => Normal(b) && Normal(next)
  }

  lemma {:induction false} MergedIsNormal(edge: Edge, c: Code, p: Pending)
    requires Valid(true, p)
    ensures Normal(Simplified(true, edge, c, p))
    decreases c
  {
    if !c.Done? {
      if HasBody(c) {
        MergedIsNormal(Block, c.body, Nothing);
      }
      var t := After(true, c, p);
      MergedIsNormal(edge, c.next, t.pending);
      NormalAppend(Written(p, t), Simplified(true, edge, c.next, t.pending));
    }
  }

  /** The last operation of a block is an array or a container. */
  predicate EndsInBlock(c: Code) {
    !c.Done? && if c.next.Done? then HasBody(c) else EndsInBlock(c.next)
  }

  lemma {:induction false} NormalAppend(a: Code, b: Code)
    requires Normal(a) && Normal(b) && (a.Done? || EndsInBlock(a))
    ensures Normal(Append(a, b))
  {
    if !a.Done? {
      NormalAppend(a.next, b);
    }
  }

  /** No container at any depth. */
  predicate Plain(c: Code) {
    match c
    case Done => true
    case Array(_, b, next) => Plain(b) && Plain(next)
    case Container(_, _, _) => false
    case Memcpy(_, next) => Plain(next)
    case Skip(_, next) => Plain(next)
  }

  /** Merging a container-free operation writes nothing: it only adds to what is pending. */
  lemma PlainTake(env: Sizes, c: Code, p: Pending)
    requires Valid(true, p) && !c.Done? && !c.Container?
    requires c.Array? ==> BodyOf(true, c) == Emit(Pending(MEMCPY, Span(env, c.body), 0), Done)
    ensures var t := After(true, c, p);
            Written(p, t) == Done && t.pending.count == p.count + HeadSpan(env, c)
  {
    if c.Array? {
      var m := Span(env, c.body);
      TimesIsProduct(c.count, m);
      LoneTake(c, BodyOf(true, c), m, Times(c.count, m), p);
    }
  }

  lemma LoneTake(c: Code, b: Code, m: nat, total: nat, p: Pending)
    requires c.Array? && Valid(true, p) && b == Emit(Pending(MEMCPY, m, 0), Done) && total == c.count * m
    ensures var t := Take(true, c, b, p); Written(p, t) == Done && t.pending.count == p.count + total
  {
    assert m * c.count == total;
  }

  /** A container-free program merges into at most one operation, over all of its bytes. */
  lemma {:induction false} PlainMerges(env: Sizes, edge: Edge, c: Code, p: Pending)
    requires Plain(c) && Valid(true, p)
    ensures var cut := Trimmed(true, edge, c, p.skip);
            && cut <= p.count + Span(env, c)
            && Simplified(true, edge, c, p) == Finish(edge, Pending(MEMCPY, p.count + Span(env, c), cut))
    decreases c
  {
    if !c.Done? {
      if c.Array? {
        PlainMerges(env, Block, c.body, Nothing);
      }
      PlainTake(env, c, p);
      TrimmedNext(true, edge, c, p);
      PlainMerges(env, edge, c.next, After(true, c, p).pending);
    }
  }

  /** Simplifying neither adds nor removes containers, at any depth. */
  lemma {:induction false} PlainStays(merge: bool, edge: Edge, c: Code, p: Pending)
    requires Valid(merge, p)
    ensures Plain(Simplified(merge, edge, c, p)) == Plain(c)
    decreases c
  {
    if !c.Done? {
      if HasBody(c) {
        PlainStays(merge, Block, c.body, Nothing);
      }
      var t := After(merge, c, p);
      PlainStays(merge, edge, c.next, t.pending);
      PlainAppend(Written(p, t), Simplified(merge, edge, c.next, t.pending));
      PlainWritten(merge, c, p);
    }
  }

  lemma PlainWritten(merge: bool, c: Code, p: Pending)
    requires Valid(merge, p) && !c.Done?
    ensures Plain(Written(p, After(merge, c, p))) == (!c.Container? && (c.Array? ==> Plain(BodyOf(merge, c))))
  {
    var t := After(merge, c, p);
    assert Plain(Emit(p, t.keep)) == Plain(t.keep);
    assert Plain(t.keep) == (!c.Container? && (c.Array? ==> Plain(BodyOf(merge, c))));
  }

  lemma {:induction false} PlainAppend(a: Code, b: Code)
    ensures Plain(Append(a, b)) == (Plain(a) && Plain(b))
  {
    if !a.Done? {
      PlainAppend(a.next, b);
    }
  }

  /** `MemoryLayout::isMemcpy`: two words, the first of them MEMCPY. */
  predicate IsMemcpy(w: seq<nat>) {
    |w| == 2 && w[0] == MEMCPY
  }

  /** The merged layout is one MEMCPY exactly when the raw one has no container and covers something. */
  lemma IsMemcpyExact(env: Sizes, c: Code, remove: bool)
    ensures IsMemcpy(Words(Simplified(true, Top(remove), c, Nothing))) <==> Plain(c) && Span(env, c) > 0
  {
    var s := Simplified(true, Top(remove), c, Nothing);
    PlainStays(true, Top(remove), c, Nothing);
    if Plain(c) {
      PlainMerges(env, Top(remove), c, Nothing);
    } else if s.Memcpy? {
      assert Len(s) == 2 + Len(s.next);
    }
  }
}
