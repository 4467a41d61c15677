/**
 What a layout program means: the sequence of memory locations it visits.

 Every interpreter of the bytecode (dump, load, copy, compare, destroy) acts on the
 bytes named by MEMCPY and on the container objects, in program order, and ignores
 the rest. `Trace` is that sequence of visits. Copy, compare and destroy depend on it
 alone. Dump and load also depend on the words of the blocks of some vectors; the
 module `Unmerged` says when that makes no difference. Zeroing clears what is skipped as well:
 see `Zeroing`.
 */
module Tracing {
  import opened Bytecode

  /** Size in bytes of the container object behind each handle. */
  type Sizes = map<nat, nat>

  function SizeOf(env: Sizes, handle: nat): nat {
    if handle in env then env[handle] else 0
  }

  /** Visited locations, in order: a byte, or a container with the visits inside one of its elements. */
  datatype Atoms =
    | Nil
    | Byte(at: nat, rest: Atoms)
    | Box(at: nat, handle: nat, elem: Atoms, rest: Atoms)

  /** `k` times `s`, by repeated addition, the way an array steps over its elements. */
  function Times(k: nat, s: nat): nat {
    if k == 0 then 0 else s + Times(k - 1, s)
  }

  lemma {:induction false} TimesIsProduct(k: nat, s: nat)
    ensures Times(k, s) == k * s
  {
    if k > 0 {
      TimesIsProduct(k - 1, s);
      assert k * s == s + (k - 1) * s;
    }
  }

  lemma TimesStep(k: nat, s: nat)
    requires k > 0
    ensures Times(k, s) == s + Times(k - 1, s)
  {
  }

  /** Number of bytes a block advances over. */
  function Span(env: Sizes, c: Code): nat {
    match c
    case Done => 0
    case Memcpy(n, next) => n + Span(env, next)
    case Skip(n, next) => n + Span(env, next)
    case Array(k, b, next) => Times(k, Span(env, b)) + Span(env, next)
    case Container(h, _, next) => SizeOf(env, h) + Span(env, next)
  }

  /** The bytes from `off` on, then `tail`. */
  function Bytes(off: nat, n: nat, tail: Atoms): Atoms
    decreases n
  {
    if n == 0 then tail else Byte(off, Bytes(off + 1, n - 1, tail))
  }

  /** The visits of block `c` run from address `off`, followed by `tail`. */
  function Trace(env: Sizes, c: Code, off: nat, tail: Atoms): Atoms
    decreases c, 0
  {
    match c
    case Done => tail
    case Memcpy(n, next) => Bytes(off, n, Trace(env, next, off + n, tail))
    case Skip(n, next) => Trace(env, next, off + n, tail)
    case Array(k, b, next) =>
      Repeated(env, b, k, off, Trace(env, next, off + Times(k, Span(env, b)), tail))
    case Container(h, b, next) =>
      Box(off, h, Trace(env, b, 0, Nil), Trace(env, next, off + SizeOf(env, h), tail))
  }

  /** `k` runs of the block `b`, each starting where the previous one stopped, followed by `tail`. */
  function Repeated(env: Sizes, b: Code, k: nat, off: nat, tail: Atoms): Atoms
    decreases b, k + 1
  {
    if k == 0 then tail else Trace(env, b, off, Repeated(env, b, k - 1, off + Span(env, b), tail))
  }

  lemma {:induction false} BytesSplit(off: nat, m: nat, n: nat, tail: Atoms)
    ensures Bytes(off, m, Bytes(off + m, n, tail)) == Bytes(off, m + n, tail)
    decreases m
  {
    if m > 0 {
      BytesSplit(off + 1, m - 1, n, tail);
    }
  }

  lemma {:induction false} SpanAppend(env: Sizes, a: Code, b: Code)
    ensures Span(env, Append(a, b)) == Span(env, a) + Span(env, b)
  {
    if !a.Done? {
      SpanAppend(env, a.next, b);
    }
  }

  lemma {:induction false} TraceAppend(env: Sizes, a: Code, b: Code, off: nat, tail: Atoms)
    ensures Trace(env, Append(a, b), off, tail) == Trace(env, a, off, Trace(env, b, off + Span(env, a), tail))
    decreases a
  {
    match a
    case Done =>
    case Memcpy(n, next) => TraceAppend(env, next, b, off + n, tail);
    case Skip(n, next) => TraceAppend(env, next, b, off + n, tail);
    case Array(k, body, next) => TraceAppend(env, next, b, off + Times(k, Span(env, body)), tail);
    case Container(h, body, next) => TraceAppend(env, next, b, off + SizeOf(env, h), tail);
  }

  /** A repeated MEMCPY visits one contiguous range of bytes. */
  lemma {:induction false} RepeatedMemcpy(env: Sizes, m: nat, k: nat, off: nat, tail: Atoms)
    ensures Repeated(env, Memcpy(m, Done), k, off, tail) == Bytes(off, Times(k, m), tail)
    decreases k
  {
    if k > 0 {
      var more := Bytes(off + m, Times(k - 1, m), tail);
      RepeatedMemcpy(env, m, k - 1, off + m, tail);
      assert Span(env, Memcpy(m, Done)) == m && Trace(env, Memcpy(m, Done), off, more) == Bytes(off, m, more);
      BytesSplit(off, m, Times(k - 1, m), tail);
    }
  }

  lemma {:induction false} RepeatedSkip(env: Sizes, m: nat, k: nat, off: nat, tail: Atoms)
    ensures Repeated(env, Skip(m, Done), k, off, tail) == tail
    decreases k
  {
    if k > 0 {
      RepeatedSkip(env, m, k - 1, off + m, tail);
      assert Span(env, Skip(m, Done)) == m && Trace(env, Skip(m, Done), off, tail) == tail;
    }
  }

  lemma {:induction false} RepeatedDone(env: Sizes, k: nat, off: nat, tail: Atoms)
    ensures Repeated(env, Done, k, off, tail) == tail && Times(k, 0) == 0
    decreases k
  {
    if k > 0 {
      RepeatedDone(env, k - 1, off, tail);
    }
  }

  /** Atoms come in increasing address order, from `lo` on and below `hi`. */
  ghost predicate Within(t: Atoms, lo: nat, hi: nat) {
    t.Nil? || (lo <= t.at < hi && Within(t.rest, t.at + 1, hi))
  }

  lemma {:induction false} WithinLater(t: Atoms, lo: nat, lo': nat, hi: nat)
    requires Within(t, lo', hi) && lo <= lo'
    ensures Within(t, lo, hi)
  {
  }

  lemma {:induction false} BytesWithin(off: nat, n: nat, tail: Atoms, hi: nat)
    requires Within(tail, off + n, hi) && off + n <= hi
    ensures Within(Bytes(off, n, tail), off, hi)
    decreases n
  {
    if n > 0 {
      BytesWithin(off + 1, n - 1, tail, hi);
    }
  }

  /** Every container of the program, at any depth, is a known object of positive size. */
  ghost predicate Known(env: Sizes, c: Code) {
    match c
    case Done => true
    case Memcpy(_, next) => Known(env, next)
    case Skip(_, next) => Known(env, next)
    case Array(_, b, next) => Known(env, b) && Known(env, next)
    case Container(h, b, next) => h in env && env[h] > 0 && Known(env, b) && Known(env, next)
  }

  lemma {:induction false} TraceWithin(env: Sizes, c: Code, off: nat, tail: Atoms, hi: nat)
    requires Known(env, c) && Within(tail, off + Span(env, c), hi) && off + Span(env, c) <= hi
    ensures Within(Trace(env, c, off, tail), off, hi)
    decreases c, 0
  {
    match c
    case Done =>
    case Memcpy(n, next) =>
      TraceWithin(env, next, off + n, tail, hi);
      BytesWithin(off, n, Trace(env, next, off + n, tail), hi);
    case Skip(n, next) =>
      TraceWithin(env, next, off + n, tail, hi);
      WithinLater(Trace(env, next, off + n, tail), off, off + n, hi);
    case Array(k, b, next) =>
      var mid := off + Times(k, Span(env, b));
      TraceWithin(env, next, mid, tail, hi);
      RepeatedWithin(env, b, k, off, Trace(env, next, mid, tail), hi);
    case Container(h, b, next) =>
      var mid := off + SizeOf(env, h);
      TraceWithin(env, next, mid, tail, hi);
      WithinLater(Trace(env, next, mid, tail), off + 1, mid, hi);
  }

  lemma {:induction false} RepeatedWithin(env: Sizes, b: Code, k: nat, off: nat, tail: Atoms, hi: nat)
    requires Known(env, b)
    requires var end := off + Times(k, Span(env, b)); Within(tail, end, hi) && end <= hi
    ensures Within(Repeated(env, b, k, off, tail), off, hi)
    decreases b, k + 1
  {
    if k > 0 {
      var mid := off + Span(env, b);
      RepeatedWithin(env, b, k - 1, mid, tail, hi);
      TraceWithin(env, b, off, Repeated(env, b, k - 1, mid, tail), hi);
    }
  }

  /** Only bytes are visited. */
  ghost predicate NoBox(t: Atoms) {
    t.Nil? || (t.Byte? && NoBox(t.rest))
  }

  lemma {:induction false} BytesNoBox(off: nat, n: nat, tail: Atoms)
    requires NoBox(tail)
    ensures NoBox(Bytes(off, n, tail))
    decreases n
  {
    if n > 0 {
      BytesNoBox(off + 1, n - 1, tail);
    }
  }
}
