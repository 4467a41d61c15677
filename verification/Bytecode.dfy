/**
 The bytecode of a memory layout.

 A layout is a flat vector of words. `Code` is the block structure that such a
 vector spells out; `Words` is the vector that spells a given structure, and
 `Reads` says that a structure stands at some position of a longer vector, which
 is what every interpreter and the optimiser need to know about their input.
 */
module Bytecode {
  import opened Seqs

  const MEMCPY: nat := 0
  const ARRAY: nat := 1
  const CONTAINER: nat := 2
  const SKIP: nat := 3
  const END: nat := 4

  /** The operations of one block, in order. */
  datatype Code =
    | Done
    | Memcpy(n: nat, next: Code)
    | Skip(n: nat, next: Code)
    | Array(count: nat, body: Code, next: Code)
    | Container(handle: nat, body: Code, next: Code)

  /** The flat vector of a block. */
  function Words(c: Code): (w: seq<nat>)
    ensures |w| == Len(c)
  {
    match c
    case Done => []
    case Memcpy(n, next) => [MEMCPY, n] + Words(next)
    case Skip(n, next) => [SKIP, n] + Words(next)
    case Array(k, b, next) => [ARRAY, k] + Words(b) + [END] + Words(next)
    case Container(h, b, next) => [CONTAINER, h] + Words(b) + [END] + Words(next)
  }

  function Len(c: Code): nat {
    match c
    case Done => 0
    case Memcpy(_, next) => 2 + Len(next)
    case Skip(_, next) => 2 + Len(next)
    case Array(_, b, next) => 3 + Len(b) + Len(next)
    case Container(_, b, next) => 3 + Len(b) + Len(next)
  }

  predicate HasBody(c: Code) {
    c.Array? || c.Container?
  }

  /** The first operation, with its block and the END of that block. */
  function HeadLen(c: Code): (n: nat)
    requires !c.Done?
    ensures n >= 2 && Len(c) == n + Len(c.next)
  {
    if HasBody(c) then 3 + Len(c.body) else 2
  }

  function HeadWords(c: Code): (w: seq<nat>)
    requires !c.Done?
    ensures |w| == HeadLen(c) && Words(c) == w + Words(c.next)
  {
    match c
    case Memcpy(n, _) => [MEMCPY, n]
    case Skip(n, _) => [SKIP, n]
    case Array(k, b, _) => [ARRAY, k] + Words(b) + [END]
    case Container(h, b, _) => [CONTAINER, h] + Words(b) + [END]
  }

  function Append(a: Code, b: Code): Code {
    match a
    case Done => b
    case Memcpy(n, next) => Memcpy(n, Append(next, b))
    case Skip(n, next) => Skip(n, Append(next, b))
    case Array(k, body, next) => Array(k, body, Append(next, b))
    case Container(h, body, next) => Container(h, body, Append(next, b))
  }

  lemma {:induction false} WordsAppend(a: Code, b: Code)
    ensures Words(Append(a, b)) == Words(a) + Words(b)
  {
    if a.Done? {
      assert [] + Words(b) == Words(b);
    } else {
      WordsAppend(a.next, b);
      assert HeadWords(Append(a, b)) == HeadWords(a);
      Regroup(HeadWords(a), Words(a.next), Words(b));
    }
  }

  /**
   The words from position `i` on spell the block `c`, and the block stops there:
   the next word is END or the vector is over.
   */
  ghost predicate Reads(w: seq<nat>, i: nat, c: Code)
    decreases c
  {
    match c
    case Done => i <= |w| && (i < |w| ==> w[i] == END)
    case Memcpy(n, next) => i + 2 <= |w| && w[i] == MEMCPY && w[i + 1] == n && Reads(w, i + 2, next)
    case Skip(n, next) => i + 2 <= |w| && w[i] == SKIP && w[i + 1] == n && Reads(w, i + 2, next)
    case Array(k, b, next) =>
      && i + 2 <= |w| && w[i] == ARRAY && w[i + 1] == k
      && Reads(w, i + 2, b) && i + 2 + Len(b) < |w| && Reads(w, i + 3 + Len(b), next)
    case Container(h, b, next) =>
      && i + 2 <= |w| && w[i] == CONTAINER && w[i + 1] == h
      && Reads(w, i + 2, b) && i + 2 + Len(b) < |w| && Reads(w, i + 3 + Len(b), next)
  }

  /** The first operation stands at `i`, and the rest of the block right behind it. */
  lemma ReadsNext(w: seq<nat>, i: nat, c: Code)
    requires Reads(w, i, c) && !c.Done?
    ensures i + HeadLen(c) <= |w| && w[i] != END
    ensures Reads(w, i + HeadLen(c), c.next)
  {
  }

  lemma {:induction false} ReadsStops(w: seq<nat>, i: nat, c: Code)
    requires Reads(w, i, c)
    ensures i + Len(c) <= |w|
    ensures i + Len(c) < |w| ==> w[i + Len(c)] == END
    decreases c
  {
    if !c.Done? {
      ReadsNext(w, i, c);
      ReadsStops(w, i + HeadLen(c), c.next);
    }
  }

  /** The words `s` are written in `w` from position `i` on. */
  ghost predicate Holds(w: seq<nat>, i: nat, s: seq<nat>) {
    i + |s| <= |w| && forall j :: 0 <= j < |s| ==> w[i + j] == s[j]
  }

  lemma HoldsSplit(w: seq<nat>, i: nat, a: seq<nat>, b: seq<nat>)
    requires Holds(w, i, a + b)
    ensures Holds(w, i, a) && Holds(w, i + |a|, b)
  {
    assert forall j :: 0 <= j < |a| ==> (a + b)[j] == a[j];
    forall j | 0 <= j < |b| ensures w[i + |a| + j] == b[j] {
      assert (a + b)[|a| + j] == b[j];
    }
  }

  lemma HoldsPair(w: seq<nat>, i: nat, op: nat, arg: nat, rest: seq<nat>)
    requires Holds(w, i, [op, arg] + rest)
    ensures i + 2 <= |w| && w[i] == op && w[i + 1] == arg && Holds(w, i + 2, rest)
  {
    var pair := [op, arg];
    HoldsSplit(w, i, pair, rest);
    assert pair[0] == op && pair[1] == arg;
  }

  lemma HoldsNested(w: seq<nat>, i: nat, op: nat, arg: nat, b: seq<nat>, rest: seq<nat>)
    requires Holds(w, i, [op, arg] + b + [END] + rest)
    ensures i + 2 + |b| < |w| && w[i] == op && w[i + 1] == arg && w[i + 2 + |b|] == END
    ensures Holds(w, i + 2, b) && Holds(w, i + 3 + |b|, rest)
  {
    HoldsSplit(w, i, [op, arg] + b + [END], rest);
    HoldsSplit(w, i, [op, arg] + b, [END]);
    assert [END][0] == END;
    HoldsPair(w, i, op, arg, b);
  }

  /** A block is read back wherever its words are written. */
  lemma {:induction false} ReadsWords(w: seq<nat>, i: nat, c: Code)
    requires Holds(w, i, Words(c)) && (i + Len(c) < |w| ==> w[i + Len(c)] == END)
    ensures Reads(w, i, c)
    decreases c, 1
  {
    if HasBody(c) {
      ReadsWordsNested(w, i, c);
    } else if !c.Done? {
      HoldsPair(w, i, if c.Memcpy? then MEMCPY else SKIP, c.n, Words(c.next));
      ReadsWords(w, i + 2, c.next);
    }
  }

  lemma {:induction false} ReadsWordsNested(w: seq<nat>, i: nat, c: Code)
    requires HasBody(c) && Holds(w, i, Words(c)) && (i + Len(c) < |w| ==> w[i + Len(c)] == END)
    ensures Reads(w, i, c)
    decreases c, 0
  {
    if c.Array? {
      HoldsNested(w, i, ARRAY, c.count, Words(c.body), Words(c.next));
    } else {
      HoldsNested(w, i, CONTAINER, c.handle, Words(c.body), Words(c.next));
    }
    ReadsWords(w, i + 2, c.body);
    ReadsWords(w, i + 3 + Len(c.body), c.next);
  }

  /** Two structures read at the same place are the same: the encoding is unambiguous. */
  lemma {:induction false} ReadsUnique(w: seq<nat>, i: nat, c: Code, d: Code)
    requires Reads(w, i, c) && Reads(w, i, d)
    ensures c == d
    decreases c
  {
    if !c.Done? {
      if HasBody(c) {
        ReadsUnique(w, i + 2, c.body, d.body);
      }
      ReadsUnique(w, i + HeadLen(c), c.next, d.next);
    }
  }

  // ----- finding the end of a block -----

  /**
   The unread part of a run that is `|todo| - 1` blocks deep: `todo[0]` is what is
   left of the innermost block, `todo[1]` what follows once that block is closed,
   and so on outwards.
   */
  ghost predicate ReadsDeep(w: seq<nat>, i: nat, todo: seq<Code>)
    requires todo != []
    decreases |todo|
  {
    && Reads(w, i, todo[0])
    && (|todo| > 1 ==> i + Len(todo[0]) < |w| && ReadsDeep(w, i + Len(todo[0]) + 1, todo[1..]))
  }

  /** Where the outermost block of `todo` stops. */
  ghost function DeepEnd(i: nat, todo: seq<Code>): nat
    requires todo != []
    decreases |todo|
  {
    if |todo| == 1 then i + Len(todo[0]) else DeepEnd(i + Len(todo[0]) + 1, todo[1..])
  }

  lemma DeepNext(w: seq<nat>, i: nat, c: Code, outer: seq<Code>)
    requires (c.Memcpy? || c.Skip?) && ReadsDeep(w, i, [c] + outer)
    ensures ReadsDeep(w, i + 2, [c.next] + outer)
    ensures DeepEnd(i, [c] + outer) == DeepEnd(i + 2, [c.next] + outer)
  {
    assert ([c] + outer)[1..] == outer == ([c.next] + outer)[1..];
  }

  lemma DeepEnter(w: seq<nat>, i: nat, c: Code, outer: seq<Code>)
    requires HasBody(c) && ReadsDeep(w, i, [c] + outer)
    ensures ReadsDeep(w, i + 2, [c.body, c.next] + outer)
    ensures DeepEnd(i, [c] + outer) == DeepEnd(i + 2, [c.body, c.next] + outer)
  {
    assert ([c] + outer)[1..] == outer;
    assert ([c.body, c.next] + outer)[1..] == [c.next] + outer;
    assert ([c.next] + outer)[1..] == outer;
  }

  /**
   `MemoryLayout::skipBlock`: one pass with a nesting counter. It stops on the END of the
   block that starts at `begin`, whether `begin` is the first word of the block or the
   container handle in front of it.
   */
  method SkipBlock(w: seq<nat>, begin: nat, ghost c: Code) returns (it: nat)
    requires Reads(w, begin, c) || (begin < |w| && w[begin] > END && Reads(w, begin + 1, c))
    ensures Reads(w, begin, c) ==> it == begin + Len(c)
    ensures !Reads(w, begin, c) ==> it == begin + 1 + Len(c)
  {
    var nesting := 0;
    it := begin;
    ghost var todo := [c];
    ghost var target := if Reads(w, begin, c) then begin + Len(c) else begin + 1 + Len(c);
    ReadsStops(w, if Reads(w, begin, c) then begin else begin + 1, c);
    while it != |w|
      invariant it <= |w| && |todo| == nesting + 1
      invariant (ReadsDeep(w, it, todo) && DeepEnd(it, todo) == target)
        || (it == begin && it < |w| && w[it] > END && todo == [c] && ReadsDeep(w, it + 1, todo) && DeepEnd(it + 1, todo) == target)
      decreases |w| - it
    {
      ghost var outer := todo[1..];
      assert todo == [todo[0]] + outer;
      if w[it] == ARRAY || w[it] == CONTAINER {
        DeepEnter(w, it, todo[0], outer);
        todo := [todo[0].body, todo[0].next] + outer;
        it := it + 1;
        nesting := nesting + 1;
      } else if w[it] == END {
        if nesting == 0 {
          return;
        }
        todo := outer;
        nesting := nesting - 1;
      } else if w[it] == SKIP || w[it] == MEMCPY {
        DeepNext(w, it, todo[0], outer);
        todo := [todo[0].next] + outer;
        it := it + 1;
      }
      it := it + 1;
    }
  }

  /** A handle is not the start of a block. */
  lemma ReadsHandle(w: seq<nat>, start: nat, c: Code)
    requires c.Container? && c.handle > END && Reads(w, start, c)
    ensures start + 1 < |w| && w[start + 1] > END && Reads(w, start + 2, c.body) && !Reads(w, start + 1, c.body)
  {
  }
}
