/** `CompileEndianSwapVisitor::swap`: running the words of a swap program from one buffer into another. */
module EndianExec {
  import opened Tracing
  import opened Octets
  import opened Types
  import opened EndianCode
  import opened EndianCompiler
  import opened EndianSwap
  import opened EndianRun
  import opened EndianTheorems
  import opened Places
  import opened SwapPlaces

  // ----- reading programs -----

  /** The words from `i` on spell `c`, followed by END or the end of the vector. */
  ghost predicate Reads(w: seq<int>, i: nat, c: Code)
    decreases c
  {
    match c
    case Done => i <= |w| && (i < |w| ==> w[i] == FLAG_END)
    case Skip(n, next) => i + 2 <= |w| && w[i] == FLAG_SKIP && w[i + 1] == n && Reads(w, i + 2, next)
    case Swap(width, next) =>
      i < |w| && w[i] == (if width == 4 then FLAG_SWAP_4 else FLAG_SWAP_8) && Reads(w, i + 1, next)
    case Take(index, next) => i < |w| && w[i] == index && Reads(w, i + 1, next)
    case Array(count, size, body, next) =>
      && i + 3 <= |w| && w[i] == FLAG_ARRAY && w[i + 1] == count && w[i + 2] == size
      && Reads(w, i + 3, body) && i + 3 + Len(body) < |w| && Reads(w, i + 4 + Len(body), next)
  }

  function StepLen(c: Code): (n: nat)
    requires !c.Done?
    ensures n > 0 && Len(c) == n + Len(c.next)
  {
    match c
    case Skip(_, _) => 2
    case Swap(_, _) => 1
    case Take(_, _) => 1
    case Array(_, _, body, _) => 4 + Len(body)
  }

  lemma ReadsNext(w: seq<int>, i: nat, c: Code)
    requires Reads(w, i, c) && !c.Done?
    ensures i + StepLen(c) <= |w| && w[i] != FLAG_END && Reads(w, i + StepLen(c), c.next)
  {
  }

  lemma {:induction false} ReadsStops(w: seq<int>, i: nat, c: Code)
    requires Reads(w, i, c)
    ensures i + Len(c) <= |w| && (i + Len(c) < |w| ==> w[i + Len(c)] == FLAG_END)
    decreases c
  {
    if !c.Done? {
      ReadsNext(w, i, c);
      ReadsStops(w, i + StepLen(c), c.next);
    }
  }

  /** The words `s` are written in `w` from position `i` on. */
  ghost predicate Holds(w: seq<int>, i: nat, s: seq<int>) {
    i + |s| <= |w| && forall j :: 0 <= j < |s| ==> w[i + j] == s[j]
  }

  lemma HoldsSplit(w: seq<int>, i: nat, a: seq<int>, b: seq<int>)
    requires Holds(w, i, a + b)
    ensures Holds(w, i, a) && Holds(w, i + |a|, b)
  {
    assert forall j :: 0 <= j < |a| ==> (a + b)[j] == a[j];
    forall j | 0 <= j < |b| ensures w[i + |a| + j] == b[j] {
      assert (a + b)[|a| + j] == b[j];
    }
  }

  /** A program is read back wherever its words are written. */
  lemma {:induction false} ReadsWords(w: seq<int>, i: nat, c: Code)
    requires Holds(w, i, Words(c)) && (i + Len(c) < |w| ==> w[i + Len(c)] == FLAG_END)
    ensures Reads(w, i, c)
    decreases c, 1
  {
    if !c.Done? {
      WordsOfStep(c, c.next);
      HoldsSplit(w, i, StepWords(c), Words(c.next));
      ReadsWords(w, i + StepLen(c), c.next);
      ReadsStep(w, i, c);
    }
  }

  lemma {:induction false} ReadsStep(w: seq<int>, i: nat, c: Code)
    requires !c.Done? && Holds(w, i, StepWords(c)) && Reads(w, i + StepLen(c), c.next)
    ensures Reads(w, i, c)
    decreases c, 0
  {
    var s := StepWords(c);
    assert w[i] == s[0];
    match c
    case Skip(_, _) => assert w[i + 1] == s[1];
    case Array(count, size, body, _) =>
      var head := [FLAG_ARRAY, count, size];
      HoldsSplit(w, i, head + Words(body), [FLAG_END]);
      HoldsSplit(w, i, head, Words(body));
      assert w[i + 1] == head[1] && w[i + 2] == head[2] && w[i + 3 + Len(body) + 0] == [FLAG_END][0];
      ReadsWords(w, i + 3, body);
    case _ =>
  }

  // ----- single operations -----

  lemma {:induction false} BackFits(off: nat, n: nat, tail: Feed, o: nat, bytes: seq<octet>, input: seq<octet>)
    requires Pour(Back(off, n, tail), o, bytes, input).Poured?
    ensures n > 0 ==> o + n <= |bytes| && off + n <= |input|
    decreases n
  {
    if n > 0 {
      BackFits(off, n - 1, tail, o + 1, bytes[o := input[off + n - 1]], input);
    }
  }

  /** No array is empty: after an empty one, the interpreter goes on from an iterator that nothing has set. */
  ghost predicate Counted(c: Code) {
    c.Done? || ((c.Array? ==> c.count > 0 && Counted(c.body)) && Counted(c.next))
  }

  // ----- the interpreter -----

  /** Bytes copied one by one. */
  method CopyBytes(n: nat, off0: nat, input: seq<octet>, output: array<octet>, ghost tail: Feed, ghost goal: Poured) returns (off: nat)
    requires goal.Poured? && Pour(Same(off0, n, tail), off0, output[..], input) == goal
    modifies output
    ensures off == off0 + n && Pour(tail, off, output[..], input) == goal
  {
    off := off0;
    for i := 0 to n
      invariant off == off0 + i && Pour(Same(off, n - i, tail), off, output[..], input) == goal
    {
      ghost var was := output[..];
      output[off] := input[off];
      assert output[..] == was[off := input[off]];
      off := off + 1;
    }
  }

  /** `Endian::swap` of the bytes at `off`, which `EndianBits` shows to be their reversal. */
  method SwapBytes(n: nat, off: nat, input: seq<octet>, output: array<octet>, ghost tail: Feed, ghost goal: Poured)
    requires n > 0 && goal.Poured? && Pour(Back(off, n, tail), off, output[..], input) == goal
    modifies output
    ensures Pour(tail, off + n, output[..], input) == goal
  {
    BackFits(off, n, tail, off, output[..], input);
    PourBack(off, n, tail, off, output[..], input);
    var s := Reversed(input[off..off + n]);
    ghost var was := output[..];
    for i := 0 to n
      invariant output[..] == Over(was, off, s[..i])
    {
      ghost var now := output[..];
      output[off + i] := s[i];
      assert output[..] == now[off + i := s[i]];
      OverNext(was, off, s, i);
    }
    assert s[..n] == s;
  }

  lemma OverNext(bytes: seq<octet>, o: nat, s: seq<octet>, i: nat)
    requires i < |s| && o + |s| <= |bytes|
    ensures Over(bytes, o, s[..i])[o + i := s[i]] == Over(bytes, o, s[..i + 1])
  {
  }

  datatype Spot = Astray | Amid(whole: Code)

  /** Where the words from `it` on spell `rest`, what is left of `c`. */
  ghost function SpotOf(w: seq<int>, it: nat, rest: Code, c: Code): Spot {
    if Reads(w, it, rest) && Counted(c) == Counted(rest) then Amid(c) else Astray
  }

  lemma SpotNext(w: seq<int>, it: nat, rest: Code, c: Code)
    requires SpotOf(w, it, rest, c) == Amid(c) && it < |w| && w[it] != FLAG_END
    ensures !rest.Done? && Reads(w, it, rest) && it + StepLen(rest) <= |w|
    ensures if StepCounted(rest) then SpotOf(w, it + StepLen(rest), rest.next, c) == Amid(c) else !Counted(c)
  {
    ReadsNext(w, it, rest);
  }

  lemma SpotEnd(w: seq<int>, it: nat, rest: Code, c: Code)
    requires SpotOf(w, it, rest, c) == Amid(c) && (it == |w| || (it < |w| && w[it] == FLAG_END))
    ensures rest.Done? && Counted(c)
  {
    if !rest.Done? {
      ReadsNext(w, it, rest);
    }
  }

  ghost predicate StepCounted(c: Code) {
    c.Array? ==> c.count > 0 && Counted(c.body)
  }

  lemma RunNext(c: Code, out: nat, inp: nat, bytes: seq<octet>, input: seq<octet>, goal: Poured) returns (tail: Feed)
    requires !c.Done? && Pour(Run(c, out, inp, Stop), out, bytes, input) == goal
    ensures Reach(c) == StepReach(c) + Reach(c.next) && Pour(Step(c, out, inp, tail), out, bytes, input) == goal
    ensures tail == Run(c.next, out + StepReach(c), inp, Stop)
  {
    tail := Run(c.next, out + StepReach(c), inp, Stop);
  }

  method SwapFrom(w: seq<int>, begin: nat, out0: nat, inp: nat, input: seq<octet>, output: array<octet>, ghost c: Code)
    returns (off: nat, it: nat, ok: bool)
    requires Reads(w, begin, c) && Pour(Run(c, out0, inp, Stop), out0, output[..], input).Poured?
    modifies output
    ensures ok <==> Counted(c)
    ensures ok ==> Pour(Run(c, out0, inp, Stop), out0, old(output[..]), input) == Poured(output[..])
    ensures ok ==> off == out0 + Reach(c) && it == begin + Len(c)
    decreases |w| - begin, 2
  {
    ghost var goal := Pour(Run(c, out0, inp, Stop), out0, output[..], input);
    ghost var rest := c;
    off, it, ok := out0, begin, true;
    ReadsStops(w, begin, c);
    assert SpotOf(w, begin, c, c) == Amid(c);
    while it != |w| && w[it] != FLAG_END
      invariant begin <= it <= |w| && it + Len(rest) == begin + Len(c) && off + Reach(rest) == out0 + Reach(c)
      invariant SpotOf(w, it, rest, c) == Amid(c) && goal.Poured?
      invariant Pour(Run(rest, off, inp, Stop), off, output[..], input) == goal
      decreases |w| - it
    {
      SpotNext(w, it, rest, c);
      ghost var tail := RunNext(rest, off, inp, output[..], input, goal);
      off, it, ok := SwapNext(w, it, off, inp, input, output, rest, tail, goal);
      if !ok {
        return;
      }
      rest := rest.next;
    }
    SpotEnd(w, it, rest, c);
  }

  /** One turn of the loop, on the operation at `start`. */
  method SwapNext(w: seq<int>, start: nat, out0: nat, inp: nat, input: seq<octet>, output: array<octet>, ghost c: Code, ghost tail: Feed, ghost goal: Poured)
    returns (off: nat, it: nat, ok: bool)
    requires !c.Done? && Reads(w, start, c) && goal.Poured? && Pour(Step(c, out0, inp, tail), out0, output[..], input) == goal
    modifies output
    ensures ok <==> StepCounted(c)
    ensures ok ==> off == out0 + StepReach(c) && it == start + StepLen(c) && Pour(tail, off, output[..], input) == goal
    decreases |w| - start, 1
  {
    off, it, ok := out0, start, true;
    if w[it] == FLAG_SKIP {
      it := it + 1;
      off := CopyBytes(w[it], off, input, output, tail, goal);
    } else if w[it] == FLAG_SWAP_4 {
      SwapBytes(4, off, input, output, tail, goal);
      off := off + 4;
    } else if w[it] == FLAG_SWAP_8 {
      SwapBytes(8, off, input, output, tail, goal);
      off := off + 8;
    } else if w[it] == FLAG_ARRAY {
      off, it, ok := SwapArray(w, it, off, inp, input, output, c, tail, goal);
    } else {
      ghost var was := output[..];
      output[off] := input[inp + w[it]];
      assert output[..] == was[off := input[inp + c.index]];
      off := off + 1;
    }
    it := it + 1;
  }

  method SwapArray(w: seq<int>, start: nat, out0: nat, inp: nat, input: seq<octet>, output: array<octet>, ghost c: Code, ghost tail: Feed, ghost goal: Poured)
    returns (off: nat, it: nat, ok: bool)
    requires c.Array? && Reads(w, start, c) && goal.Poured?
    requires Pour(RunEach(c.body, c.size, c.count, out0, inp, tail), out0, output[..], input) == goal
    modifies output
    ensures ok <==> c.count > 0 && Counted(c.body)
    ensures ok ==> off == out0 + Times(c.count, Reach(c.body)) && it == start + 3 + Len(c.body) && Pour(tail, off, output[..], input) == goal
    decreases |w| - start, 0
  {
    ghost var body, end := c.body, out0 + Times(c.count, Reach(c.body));
    var count, size, element := w[start + 1], w[start + 2], start + 3;
    off, it, ok := out0, element, count > 0;
    var i, moved: nat := 0, inp;
    ghost var left := count;
    while i < count
      invariant 0 <= i <= count && left == count - i && ok == (count > 0)
      invariant i > 0 ==> it == element + Len(body) && Counted(body)
      invariant off + Times(left, Reach(body)) == end
      invariant Pour(RunEach(body, size, left, off, moved, tail), off, output[..], input) == goal
    {
      TimesStep(left, Reach(body));
      EachFirst(body, size, left, off, moved, tail);
      PourBlock(body, off, moved, RunEach(body, size, left - 1, off + Reach(body), moved + size, tail), output[..], input);
      off, it, ok := SwapFrom(w, element, off, moved, input, output, body);
      if !ok {
        return;
      }
      i, left, moved := i + 1, left - 1, moved + size;
    }
  }

  // ----- the value is large enough for its program -----

  /** Every position read by index is below `lim`. */
  ghost predicate Indexed(c: Code, lim: int) {
    match c
    case Done => true
    case Skip(_, next) => Indexed(next, lim)
    case Swap(_, next) => Indexed(next, lim)
    case Take(index, next) => index < lim && Indexed(next, lim)
    case Array(count, size, body, next) =>
      (count > 0 ==> Indexed(body, lim - Times(count - 1, size))) && Indexed(next, lim)
  }

  lemma {:induction false} IndexedMore(c: Code, lim: int, more: int)
    requires Indexed(c, lim) && lim <= more
    ensures Indexed(c, more)
    decreases c
  {
    if !c.Done? {
      IndexedMore(c.next, lim, more);
      if c.Array? && c.count > 0 {
        IndexedMore(c.body, lim - Times(c.count - 1, c.size), more - Times(c.count - 1, c.size));
      }
    }
  }

  lemma {:induction false} IndexedAppend(a: Code, b: Code, lim: int)
    requires Indexed(a, lim) && Indexed(b, lim)
    ensures Indexed(Append(a, b), lim)
  {
    if !a.Done? {
      IndexedAppend(a.next, b, lim);
    }
  }

  lemma {:induction false} IndexedSkip(c: Code, n: nat, lim: int)
    requires Indexed(c, lim)
    ensures Indexed(AddSkip(c, n), lim)
  {
    if !c.Done? {
      IndexedSkip(c.next, n, lim);
    }
  }

  lemma {:induction false} IndexedTakes(idx: nat, n: nat, lim: int)
    requires idx + n <= lim
    ensures Indexed(Takes(idx, n), lim)
    decreases n
  {
    if n > 0 {
      IndexedTakes(idx, n - 1, lim);
    }
  }

  lemma {:induction false} EmittedIndexed(c: Code, t: Type, idx: nat, lim: int)
    requires Swappable(t) && Ordered(t) && Indexed(c, lim) && idx + End(t) <= lim
    ensures Indexed(Emitted(c, t, idx), lim)
    decreases t, 1
  {
    match t
    case NumericType(size) =>
      IndexedSkip(c, 1, lim);
      IndexedTakes(idx, if size == 2 then 2 else 0, lim);
      IndexedAppend(c, if size == 2 then Takes(idx, 2) else if size == 4 then Swap(4, Done) else Swap(8, Done), lim);
    case EnumType(_, _) =>
      IndexedTakes(idx, 4, lim);
      IndexedAppend(c, Takes(idx, 4), lim);
    case ArrayType(dimension, elem) =>
      ArrayOpIndexed(dimension, elem, idx, lim);
      IndexedAppend(c, ArrayOp(dimension, elem, idx), lim);
    case CompoundType(fields, size) => EmittedFieldsIndexed(c, fields, 0, size, idx, idx, lim);
    case _ =>
  }

  lemma {:induction false} EmittedFieldsIndexed(c: Code, fs: Fields, at: nat, size: nat, base: nat, idx: nat, lim: int)
    requires SwappableFields(fs) && OrderedFields(fs, at, size) && Indexed(c, lim) && idx == base + at
    requires fs.FieldAt? ==> base + EndOf(fs) <= lim
    ensures Indexed(EmittedFields(c, fs, base, idx), lim)
    decreases fs, 1
  {
    if fs.FieldAt? {
      var start, next := base + fs.offset, fs.offset + Size(fs.typ);
      var d := if start > idx then AddSkip(c, start - idx) else c;
      IndexedSkip(c, start - idx, lim);
      TightIsExact(fs.typ);
      if fs.rest.FieldAt? {
        TightFieldsAreExact(fs.rest, next, size);
      }
      EmittedIndexed(d, fs.typ, start, lim);
      EmittedFieldsIndexed(Emitted(d, fs.typ, start), fs.rest, next, size, base, base + next, lim);
    }
  }

  lemma {:induction false} ArrayOpIndexed(k: nat, elem: Type, idx: nat, lim: int)
    requires k > 0 && Swappable(elem) && Ordered(elem) && idx + Times(k - 1, Size(elem)) + End(elem) <= lim
    ensures Indexed(ArrayOp(k, elem, idx), lim)
    decreases elem, 2
  {
    if elem.ArrayType? {
      var m, e := elem.dimension, elem.elem;
      ArrayOpFlattens(k, m, e, idx);
      FlatSize(k, m, Size(e));
      ArrayOpIndexed(Times(k, m), e, idx, lim);
    } else {
      EmittedIndexed(Done, elem, idx, lim - Times(k - 1, Size(elem)));
    }
  }

  lemma {:induction false} TimesSum(a: nat, b: nat, n: nat)
    ensures Times(a + b, n) == Times(a, n) + Times(b, n)
  {
    if a > 0 {
      TimesSum(a - 1, b, n);
    }
  }

  lemma FlatSize(k: nat, m: nat, n: nat)
    requires k > 0 && m > 0
    ensures Times(k, m) > 0 && Times(Times(k, m) - 1, n) == Times(k - 1, Times(m, n)) + Times(m - 1, n)
  {
    TimesStep(k, m);
    TimesAssoc(k - 1, m, n);
    TimesSum(Times(k - 1, m), m - 1, n);
  }

  /** Every byte of the feed comes from below `lim`. */
  ghost predicate Bounded(feed: Feed, lim: int) {
    feed.From? ==> feed.src < lim && Bounded(feed.rest, lim)
  }

  lemma {:induction false} SameBounded(off: nat, n: nat, tail: Feed, lim: int)
    requires Bounded(tail, lim) && off + n <= lim
    ensures Bounded(Same(off, n, tail), lim)
    decreases n
  {
    if n > 0 {
      SameBounded(off + 1, n - 1, tail, lim);
    }
  }

  lemma {:induction false} BackBounded(off: nat, n: nat, tail: Feed, lim: int)
    requires Bounded(tail, lim) && off + n <= lim
    ensures Bounded(Back(off, n, tail), lim)
    decreases n
  {
    if n > 0 {
      BackBounded(off, n - 1, tail, lim);
    }
  }

  lemma {:induction false} RunBounded(c: Code, out: nat, inp: nat, tail: Feed, lim: int)
    requires Indexed(c, lim - inp) && out + Reach(c) <= lim && Bounded(tail, lim)
    ensures Bounded(Run(c, out, inp, tail), lim)
    decreases c, 1
  {
    if !c.Done? {
      var mid := out + StepReach(c);
      RunBounded(c.next, mid, inp, tail, lim);
      var later := Run(c.next, mid, inp, tail);
      match c
      case Skip(n, _) => SameBounded(out, n, later, lim);
      case Swap(width, _) => BackBounded(out, width, later, lim);
      case Take(_, _) =>
      case Array(count, size, body, _) => EachBounded(body, size, count, out, inp, later, lim);
    }
  }

  lemma {:induction false} EachBounded(body: Code, size: nat, k: nat, out: nat, inp: nat, tail: Feed, lim: int)
    requires (k > 0 ==> Indexed(body, lim - inp - Times(k - 1, size))) && out + Times(k, Reach(body)) <= lim && Bounded(tail, lim)
    ensures Bounded(RunEach(body, size, k, out, inp, tail), lim)
    decreases body, k + 2
  {
    if k > 0 {
      var mid := out + Reach(body);
      EachFirst(body, size, k, out, inp, tail);
      if k > 1 {
        TimesStep(k - 1, size);
      }
      EachBounded(body, size, k - 1, mid, inp + size, tail, lim);
      IndexedMore(body, lim - inp - Times(k - 1, size), lim - inp);
      RunBounded(body, out, inp, RunEach(body, size, k - 1, mid, inp + size, tail), lim);
    }
  }

  lemma {:induction false} BoundedPours(feed: Feed, o: nat, bytes: seq<octet>, input: seq<octet>)
    requires Bounded(feed, |input|) && o + Length(feed) <= |bytes|
    ensures Pour(feed, o, bytes, input).Poured?
    decreases feed
  {
    if feed.From? {
      BoundedPours(feed.rest, o + 1, bytes[o := input[feed.src]], input);
    }
  }

  /** Tight or not, the program of a type neither reads nor writes past the last leaf. */
  lemma CompiledStaysInside(t: Type, bytes: seq<octet>, input: seq<octet>)
    requires Swappable(t) && Ordered(t) && End(t) <= |bytes| && End(t) <= |input|
    ensures Compiled(t, bytes, input).Poured?
  {
    var c := Emitted(Done, t, 0);
    TightIsExact(t);
    EmittedReach(Done, t, 0);
    EmittedIndexed(Done, t, 0, |input|);
    RunBounded(c, 0, 0, Stop, |input|);
    RunThen(c, 0, 0, Stop, Stop);
    BoundedPours(Run(c, 0, 0, Stop), 0, bytes, input);
  }

  /** Two structures of an integer and a flag, with three bytes of padding behind each flag. */
  function Padded(): Type {
    ArrayType(2, CompoundType(FieldAt("value", 0, NumericType(4), FieldAt("flag", 4, NumericType(1), NoMore)), 8))
  }

  /** The flag of the second structure stays what the output held, here 0, instead of 1. */
  lemma PaddedIsLoose(input: seq<octet>)
    requires |input| == 13 && input[12] == 1
    ensures Swappable(Padded()) && Ordered(Padded()) && !Tight(Padded()) && End(Padded()) == 13
    ensures var r := Compiled(Padded(), EndianTheorems.Filled(13, 0), input);
            r.Poured? && r.bytes[12] == 0 && Swapped(Padded(), input)[12] == 1
  {
    var t := Padded();
    var fields := t.elem.fields;
    assert EndOf(fields) == EndOf(fields.rest) == 5 && End(t.elem) == 5 && Pad(t.elem) == 3;
    assert Times(1, 8) == 8 && End(t) == 13;
    CompiledStaysInside(t, EndianTheorems.Filled(13, 0), input);
    LooseFallsShort(t, EndianTheorems.Filled(13, 0), input);
    var flag := Leaf(12, 1, NoLeaf);
    var rest := Leaf(4, 1, Leaf(8, 4, flag));
    assert LeavesOf(t, 0, NoLeaf) == Leaf(0, 4, rest) by {
      assert LeavesFields(fields, 8, NoLeaf) == Leaf(8, 4, flag);
      assert LeavesFields(fields, 0, Leaf(8, 4, flag)) == Leaf(0, 4, rest);
      assert LeavesEach(t.elem, 1, 8, NoLeaf) == LeavesOf(t.elem, 8, NoLeaf);
    }
    LastLeaf(Leaf(0, 4, rest), 12, input);
  }

  /** A leaf of one byte at the end keeps its value. */
  lemma {:induction false} LastLeaf(ls: Leaves, at: nat, mem: seq<octet>)
    requires at < |mem| && Ends(ls, at)
    ensures InPlace(ls, mem)[at] == mem[at]
    decreases ls
  {
    var m := Over(mem, ls.at, Reversed(mem[ls.at..ls.at + ls.n]));
    FirstInPlace(ls, mem, m);
    if ls.rest.Leaf? {
      LastLeaf(ls.rest, at, m);
    } else {
      assert Reversed(mem[at..at + 1]) == [mem[at]];
    }
  }

  ghost predicate Ends(ls: Leaves, at: nat) {
    ls.Leaf? && if ls.rest.NoLeaf? then ls.at == at && ls.n == 1 else ls.at + ls.n <= at && Ends(ls.rest, at)
  }

  // ----- from the type to the swapped value -----

  lemma {:induction false} CountedAppend(a: Code, b: Code)
    requires Counted(a) && Counted(b)
    ensures Counted(Append(a, b))
  {
    if !a.Done? {
      CountedAppend(a.next, b);
    }
  }

  lemma {:induction false} CountedSkip(c: Code, n: nat)
    requires Counted(c)
    ensures Counted(AddSkip(c, n))
  {
    if !c.Done? {
      CountedSkip(c.next, n);
    }
  }

  lemma {:induction false} CountedTakes(idx: nat, n: nat)
    ensures Counted(Takes(idx, n))
    decreases n
  {
    if n > 0 {
      CountedTakes(idx, n - 1);
    }
  }

  lemma {:induction false} EmittedCounted(c: Code, t: Type, idx: nat)
    requires Swappable(t) && Counted(c)
    ensures Counted(Emitted(c, t, idx)) && Supported(t)
    decreases t, 1
  {
    match t
    case NumericType(size) =>
      CountedSkip(c, 1);
      CountedTakes(idx, 2);
      CountedAppend(c, if size == 2 then Takes(idx, 2) else if size == 4 then Swap(4, Done) else Swap(8, Done));
    case EnumType(_, _) =>
      CountedTakes(idx, 4);
      CountedAppend(c, Takes(idx, 4));
    case ArrayType(dimension, elem) =>
      ArrayOpCounted(dimension, elem, idx);
      CountedAppend(c, ArrayOp(dimension, elem, idx));
    case CompoundType(fields, _) => EmittedFieldsCounted(c, fields, idx, idx);
    case _ =>
  }

  lemma {:induction false} EmittedFieldsCounted(c: Code, fs: Fields, base: nat, idx: nat)
    requires SwappableFields(fs) && Counted(c) && base <= idx
    ensures Counted(EmittedFields(c, fs, base, idx)) && SupportedFields(fs, idx - base)
    decreases fs, 1
  {
    if fs.FieldAt? {
      var start := base + fs.offset;
      if start < idx {
        EmittedFieldsCounted(c, fs.rest, base, idx);
      } else {
        var d := if start > idx then AddSkip(c, start - idx) else c;
        CountedSkip(c, start - idx);
        EmittedCounted(d, fs.typ, start);
        EmittedFieldsCounted(Emitted(d, fs.typ, start), fs.rest, base, start + Size(fs.typ));
      }
    }
  }

  lemma {:induction false} ArrayOpCounted(k: nat, elem: Type, idx: nat)
    requires k > 0 && Swappable(elem)
    ensures Counted(ArrayOp(k, elem, idx)) && Supported(elem)
    decreases elem, 2
  {
    if elem.ArrayType? {
      ArrayOpCounted(elem.dimension, elem.elem, idx);
      ArrayOpFlattens(k, elem.dimension, elem.elem, idx);
      FlatSize(k, elem.dimension, 0);
      ArrayOpCounted(Times(k, elem.dimension), elem.elem, idx);
    } else {
      EmittedCounted(Done, elem, idx);
    }
  }

  /**
   Compiling a type and running its words. Refused types are refused; on the others the output is that of
   the leaf by leaf visitor up to the last leaf, when padding is only found where nothing follows it: every number and
   every enumeration is turned round where it is, and the bytes between them are copied.
   */
  method SwapValue(t: Type, input: seq<octet>, output: array<octet>) returns (ok: bool)
    requires Ordered(t) && (Supported(t) ==> Swappable(t) && End(t) <= |input| && End(t) <= output.Length)
    modifies output
    ensures ok <==> Supported(t)
    ensures ok <==> AllUsual(Parts(t))
    ensures ok ==> Compiled(t, old(output[..]), input) == Poured(output[..])
    ensures ok && Tight(t) ==> Settles(old(output[..]), output[..], Swapped(t, input), 0, End(t))
    ensures ok && Tight(t) ==> AllTurned(PlacesOf(t, 0), End(t), input, output[..])
  {
    SupportedExactly(t);
    var compiler := new SwapCompiler();
    ok := compiler.Visit(t, [], Done);
    if ok {
      ghost var c := Emitted(Done, t, 0);
      assert [] + Words(c) == Words(c);
      ReadsWords(compiler.compiled, 0, c);
      EmittedCounted(Done, t, 0);
      CompiledStaysInside(t, output[..], input);
      if Tight(t) {
        CompiledIsRight(t, output[..], input);
      }
      ghost var before := output[..];
      var off, it, ran := SwapFrom(compiler.compiled, 0, 0, 0, input, output, c);
      if Tight(t) {
        SettledTurns(t, input, before, output[..]);
      }
    }
  }
}
