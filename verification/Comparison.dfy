/** `ValueOps::compare` and `Vector::compare`: two memories walked in step, down to the elements of containers. */
module Comparison {
  import opened Bytecode
  import opened Tracing
  import opened Simplification
  import opened Types
  import opened Memory
  import opened Marshal
  import opened Compiler
  import opened Sameness
  import B = Builder

  /** The element type behind each container handle. */
  type Kinds = map<nat, Type>

  /**
   The programs that run to their end. `copy`, `compare`, `destroy` and `zero` do not step over the
   block of an empty array, and refuse to go on unless that block has no operation.
   */
  ghost predicate Completes(c: Code) {
    match c
    case Done => true
    case Memcpy(_, next) => Completes(next)
    case Skip(_, next) => Completes(next)
    case Array(k, b, next) => (if k == 0 then b.Done? else Completes(b)) && Completes(next)
    case Container(_, _, next) => Completes(next)
  }

  /** The first operation of a program runs to its end. */
  ghost predicate HeadCompletes(c: Code) {
    c.Array? ==> if c.count == 0 then c.body.Done? else Completes(c.body)
  }

  /** No array of the type is empty, at any depth. */
  predicate Dimensioned(t: Type)
    decreases t
  {
    match t
    case ArrayType(dimension, elem) => dimension > 0 && Dimensioned(elem)
    case ContainerType(_, _, elem) => Dimensioned(elem)
    case CompoundType(fields, _) => DimensionedFields(fields)
    case _ => true
  }

  predicate DimensionedFields(fs: Fields)
    decreases fs
  {
    fs.FieldAt? ==> Dimensioned(fs.typ) && DimensionedFields(fs.rest)
  }

  /** How deep containers nest. */
  function Depth(t: Type): nat
    decreases t
  {
    match t
    case ArrayType(_, elem) => Depth(elem)
    case ContainerType(_, _, elem) => 1 + Depth(elem)
    case CompoundType(fields, _) => DepthFields(fields)
    case _ => 0
  }

  function DepthFields(fs: Fields): nat
    decreases fs
  {
    if fs.NoMore? then 0
    else if Depth(fs.typ) > DepthFields(fs.rest) then Depth(fs.typ) else DepthFields(fs.rest)
  }

  /** The handles of the type stand for its containers. */
  ghost predicate Coherent(env: Sizes, vec: Vectors, kinds: Kinds, t: Type)
    decreases t
  {
    match t
    case ArrayType(_, elem) => Coherent(env, vec, kinds, elem)
    case ContainerType(h, size, elem) =>
      && h > END && size > 0 && h in env && env[h] == size && h in kinds && kinds[h] == elem
      && h in vec && vec[h].stride == Size(elem) && Ordered(elem) && Dimensioned(elem) && B.Safe(elem, false)
      && Coherent(env, vec, kinds, elem)
    case CompoundType(fields, _) => CoherentFields(env, vec, kinds, fields)
    case _ => true
  }

  ghost predicate CoherentFields(env: Sizes, vec: Vectors, kinds: Kinds, fs: Fields)
    decreases fs
  {
    fs.FieldAt? ==> Coherent(env, vec, kinds, fs.typ) && CoherentFields(env, vec, kinds, fs.rest)
  }

  /** The containers of a program are those of `kinds`, nested less than `n` deep, and its blocks visit the leaves of the elements. */
  ghost predicate Linked(n: nat, env: Sizes, vec: Vectors, kinds: Kinds, c: Code) {
    match c
    case Done => true
    case Memcpy(_, next) => Linked(n, env, vec, kinds, next)
    case Skip(_, next) => Linked(n, env, vec, kinds, next)
    case Array(_, b, next) => Linked(n, env, vec, kinds, b) && Linked(n, env, vec, kinds, next)
    case Container(h, b, next) => LinkedVector(n, env, vec, kinds, h, b) && Linked(n, env, vec, kinds, next)
  }

  ghost predicate LinkedVector(n: nat, env: Sizes, vec: Vectors, kinds: Kinds, h: nat, b: Code) {
    && h > END && h in env && h in kinds && h in vec
    && var elem := kinds[h];
       && Ordered(elem) && Dimensioned(elem) && Coherent(env, vec, kinds, elem) && Depth(elem) < n
       && Accepts(elem, false, false) && B.Safe(elem, false)
       && vec[h].stride == Size(elem) && Trace(env, b, 0, Nil) == Visits(elem, 0, Nil)
  }

  // ----- single operations -----

  lemma {:induction false} SameBytes(off: nat, n: nat, tail: Atoms, a: seq<Cell>, b: seq<Cell>)
    requires off + n <= |a| && off + n <= |b|
    ensures Same(Bytes(off, n, tail), a, b) <==> a[off..off + n] == b[off..off + n] && Same(tail, a, b)
    decreases n
  {
    if n == 0 {
      assert a[off..off] == b[off..off];
    } else {
      SameBytes(off + 1, n - 1, tail, a, b);
      assert a[off..off + n] == [a[off]] + a[off + 1..off + n] && b[off..off + n] == [b[off]] + b[off + 1..off + n];
    }
  }

  lemma {:induction false} SameThen(s: Atoms, t: Atoms, a: seq<Cell>, b: seq<Cell>)
    ensures Same(Then(s, t), a, b) <==> Same(s, a, b) && Same(t, a, b)
    decreases s
  {
    if !s.Nil? {
      SameThen(s.rest, t, a, b);
    }
  }

  datatype Verdict = Misfit | Fit(same: bool)

  /** What comparing two memories on the visits `t` should answer, provided that both fit them. */
  ghost function Judge(vec: Vectors, t: Atoms, a: seq<Cell>, b: seq<Cell>): Verdict {
    if Shaped(vec, t, a) && Shaped(vec, t, b) then Fit(Same(t, a, b)) else Misfit
  }

  /** A block, then the rest. */
  lemma JudgeBlock(env: Sizes, vec: Vectors, c: Code, off: nat, tail: Atoms, a: seq<Cell>, b: seq<Cell>, goal: bool)
    requires Judge(vec, Trace(env, c, off, tail), a, b) == Fit(goal)
    ensures var v := Judge(vec, Trace(env, c, off, Nil), a, b);
            v.Fit? && (if v.same then Judge(vec, tail, a, b) == Fit(goal) else !goal)
  {
    TraceThen(env, c, off, Nil, tail);
    SameThen(Trace(env, c, off, Nil), tail, a, b);
    ShapedThen(vec, Trace(env, c, off, Nil), tail, a);
    ShapedThen(vec, Trace(env, c, off, Nil), tail, b);
  }

  lemma JudgeBytes(vec: Vectors, off: nat, n: nat, tail: Atoms, a: seq<Cell>, b: seq<Cell>, goal: bool)
    requires Judge(vec, Bytes(off, n, tail), a, b) == Fit(goal) && off + n <= |a| && off + n <= |b|
    ensures if a[off..off + n] == b[off..off + n] then Judge(vec, tail, a, b) == Fit(goal) else !goal
  {
    SameBytes(off, n, tail, a, b);
    ShapedBytes(vec, off, n, tail, a);
    ShapedBytes(vec, off, n, tail, b);
  }

  lemma JudgeBox(vec: Vectors, t: Atoms, a: seq<Cell>, b: seq<Cell>, goal: bool)
    requires t.Box? && Judge(vec, t, a, b) == Fit(goal)
    ensures t.at < |a| && a[t.at].Head? && t.at < |b| && b[t.at].Head? && t.handle in vec
    ensures ShapedEach(vec, t.handle, t.elem, a[t.at].elems) && ShapedEach(vec, t.handle, t.elem, b[t.at].elems)
    ensures if SameEach(t.elem, a[t.at].elems, b[t.at].elems) then Judge(vec, t.rest, a, b) == Fit(goal) else !goal
  {
  }

  // ----- the layouts of types run -----

  lemma {:induction false} LinkedAppend(n: nat, env: Sizes, vec: Vectors, kinds: Kinds, a: Code, b: Code)
    requires Linked(n, env, vec, kinds, a) && Linked(n, env, vec, kinds, b)
    ensures Linked(n, env, vec, kinds, Append(a, b))
  {
    if !a.Done? {
      LinkedAppend(n, env, vec, kinds, a.next, b);
    }
  }

  lemma {:induction false} CompletesAppend(a: Code, b: Code)
    ensures Completes(Append(a, b)) <==> Completes(a) && Completes(b)
  {
    if !a.Done? {
      CompletesAppend(a.next, b);
    }
  }

  lemma {:induction false} RawIsLinked(n: nat, env: Sizes, vec: Vectors, kinds: Kinds, t: Type, pointers: bool, opaques: bool)
    requires Ordered(t) && Coherent(env, vec, kinds, t) && Depth(t) <= n && Accepts(t, pointers, opaques)
    ensures Linked(n, env, vec, kinds, Types.Raw(t)) && Described(env, t)
    decreases t
  {
    match t
    case ArrayType(_, elem) => RawIsLinked(n, env, vec, kinds, elem, false, false);
    case ContainerType(_, _, elem) =>
      RawIsLinked(n - 1, env, vec, kinds, elem, false, false);
      RawIsExact(env, elem, 0, Nil);
    case CompoundType(fields, size) => RawFieldsAreLinked(n, env, vec, kinds, fields, 0, size, pointers, opaques);
    case _ =>
  }

  lemma {:induction false} RawFieldsAreLinked(n: nat, env: Sizes, vec: Vectors, kinds: Kinds, fs: Fields, at: nat, size: nat, pointers: bool, opaques: bool)
    requires OrderedFields(fs, at, size) && CoherentFields(env, vec, kinds, fs) && DepthFields(fs) <= n && AcceptsFields(fs, pointers, opaques)
    ensures Linked(n, env, vec, kinds, RawFields(fs, at, size)) && DescribedFields(env, fs)
    decreases fs
  {
    match fs
    case NoMore =>
    case FieldAt(_, offset, typ, rest) =>
      RawIsLinked(n, env, vec, kinds, typ, pointers, opaques);
      RawFieldsAreLinked(n, env, vec, kinds, rest, offset + Size(typ), size, pointers, opaques);
      LinkedAppend(n, env, vec, kinds, Types.Raw(typ), RawFields(rest, offset + Size(typ), size));
  }

  /** Simplifying without merging keeps the containers and what their blocks visit. */
  lemma {:induction false} SimplifiedIsLinked(n: nat, env: Sizes, vec: Vectors, kinds: Kinds, edge: Edge, c: Code, p: Pending)
    requires Linked(n, env, vec, kinds, c) && Valid(false, p)
    ensures Linked(n, env, vec, kinds, Simplified(false, edge, c, p))
    decreases c
  {
    if !c.Done? {
      if c.Array? {
        SimplifiedIsLinked(n, env, vec, kinds, Block, c.body, Nothing);
      }
      if c.Container? {
        BlockTrace(env, false, c.body, 0, Nil);
      }
      var t := After(false, c, p);
      assert Linked(n, env, vec, kinds, t.keep);
      SimplifiedIsLinked(n, env, vec, kinds, edge, c.next, t.pending);
      LinkedAppend(n, env, vec, kinds, Written(p, t), Simplified(false, edge, c.next, t.pending));
    }
  }

  /** Simplifying keeps programs running to their end. */
  lemma {:induction false} SimplifiedCompletes(merge: bool, edge: Edge, c: Code, p: Pending)
    requires Completes(c) && Valid(merge, p)
    ensures Completes(Simplified(merge, edge, c, p))
    decreases c
  {
    if !c.Done? {
      if c.Array? && c.count > 0 {
        SimplifiedCompletes(merge, Block, c.body, Nothing);
      }
      var t := After(merge, c, p);
      assert Completes(t.keep);
      SimplifiedCompletes(merge, edge, c.next, t.pending);
      CompletesAppend(Written(p, t), Simplified(merge, edge, c.next, t.pending));
    }
  }

  lemma {:induction false} RawCompletes(t: Type)
    requires Ordered(t) && Dimensioned(t)
    ensures Completes(Types.Raw(t))
    decreases t
  {
    match t
    case ArrayType(_, elem) => RawCompletes(elem);
    case CompoundType(fields, size) => RawFieldsComplete(fields, 0, size);
    case _ =>
  }

  lemma {:induction false} RawFieldsComplete(fs: Fields, at: nat, size: nat)
    requires OrderedFields(fs, at, size) && DimensionedFields(fs)
    ensures Completes(RawFields(fs, at, size))
    decreases fs
  {
    match fs
    case NoMore =>
    case FieldAt(_, offset, typ, rest) =>
      RawCompletes(typ);
      RawFieldsComplete(rest, offset + Size(typ), size);
      CompletesAppend(Types.Raw(typ), RawFields(rest, offset + Size(typ), size));
  }

  /** The layout that keeps padding apart runs on what the type visits. */
  lemma ComparisonLayout(n: nat, env: Sizes, vec: Vectors, kinds: Kinds, t: Type)
    requires Ordered(t) && Coherent(env, vec, kinds, t) && Depth(t) <= n && Accepts(t, true, false)
    ensures var c := LayoutOf(t, false, true);
            Linked(n, env, vec, kinds, c) && Span(env, c) <= Size(t) && Trace(env, c, 0, Nil) == Visits(t, 0, Nil)
  {
    RawIsLinked(n, env, vec, kinds, t, true, false);
    SimplifiedIsLinked(n, env, vec, kinds, Top(true), Types.Raw(t), Nothing);
    UnmergedLayoutIsExact(env, t, true);
  }

  /** Types without empty arrays have layouts that run to their end. */
  lemma LayoutCompletes(t: Type, merge: bool, remove: bool)
    requires Ordered(t) && Dimensioned(t)
    ensures Completes(LayoutOf(t, merge, remove))
  {
    RawCompletes(t);
    SimplifiedCompletes(merge, Top(remove), Types.Raw(t), Nothing);
  }

  lemma {:induction false} AcceptsMore(t: Type, pointers: bool, opaques: bool)
    requires Accepts(t, false, false)
    ensures Accepts(t, pointers, opaques)
    decreases t
  {
    if t.CompoundType? {
      AcceptsMoreFields(t.fields, pointers, opaques);
    }
  }

  lemma {:induction false} AcceptsMoreFields(fs: Fields, pointers: bool, opaques: bool)
    requires AcceptsFields(fs, false, false)
    ensures AcceptsFields(fs, pointers, opaques)
    decreases fs
  {
    if fs.FieldAt? {
      AcceptsMore(fs.typ, pointers, opaques);
      AcceptsMoreFields(fs.rest, pointers, opaques);
    }
  }

  // ----- the interpreter -----

  datatype Outcome = Equal | Different | Failed

  method CompareFrom(ghost n: nat, env: Sizes, ghost vec: Vectors, kinds: Kinds, a: seq<Cell>, b: seq<Cell>, off0: nat, w: seq<nat>, begin: nat,
                     ghost c: Code, ghost goal: bool)
    returns (r: Outcome, off: nat, it: nat)
    requires Reads(w, begin, c) && Linked(n, env, vec, kinds, c)
    requires off0 + Span(env, c) <= |a| && off0 + Span(env, c) <= |b| && Judge(vec, Trace(env, c, off0, Nil), a, b) == Fit(goal)
    ensures r == Equal ==> goal && Completes(c)
    ensures r == Different ==> !goal
    ensures r == Failed ==> !Completes(c)
    ensures r == Equal ==> off == off0 + Span(env, c) && it == begin + Len(c)
    decreases n, 0, |w| - begin, 2
  {
    ghost var rest := c;
    r, off, it := Equal, off0, begin;
    ReadsStops(w, begin, c);
    while it != |w| && w[it] != END
      invariant begin <= it <= |w| && it + Len(rest) == begin + Len(c) && r == Equal
      invariant off + Span(env, rest) == off0 + Span(env, c)
      invariant Reads(w, it, rest) && Linked(n, env, vec, kinds, rest) && Completes(c) == Completes(rest)
      invariant Judge(vec, Trace(env, rest, off, Nil), a, b) == Fit(goal)
      decreases |w| - it
    {
      ReadsNext(w, it, rest);
      r, off, it := CompareNext(n, env, vec, kinds, a, b, off, w, it, rest, goal);
      if r != Equal {
        return;
      }
      rest := rest.next;
    }
  }

  /** One turn of the loop, on the operation at `start`. */
  method CompareNext(ghost n: nat, env: Sizes, ghost vec: Vectors, kinds: Kinds, a: seq<Cell>, b: seq<Cell>, off0: nat, w: seq<nat>, start: nat,
                     ghost c: Code, ghost goal: bool)
    returns (r: Outcome, off: nat, it: nat)
    requires !c.Done? && Reads(w, start, c) && Linked(n, env, vec, kinds, c)
    requires off0 + Span(env, c) <= |a| && off0 + Span(env, c) <= |b| && Judge(vec, Trace(env, c, off0, Nil), a, b) == Fit(goal)
    ensures r == Different ==> !goal
    ensures r == Failed ==> !HeadCompletes(c)
    ensures r == Equal ==> HeadCompletes(c) && off == off0 + HeadSpan(env, c) && it == start + HeadLen(c)
    ensures r == Equal ==> Judge(vec, Trace(env, c.next, off, Nil), a, b) == Fit(goal)
    decreases n, 0, |w| - start, 1
  {
    r, off, it := Equal, off0, start + 1;
    ghost var next := off0 + HeadSpan(env, c);
    ghost var tail := Trace(env, c.next, next, Nil);
    if w[start] == MEMCPY {
      var size := w[it];
      JudgeBytes(vec, off, size, tail, a, b, goal);
      if a[off..off + size] != b[off..off + size] {
        r := Different;
      }
      off := off + size;
    } else if w[start] == SKIP {
      off := off + w[it];
    } else if w[start] == ARRAY {
      r, off, it := CompareArray(n, env, vec, kinds, a, b, off, w, start, c, next, tail, goal);
    } else {
      var h := w[it];
      JudgeBox(vec, Trace(env, c, off, Nil), a, b, goal);
      var same := CompareVectors(n - 1, env, vec, kinds, h, a[off].elems, b[off].elems, c.body);
      if !same {
        r := Different;
      }
      it := SkipBlock(w, it, c.body);
      off := off + env[h];
    }
    it := it + 1;
  }

  method CompareArray(ghost n: nat, env: Sizes, ghost vec: Vectors, kinds: Kinds, a: seq<Cell>, b: seq<Cell>, off0: nat, w: seq<nat>, start: nat,
                      ghost c: Code, ghost end: nat, ghost tail: Atoms, ghost goal: bool)
    returns (r: Outcome, off: nat, it: nat)
    requires c.Array? && Reads(w, start, c) && Linked(n, env, vec, kinds, c.body)
    requires end == off0 + Times(c.count, Span(env, c.body)) <= |a| && end <= |b|
    requires Judge(vec, Repeated(env, c.body, c.count, off0, tail), a, b) == Fit(goal)
    ensures r == Different ==> !goal
    ensures r == Failed ==> !HeadCompletes(c)
    ensures r == Equal ==> HeadCompletes(c)
    ensures r == Equal ==> off == end && it == start + 2 + Len(c.body) && Judge(vec, tail, a, b) == Fit(goal)
    decreases n, 0, |w| - start, 0
  {
    ghost var body, span := c.body, Span(env, c.body);
    var count, element := w[start + 1], start + 2;
    r, off, it := Equal, off0, element;
    ReadsStops(w, element, body);
    var i := 0;
    ghost var left := count;
    while i < count
      invariant 0 <= i <= count && left == count - i && r == Equal
      invariant it == if i > 0 then element + Len(body) else element
      invariant (i > 0 ==> Completes(body)) && off + Times(left, span) == end
      invariant Judge(vec, Repeated(env, body, left, off, tail), a, b) == Fit(goal)
    {
      TimesStep(left, span);
      JudgeBlock(env, vec, body, off, Repeated(env, body, left - 1, off + span, tail), a, b, goal);
      r, off, it := CompareFrom(n, env, vec, kinds, a, b, off, w, element, body, Same(Trace(env, body, off, Nil), a, b));
      if r != Equal {
        return;
      }
      i, left := i + 1, left - 1;
    }
    if count == 0 && !body.Done? {
      ReadsNext(w, element, body);
    }
    if it == |w| || w[it] != END {
      r := Failed;
    }
  }

  /** `Vector::compare`: as many elements on both sides, equal one by one. */
  method CompareVectors(ghost n: nat, env: Sizes, ghost vec: Vectors, kinds: Kinds, h: nat, a: seq<seq<Cell>>, b: seq<seq<Cell>>, ghost body: Code)
    returns (same: bool)
    requires LinkedVector(n + 1, env, vec, kinds, h, body)
    requires ShapedEach(vec, h, Trace(env, body, 0, Nil), a) && ShapedEach(vec, h, Trace(env, body, 0, Nil), b)
    ensures same <==> SameEach(Trace(env, body, 0, Nil), a, b)
    decreases n, 3
  {
    if |a| != |b| {
      return false;
    }
    AcceptsMore(kinds[h], true, false);
    LayoutCompletes(kinds[h], false, true);
    for i := 0 to |a|
      invariant forall j :: 0 <= j < i ==> Same(Trace(env, body, 0, Nil), a[j], b[j])
    {
      var ok;
      same, ok := Compare(n, env, vec, kinds, kinds[h], a[i], b[i]);
      if !same {
        return;
      }
    }
    same := true;
  }

  /** Over the words of the layout that keeps padding apart. */
  method CompareWords(ghost n: nat, env: Sizes, ghost vec: Vectors, kinds: Kinds, ghost t: Type, w: seq<nat>, a: seq<Cell>, b: seq<Cell>) returns (r: Outcome)
    requires Ordered(t) && Coherent(env, vec, kinds, t) && Depth(t) <= n && Accepts(t, true, false)
    requires w == Words(LayoutOf(t, false, true))
    requires |a| == |b| == Size(t) && Shaped(vec, Visits(t, 0, Nil), a) && Shaped(vec, Visits(t, 0, Nil), b)
    ensures r == Equal ==> Same(Visits(t, 0, Nil), a, b) && Completes(LayoutOf(t, false, true))
    ensures r == Different ==> !Same(Visits(t, 0, Nil), a, b)
    ensures r == Failed ==> !Completes(LayoutOf(t, false, true))
    decreases n, 1
  {
    ghost var c := LayoutOf(t, false, true);
    ComparisonLayout(n, env, vec, kinds, t);
    ReadsWords(w, 0, c);
    var off, it;
    r, off, it := CompareFrom(n, env, vec, kinds, a, b, 0, w, 0, c, Same(Visits(t, 0, Nil), a, b));
  }

  /**
   `Typelib::compare`: through the layout that keeps padding apart. It fails where the type has no such layout, and
   at an empty array unless the answer is known before. The answer is whether the two values are equal, part by part of their type.
   */
  method Compare(ghost n: nat, env: Sizes, ghost vec: Vectors, kinds: Kinds, t: Type, a: seq<Cell>, b: seq<Cell>) returns (same: bool, ok: bool)
    requires Ordered(t) && Coherent(env, vec, kinds, t) && Depth(t) <= n
    requires |a| == |b| == Size(t) && Shaped(vec, Visits(t, 0, Nil), a) && Shaped(vec, Visits(t, 0, Nil), b)
    ensures ok ==> Accepts(t, true, false) && B.Safe(t, false)
    ensures Accepts(t, true, false) && B.Safe(t, false) && Completes(LayoutOf(t, false, true)) ==> ok
    ensures ok ==> (same <==> Same(Visits(t, 0, Nil), a, b)) && (same <==> SameValue(t, 0, a, b))
    ensures ok ==> AllPermitted(Leaves(t, false), true, false)
    ensures AllPermitted(Leaves(t, false), true, false) && B.Safe(t, false) && Completes(LayoutOf(t, false, true)) ==> ok
    ensures ok && same ==> Completes(LayoutOf(t, false, true))
    decreases n, 2
  {
    same := false;
    var layout;
    layout, ok := B.LayoutOf(t, true, false, false, true);
    if ok {
      var r := CompareWords(n, env, vec, kinds, t, layout.ops, a, b);
      same, ok := r == Equal, r != Failed;
      SameExactly(t, 0, Nil, a, b);
    }
  }
}
