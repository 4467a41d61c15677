/**
 Values of a type, and what marshalling does to them.

 The round trip is stated on types: a value of any type, written through the layout of that
 type and read back into an initialised value, compares equal to the original.
 */
module Values {
  import opened Bytecode
  import opened Tracing
  import opened Simplification
  import opened Types
  import opened Compiler
  import opened Memory
  import opened RoundTrip
  import opened Defaults
  import IC = InitCode
  import B = Builder

  // ----- values -----

  ghost predicate AllRaw(mem: seq<Cell>, off: nat, n: nat) {
    off + n <= |mem| && forall i :: off <= i < off + n ==> mem[i].Raw?
  }

  /** The cells from `off` on hold a value of type `t`, at any depth; with `empty`, one whose containers are empty. */
  ghost predicate IsValue(empty: bool, t: Type, off: nat, mem: seq<Cell>)
    decreases t, 0
  {
    match t
    case ArrayType(dimension, elem) => AreValues(empty, elem, dimension, off, mem)
    case ContainerType(_, size, elem) =>
      && off < |mem| && mem[off].Head? && |mem[off].elems| < COUNT_LIMIT && (empty ==> mem[off].elems == [])
      && forall i :: 0 <= i < |mem[off].elems| ==> |mem[off].elems[i]| == Size(elem) && IsValue(empty, elem, 0, mem[off].elems[i])
    case CompoundType(fields, size) => HoldsFields(empty, fields, 0, size, off, mem)
    case _ => AllRaw(mem, off, Size(t))
  }

  ghost predicate AreValues(empty: bool, elem: Type, k: nat, off: nat, mem: seq<Cell>)
    decreases elem, k + 1
  {
    k > 0 ==> IsValue(empty, elem, off, mem) && AreValues(empty, elem, k - 1, off + Size(elem), mem)
  }

  ghost predicate HoldsFields(empty: bool, fs: Fields, at: nat, size: nat, base: nat, mem: seq<Cell>)
    decreases fs, 0
  {
    match fs
    case NoMore => at <= size && AllRaw(mem, base + at, size - at)
    case FieldAt(_, offset, typ, rest) =>
      && at <= offset && AllRaw(mem, base + at, offset - at)
      && IsValue(empty, typ, base + offset, mem)
      && HoldsFields(empty, rest, offset + Size(typ), size, base, mem)
  }

  /** Empty or not, a value is a value. */
  lemma {:induction false} EmptyIsValue(t: Type, off: nat, mem: seq<Cell>)
    requires IsValue(true, t, off, mem)
    ensures IsValue(false, t, off, mem)
    decreases t, 0
  {
    match t
    case ArrayType(dimension, elem) => EmptyAreValues(elem, dimension, off, mem);
    case CompoundType(fields, size) => EmptyHoldsFields(fields, 0, size, off, mem);
    case _ =>
  }

  lemma {:induction false} EmptyAreValues(elem: Type, k: nat, off: nat, mem: seq<Cell>)
    requires AreValues(true, elem, k, off, mem)
    ensures AreValues(false, elem, k, off, mem)
    decreases elem, k + 1
  {
    if k > 0 {
      EmptyIsValue(elem, off, mem);
      EmptyAreValues(elem, k - 1, off + Size(elem), mem);
    }
  }

  lemma {:induction false} EmptyHoldsFields(fs: Fields, at: nat, size: nat, base: nat, mem: seq<Cell>)
    requires HoldsFields(true, fs, at, size, base, mem)
    ensures HoldsFields(false, fs, at, size, base, mem)
    decreases fs, 0
  {
    if fs.FieldAt? {
      EmptyIsValue(fs.typ, base + fs.offset, mem);
      EmptyHoldsFields(fs.rest, fs.offset + Size(fs.typ), size, base, mem);
    }
  }

  /** A value fits what the merged layout visits, and an empty one is a fresh target for it. */
  ghost predicate Suits(empty: bool, vec: Vectors, t: Atoms, mem: seq<Cell>) {
    Shaped(vec, t, mem) && (empty ==> Fresh(t, mem))
  }

  lemma {:induction false} BytesSuit(empty: bool, vec: Vectors, off: nat, n: nat, tail: Atoms, mem: seq<Cell>)
    requires AllRaw(mem, off, n) && Suits(empty, vec, tail, mem)
    ensures Suits(empty, vec, Bytes(off, n, tail), mem)
    decreases n
  {
    if n > 0 {
      BytesSuit(empty, vec, off + 1, n - 1, tail, mem);
    }
  }

  /** The handles of the type stand for vectors of its element sizes. */
  ghost predicate Strides(vec: Vectors, t: Type)
    decreases t
  {
    match t
    case ArrayType(_, elem) => Strides(vec, elem)
    case ContainerType(h, _, elem) => h in vec && vec[h].stride == Size(elem) && Ordered(elem) && Strides(vec, elem)
    case CompoundType(fields, _) => StridesIn(vec, fields)
    case _ => true
  }

  ghost predicate StridesIn(vec: Vectors, fs: Fields)
    decreases fs
  {
    fs.FieldAt? ==> Strides(vec, fs.typ) && StridesIn(vec, fs.rest)
  }

  /** All the bytes of the type placed at `off`, padding included, and its containers; then `tail`. */
  function Fills(t: Type, off: nat, tail: Atoms): Atoms
    requires Ordered(t)
    decreases t, 0
  {
    match t
    case ArrayType(dimension, elem) => FillsEach(elem, dimension, off, tail)
    case ContainerType(h, _, elem) => Box(off, h, Fills(elem, 0, Nil), tail)
    case CompoundType(fields, size) => FillsFields(fields, 0, size, off, tail)
    case _ => Bytes(off, Size(t), tail)
  }

  function FillsEach(elem: Type, k: nat, off: nat, tail: Atoms): Atoms
    requires Ordered(elem)
    decreases elem, k + 1
  {
    if k == 0 then tail else Fills(elem, off, FillsEach(elem, k - 1, off + Size(elem), tail))
  }

  function FillsFields(fs: Fields, at: nat, size: nat, base: nat, tail: Atoms): Atoms
    requires OrderedFields(fs, at, size)
    decreases fs, 0
  {
    match fs
    case NoMore => Bytes(base + at, size - at, tail)
    case FieldAt(_, offset, typ, rest) =>
      Bytes(base + at, offset - at, Fills(typ, base + offset, FillsFields(rest, offset + Size(typ), size, base, tail)))
  }

  lemma CopiedSpan(env: Sizes, t: Type)
    requires Ordered(t) && Described(env, t)
    ensures Span(env, Copied(Types.Raw(t))) == Size(t)
  {
    RawIsExact(env, t, 0, Nil);
    MeantSpan(env, true, Types.Raw(t));
  }

  /** The raw program with its padding copied visits all the bytes of the type. */
  lemma {:induction false} CopiedIsExact(env: Sizes, t: Type, off: nat, tail: Atoms)
    requires Ordered(t) && Described(env, t)
    ensures Trace(env, Copied(Types.Raw(t)), off, tail) == Fills(t, off, tail)
    decreases t, 0
  {
    match t
    case ArrayType(dimension, elem) => CopiedArrayIsExact(env, elem, dimension, off, tail);
    case ContainerType(_, _, elem) => CopiedIsExact(env, elem, 0, Nil);
    case CompoundType(fields, size) => CopiedFieldsAreExact(env, fields, 0, size, off, off, tail);
    case _ =>
  }

  lemma {:induction false} CopiedArrayIsExact(env: Sizes, elem: Type, k: nat, off: nat, tail: Atoms)
    requires Ordered(elem) && Described(env, elem)
    ensures Repeated(env, Copied(Types.Raw(elem)), k, off, tail) == FillsEach(elem, k, off, tail)
    decreases elem, k + 1
  {
    if k > 0 {
      var mid := off + Size(elem);
      CopiedSpan(env, elem);
      CopiedArrayIsExact(env, elem, k - 1, mid, tail);
      CopiedIsExact(env, elem, off, FillsEach(elem, k - 1, mid, tail));
      RepeatedFirst(env, Copied(Types.Raw(elem)), k, off, mid, tail);
    }
  }

  lemma RepeatedFirst(env: Sizes, b: Code, k: nat, off: nat, mid: nat, tail: Atoms)
    requires k > 0 && mid == off + Span(env, b)
    ensures Repeated(env, b, k, off, tail) == Trace(env, b, off, Repeated(env, b, k - 1, mid, tail))
  {
  }

  lemma {:induction false} CopiedFieldsAreExact(env: Sizes, fs: Fields, at: nat, size: nat, base: nat, off: nat, tail: Atoms)
    requires OrderedFields(fs, at, size) && DescribedFields(env, fs) && off == base + at
    ensures Trace(env, Copied(RawFields(fs, at, size)), off, tail) == FillsFields(fs, at, size, base, tail)
    decreases fs, 0
  {
    if fs.NoMore? {
      CopyTrace(env, size - at, off, tail);
    } else {
      var start, end := base + fs.offset, fs.offset + Size(fs.typ);
      CopiedFieldsAreExact(env, fs.rest, end, size, base, base + end, tail);
      CopiedIsExact(env, fs.typ, start, FillsFields(fs.rest, end, size, base, tail));
      CopiedSpan(env, fs.typ);
      FieldCopied(env, fs, at, size, end, off, start, base + end, tail);
      FillsFirst(fs, at, size, base, off, start, end, tail);
    }
  }

  lemma CopyTrace(env: Sizes, n: nat, off: nat, tail: Atoms)
    ensures Copied(Skip(n, Done)) == Memcpy(n, Done) && Trace(env, Memcpy(n, Done), off, tail) == Bytes(off, n, tail)
  {
    assert Trace(env, Done, off + n, tail) == tail;
  }

  lemma FillsFirst(fs: Fields, at: nat, size: nat, base: nat, off: nat, start: nat, end: nat, tail: Atoms)
    requires fs.FieldAt? && OrderedFields(fs, at, size) && off == base + at && start == base + fs.offset && end == fs.offset + Size(fs.typ)
    ensures FillsFields(fs, at, size, base, tail) == Bytes(off, fs.offset - at, Fills(fs.typ, start, FillsFields(fs.rest, end, size, base, tail)))
  {
  }

  lemma FieldCopied(env: Sizes, fs: Fields, at: nat, size: nat, end: nat, off: nat, start: nat, stop: nat, tail: Atoms)
    requires fs.FieldAt? && OrderedFields(fs, at, size) && end == fs.offset + Size(fs.typ)
    requires start == off + (fs.offset - at) && stop == start + Size(fs.typ) && Span(env, Copied(Types.Raw(fs.typ))) == Size(fs.typ)
    ensures Trace(env, Copied(RawFields(fs, at, size)), off, tail)
            == Bytes(off, fs.offset - at, Trace(env, Copied(Types.Raw(fs.typ)), start, Trace(env, Copied(RawFields(fs.rest, end, size)), stop, tail)))
  {
    PaddedCopy(env, fs.offset - at, Types.Raw(fs.typ), RawFields(fs.rest, end, size), off, start, stop, tail);
  }

  /** Padding, one program, then another, all copied. */
  lemma PaddedCopy(env: Sizes, gap: nat, a: Code, b: Code, off: nat, start: nat, end: nat, tail: Atoms)
    requires start == off + gap && end == start + Span(env, Copied(a))
    ensures Trace(env, Copied(Skip(gap, Append(a, b))), off, tail)
            == Bytes(off, gap, Trace(env, Copied(a), start, Trace(env, Copied(b), end, tail)))
  {
    CopiedAppend(a, b);
    PaddedTraceOf(env, gap, Copied(a), Copied(b), off, start, end, tail);
  }

  lemma PaddedTraceOf(env: Sizes, gap: nat, a: Code, b: Code, off: nat, start: nat, end: nat, tail: Atoms)
    requires start == off + gap && end == start + Span(env, a)
    ensures Trace(env, Memcpy(gap, Append(a, b)), off, tail) == Bytes(off, gap, Trace(env, a, start, Trace(env, b, end, tail)))
  {
    MemcpyTrace(env, gap, Append(a, b), off, start, tail);
    TraceAppend(env, a, b, start, tail);
  }

  lemma MemcpyTrace(env: Sizes, n: nat, next: Code, off: nat, mid: nat, tail: Atoms)
    requires mid == off + n
    ensures Trace(env, Memcpy(n, next), off, tail) == Bytes(off, n, Trace(env, next, mid, tail))
  {
  }

  lemma {:induction false} ValueSuits(empty: bool, vec: Vectors, t: Type, off: nat, tail: Atoms, mem: seq<Cell>)
    requires Ordered(t) && Strides(vec, t) && IsValue(empty, t, off, mem) && Suits(empty, vec, tail, mem)
    ensures Suits(empty, vec, Fills(t, off, tail), mem)
    decreases t, 0
  {
    match t
    case ArrayType(dimension, elem) =>
      ValuesSuit(empty, vec, elem, dimension, off, tail, mem);
    case ContainerType(h, _, elem) =>
      var elems := mem[off].elems;
      forall i | 0 <= i < |elems| ensures Shaped(vec, Fills(elem, 0, Nil), elems[i]) {
        ValueSuits(empty, vec, elem, 0, Nil, elems[i]);
      }
    case CompoundType(fields, size) =>
      FieldsSuit(empty, vec, fields, 0, size, off, tail, mem);
    case _ =>
      BytesSuit(empty, vec, off, Size(t), tail, mem);
  }

  lemma {:induction false} ValuesSuit(empty: bool, vec: Vectors, elem: Type, k: nat, off: nat, tail: Atoms, mem: seq<Cell>)
    requires Ordered(elem) && Strides(vec, elem) && AreValues(empty, elem, k, off, mem) && Suits(empty, vec, tail, mem)
    ensures Suits(empty, vec, FillsEach(elem, k, off, tail), mem)
    decreases elem, k + 1
  {
    if k > 0 {
      ValuesSuit(empty, vec, elem, k - 1, off + Size(elem), tail, mem);
      ValueSuits(empty, vec, elem, off, FillsEach(elem, k - 1, off + Size(elem), tail), mem);
    }
  }

  lemma {:induction false} FieldsSuit(empty: bool, vec: Vectors, fs: Fields, at: nat, size: nat, base: nat, tail: Atoms, mem: seq<Cell>)
    requires OrderedFields(fs, at, size) && StridesIn(vec, fs)
    requires HoldsFields(empty, fs, at, size, base, mem) && Suits(empty, vec, tail, mem)
    ensures Suits(empty, vec, FillsFields(fs, at, size, base, tail), mem)
    decreases fs, 0
  {
    match fs
    case NoMore =>
      BytesSuit(empty, vec, base + at, size - at, tail, mem);
    case FieldAt(_, offset, typ, rest) =>
      var later := FillsFields(rest, offset + Size(typ), size, base, tail);
      FieldsSuit(empty, vec, rest, offset + Size(typ), size, base, tail, mem);
      ValueSuits(empty, vec, typ, base + offset, later, mem);
      BytesSuit(empty, vec, base + at, offset - at, Fills(typ, base + offset, later), mem);
  }

  // ----- the vectors of a type -----

  function Zeros(n: nat): (m: seq<Cell>)
    ensures |m| == n && forall i :: 0 <= i < n ==> m[i] == Cell.Raw(0)
  {
    seq(n, i => Cell.Raw(0))
  }

  /** The element that `Vector::resize` adds: zeros, initialised unless the elements are plain bytes. */
  function Blank(env: Sizes, t: Type): (m: seq<Cell>)
    requires Ordered(t)
  {
    var zeros := Zeros(Size(t));
    if IsMemcpy(Words(LayoutOf(t, true, true))) then zeros
    else Applied(env, IC.Effect(env, InitLayoutOf(t), 0, IC.NoWrite), zeros)
  }

  /** The handles of the type stand for the vector types they name, as the `Vector` constructor builds them from the layout of an element. */
  ghost predicate Modelled(env: Sizes, vec: Vectors, t: Type)
    decreases t
  {
    match t
    case ArrayType(_, elem) => Modelled(env, vec, elem)
    case ContainerType(h, size, elem) =>
      && h > END && size > 0 && h in env && env[h] == size && Modelled(env, vec, elem)
      && Ordered(elem) && Size(elem) > 0 && B.Safe(elem, true)
      && h in vec && vec[h] == Vector(Size(elem), Words(LayoutOf(elem, true, true)), Blank(env, elem))
    case CompoundType(fields, _) => ModelledFields(env, vec, fields)
    case _ => true
  }

  ghost predicate ModelledFields(env: Sizes, vec: Vectors, fs: Fields)
    decreases fs
  {
    fs.FieldAt? ==> Modelled(env, vec, fs.typ) && ModelledFields(env, vec, fs.rest)
  }

  lemma {:induction false} ModelledIsDescribed(env: Sizes, vec: Vectors, t: Type)
    requires Modelled(env, vec, t)
    ensures Described(env, t) && Strides(vec, t)
    decreases t
  {
    match t
    case ArrayType(_, elem) => ModelledIsDescribed(env, vec, elem);
    case ContainerType(_, _, elem) => ModelledIsDescribed(env, vec, elem);
    case CompoundType(fields, _) => ModelledFieldsAreDescribed(env, vec, fields);
    case _ =>
  }

  lemma {:induction false} ModelledFieldsAreDescribed(env: Sizes, vec: Vectors, fs: Fields)
    requires ModelledFields(env, vec, fs)
    ensures DescribedFields(env, fs) && StridesIn(vec, fs)
    decreases fs
  {
    if fs.FieldAt? {
      ModelledIsDescribed(env, vec, fs.typ);
      ModelledFieldsAreDescribed(env, vec, fs.rest);
    }
  }

  // ----- an initialised value is an empty value -----

  lemma {:induction false} InitialisedIsEmpty(env: Sizes, t: Type, off: nat, a: seq<Cell>, b: seq<Cell>)
    requires Ordered(t) && Initialised(t, off, a, b) && AllRaw(a, off, Size(t)) && Described(env, t)
    ensures IsValue(true, t, off, b)
    decreases t, 0
  {
    match t
    case ArrayType(dimension, elem) => InitialisedEachIsEmpty(env, elem, dimension, off, a, b);
    case CompoundType(fields, size) => InitialisedFieldsAreEmpty(env, fields, 0, size, off, a, b);
    case _ =>
  }

  lemma {:induction false} InitialisedEachIsEmpty(env: Sizes, elem: Type, k: nat, off: nat, a: seq<Cell>, b: seq<Cell>)
    requires Ordered(elem) && InitialisedEach(elem, k, off, a, b) && AllRaw(a, off, Times(k, Size(elem))) && Described(env, elem)
    ensures AreValues(true, elem, k, off, b)
    decreases elem, k + 1
  {
    if k > 0 {
      InitialisedIsEmpty(env, elem, off, a, b);
      InitialisedEachIsEmpty(env, elem, k - 1, off + Size(elem), a, b);
    }
  }

  lemma {:induction false} InitialisedFieldsAreEmpty(env: Sizes, fs: Fields, at: nat, size: nat, base: nat, a: seq<Cell>, b: seq<Cell>)
    requires OrderedFields(fs, at, size) && InitialisedFields(fs, at, size, base, a, b) && DescribedFields(env, fs)
    requires at <= size && AllRaw(a, base + at, size - at)
    ensures HoldsFields(true, fs, at, size, base, b)
    decreases fs, 0
  {
    if fs.FieldAt? {
      OrderedEnd(fs.rest, fs.offset + Size(fs.typ), size);
      InitialisedIsEmpty(env, fs.typ, base + fs.offset, a, b);
      InitialisedFieldsAreEmpty(env, fs.rest, fs.offset + Size(fs.typ), size, base, a, b);
    }
  }
}
