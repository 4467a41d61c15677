/**
 Types, and the layout programs that describe them.

 `Raw` is the program the layout visitor emits. Its partner is `Visits`, which lists the
 leaves of a type at the addresses its field offsets give them, without any notion of
 padding: compiling to relative skips and reading the program back gives that list.
 */
module Types {
  import opened Bytecode
  import opened Tracing
  import opened Simplification
  import opened Optimizer

  datatype Type =
    | NumericType(size: nat)
    | EnumType(size: nat, values: seq<(string, int)>)  // in the order of the symbol map
    | ArrayType(dimension: nat, elem: Type)
    | ContainerType(handle: nat, size: nat, elem: Type)
    | CompoundType(fields: Fields, size: nat)
    | PointerType(size: nat)
    | OpaqueType(size: nat)

  datatype Fields =
    | NoMore
    | FieldAt(name: string, offset: nat, typ: Type, rest: Fields)

  function Size(t: Type): nat {
    match t
    case NumericType(size) => size
    case EnumType(size, _) => size
    case ArrayType(dimension, elem) => Times(dimension, Size(elem))
    case ContainerType(_, size, _) => size
    case CompoundType(_, size) => size
    case PointerType(size) => size
    case OpaqueType(size) => size
  }

  /** Fields come in address order, do not overlap, and end inside the compound. */
  predicate Ordered(t: Type)
    decreases t
  {
    match t
    case ArrayType(_, elem) => Ordered(elem)
    case ContainerType(_, _, elem) => Ordered(elem)
    case CompoundType(fields, size) => OrderedFields(fields, 0, size)
    case _ => true
  }

  predicate OrderedFields(fs: Fields, at: nat, size: nat)
    decreases fs
  {
    match fs
    case NoMore => at <= size
    case FieldAt(_, offset, typ, rest) =>
      at <= offset && Ordered(typ) && OrderedFields(rest, offset + Size(typ), size)
  }

  /** The container objects of the type are the ones the handles stand for. */
  ghost predicate Described(env: Sizes, t: Type)
    decreases t
  {
    match t
    case ArrayType(_, elem) => Described(env, elem)
    case ContainerType(handle, size, elem) =>
      handle > END && size > 0 && handle in env && env[handle] == size && Described(env, elem)
    case CompoundType(fields, _) => DescribedFields(env, fields)
    case _ => true
  }

  ghost predicate DescribedFields(env: Sizes, fs: Fields)
    decreases fs
  {
    fs.FieldAt? ==> Described(env, fs.typ) && DescribedFields(env, fs.rest)
  }

  // ----- the program of a type -----

  function Raw(t: Type): Code
    requires Ordered(t)
    decreases t
  {
    match t
    case NumericType(size) => Memcpy(size, Done)
    case EnumType(size, _) => Memcpy(size, Done)
    case ArrayType(dimension, elem) => Array(dimension, Raw(elem), Done)
    case ContainerType(handle, _, elem) => Container(handle, Raw(elem), Done)
    case CompoundType(fields, size) => RawFields(fields, 0, size)
    case PointerType(size) => Memcpy(size, Done)
    case OpaqueType(size) => Skip(size, Done)
  }

  function RawFields(fs: Fields, at: nat, size: nat): Code
    requires OrderedFields(fs, at, size)
    decreases fs
  {
    match fs
    case NoMore => Skip(size - at, Done)
    case FieldAt(_, offset, typ, rest) =>
      Skip(offset - at, Append(Raw(typ), RawFields(rest, offset + Size(typ), size)))
  }

  /** The leaves of the type placed at `off`: data bytes, and containers with the leaves of an element; then `tail`. */
  function Visits(t: Type, off: nat, tail: Atoms): Atoms
    decreases t, 0
  {
    match t
    case NumericType(size) => Bytes(off, size, tail)
    case EnumType(size, _) => Bytes(off, size, tail)
    case ArrayType(dimension, elem) => VisitsEach(elem, dimension, off, tail)
    case ContainerType(handle, _, elem) => Box(off, handle, Visits(elem, 0, Nil), tail)
    case CompoundType(fields, _) => VisitsFields(fields, off, tail)
    case PointerType(size) => Bytes(off, size, tail)
    case OpaqueType(_) => tail
  }

  function VisitsEach(elem: Type, k: nat, off: nat, tail: Atoms): Atoms
    decreases elem, k + 1
  {
    if k == 0 then tail else Visits(elem, off, VisitsEach(elem, k - 1, off + Size(elem), tail))
  }

  function VisitsFields(fs: Fields, base: nat, tail: Atoms): Atoms
    decreases fs, 0
  {
    match fs
    case NoMore => tail
    case FieldAt(_, offset, typ, rest) => Visits(typ, base + offset, VisitsFields(rest, base, tail))
  }

  /** The raw program advances over exactly the bytes of the type and visits exactly its leaves. */
  lemma {:induction false} RawIsExact(env: Sizes, t: Type, off: nat, tail: Atoms)
    requires Ordered(t) && Described(env, t)
    ensures Span(env, Raw(t)) == Size(t)
    ensures Trace(env, Raw(t), off, tail) == Visits(t, off, tail)
    decreases t, 0
  {
    match t
    case ArrayType(dimension, elem) => RawArrayIsExact(env, elem, dimension, off, tail);
    case ContainerType(_, _, elem) => RawIsExact(env, elem, 0, Nil);
    case CompoundType(fields, size) => RawFieldsAreExact(env, fields, 0, size, off, off, tail);
    case _ =>
  }

  lemma {:induction false} RawArrayIsExact(env: Sizes, elem: Type, k: nat, off: nat, tail: Atoms)
    requires Ordered(elem) && Described(env, elem)
    ensures Span(env, Raw(elem)) == Size(elem)
    ensures Repeated(env, Raw(elem), k, off, tail) == VisitsEach(elem, k, off, tail)
    decreases elem, k + 1
  {
    if k == 0 {
      RawIsExact(env, elem, off, tail);
    } else {
      RawArrayIsExact(env, elem, k - 1, off + Size(elem), tail);
      RawIsExact(env, elem, off, VisitsEach(elem, k - 1, off + Size(elem), tail));
    }
  }

  lemma {:induction false} RawFieldsAreExact(env: Sizes, fs: Fields, at: nat, size: nat, base: nat, off: nat, tail: Atoms)
    requires OrderedFields(fs, at, size) && DescribedFields(env, fs) && off == base + at
    ensures at + Span(env, RawFields(fs, at, size)) == size
    ensures Trace(env, RawFields(fs, at, size), off, tail) == VisitsFields(fs, base, tail)
    decreases fs, 0
  {
    match fs
    case NoMore =>
    case FieldAt(_, offset, typ, rest) =>
      var end := offset + Size(typ);
      var a, b := Raw(typ), RawFields(rest, end, size);
      RawFieldsAreExact(env, rest, end, size, base, base + end, tail);
      RawIsExact(env, typ, base + offset, VisitsFields(rest, base, tail));
      PaddedTrace(env, offset - at, a, b, off, base + offset, base + end, tail);
  }

  /** Padding, one program, then another. */
  lemma PaddedTrace(env: Sizes, gap: nat, a: Code, b: Code, off: nat, start: nat, end: nat, tail: Atoms)
    requires start == off + gap && end == start + Span(env, a)
    ensures Span(env, Skip(gap, Append(a, b))) == gap + Span(env, a) + Span(env, b)
    ensures Trace(env, Skip(gap, Append(a, b)), off, tail) == Trace(env, a, start, Trace(env, b, end, tail))
  {
    SpanAppend(env, a, b);
    TraceAppend(env, a, b, start, tail);
  }

  // ----- facts the optimiser and the interpreters need -----

  /** Every array element covers at least a byte. */
  predicate NoEmptyElement(t: Type)
    decreases t
  {
    match t
    case ArrayType(_, elem) => Size(elem) > 0 && NoEmptyElement(elem)
    case ContainerType(_, _, elem) => NoEmptyElement(elem)
    case CompoundType(fields, _) => NoEmptyElementIn(fields)
    case _ => true
  }

  predicate NoEmptyElementIn(fs: Fields)
    decreases fs
  {
    fs.FieldAt? ==> NoEmptyElement(fs.typ) && NoEmptyElementIn(fs.rest)
  }

  lemma {:induction false} RawIsSolid(env: Sizes, t: Type)
    requires Ordered(t) && Described(env, t) && NoEmptyElement(t)
    ensures Solid(env, Raw(t))
    decreases t
  {
    match t
    case ArrayType(_, elem) => RawIsSolid(env, elem); RawIsExact(env, elem, 0, Nil);
    case ContainerType(_, _, elem) => RawIsSolid(env, elem);
    case CompoundType(fields, size) => RawFieldsAreSolid(env, fields, 0, size);
    case _ =>
  }

  lemma {:induction false} RawFieldsAreSolid(env: Sizes, fs: Fields, at: nat, size: nat)
    requires OrderedFields(fs, at, size) && DescribedFields(env, fs) && NoEmptyElementIn(fs)
    ensures Solid(env, RawFields(fs, at, size))
    decreases fs
  {
    match fs
    case NoMore =>
    case FieldAt(_, offset, typ, rest) =>
      RawIsSolid(env, typ);
      RawFieldsAreSolid(env, rest, offset + Size(typ), size);
      SolidAppend(env, Raw(typ), RawFields(rest, offset + Size(typ), size));
  }

  lemma {:induction false} SolidAppend(env: Sizes, a: Code, b: Code)
    requires Solid(env, a) && Solid(env, b)
    ensures Solid(env, Append(a, b))
  {
    if !a.Done? {
      SolidAppend(env, a.next, b);
    }
  }

  /** No type in the domain makes the optimiser destroy its own output. */
  lemma LayoutNeverStumbles(env: Sizes, merge: bool, t: Type)
    requires Ordered(t) && Described(env, t) && NoEmptyElement(t)
    ensures !Stumbles(merge, Raw(t), Nothing)
  {
    RawIsSolid(env, t);
    SolidNeverStumbles(env, merge, Raw(t), Nothing);
  }

  /** `layout_of`, as a program. */
  function LayoutOf(t: Type, merge: bool, remove: bool): Code
    requires Ordered(t)
  {
    Simplified(merge, Top(remove), Raw(t), Nothing)
  }

  /** `layout_of(t, .., merge_skip_copy = false)` visits exactly the leaves of the type. */
  lemma UnmergedLayoutIsExact(env: Sizes, t: Type, remove: bool)
    requires Ordered(t) && Described(env, t)
    ensures Trace(env, LayoutOf(t, false, remove), 0, Nil) == Visits(t, 0, Nil)
    ensures Span(env, LayoutOf(t, false, remove)) <= Size(t)
  {
    UnmergedTrace(env, Raw(t), remove);
    RawIsExact(env, t, 0, Nil);
  }

  /** `layout_of(t)` visits all the leaves of the type, possibly padding too, but not the padding at its end nor a byte past it. */
  lemma MergedLayoutCovers(env: Sizes, t: Type, remove: bool) returns (visits: Atoms, raw: Atoms)
    requires Ordered(t) && Described(env, t)
    ensures visits == Trace(env, LayoutOf(t, true, remove), 0, Nil) && raw == Visits(t, 0, Nil)
    ensures Trail(Raw(t), 0) <= Size(t) && Covers(visits, raw) && Within(visits, 0, Size(t) - Trail(Raw(t), 0))
  {
    var c := Raw(t);
    RawIsKnown(env, t);
    RawIsExact(env, t, 0, Nil);
    raw := Visits(t, 0, Nil);
    visits := MergedCodeCovers(env, c, remove, Size(t), raw);
  }

  lemma MergedCodeCovers(env: Sizes, c: Code, remove: bool, size: nat, raw: Atoms) returns (visits: Atoms)
    requires Known(env, c) && Span(env, c) == size && Trace(env, c, 0, Nil) == raw
    ensures visits == Trace(env, Simplified(true, Top(remove), c, Nothing), 0, Nil)
    ensures Trail(c, 0) <= size && Covers(visits, raw) && Within(visits, 0, size - Trail(c, 0))
  {
    MergedCovers(env, c, remove);
    UntrailedSpan(env, c);
    visits := Trace(env, Simplified(true, Top(remove), c, Nothing), 0, Nil);
  }

  lemma {:induction false} RawIsKnown(env: Sizes, t: Type)
    requires Ordered(t) && Described(env, t)
    ensures Known(env, Raw(t))
    decreases t
  {
    match t
    case ArrayType(_, elem) => RawIsKnown(env, elem);
    case ContainerType(_, _, elem) => RawIsKnown(env, elem);
    case CompoundType(fields, size) => RawFieldsAreKnown(env, fields, 0, size);
    case _ =>
  }

  lemma {:induction false} RawFieldsAreKnown(env: Sizes, fs: Fields, at: nat, size: nat)
    requires OrderedFields(fs, at, size) && DescribedFields(env, fs)
    ensures Known(env, RawFields(fs, at, size))
    decreases fs
  {
    match fs
    case NoMore =>
    case FieldAt(_, offset, typ, rest) =>
      RawIsKnown(env, typ);
      RawFieldsAreKnown(env, rest, offset + Size(typ), size);
      KnownAppend(env, Raw(typ), RawFields(rest, offset + Size(typ), size));
  }

  lemma {:induction false} KnownAppend(env: Sizes, a: Code, b: Code)
    requires Known(env, a) && Known(env, b)
    ensures Known(env, Append(a, b))
  {
    if !a.Done? {
      KnownAppend(env, a.next, b);
    }
  }
}
