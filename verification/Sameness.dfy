/** When two values are equal, by their type alone: no program, no list of visits. */
module Sameness {
  import opened Tracing
  import opened Types
  import opened Memory

  /** Both memories have the bytes from `off` on, and they are equal. */
  ghost predicate EqualBytes(off: nat, n: nat, a: seq<Cell>, b: seq<Cell>) {
    forall i: nat :: off <= i < off + n ==> EqualByte(i, a, b)
  }

  ghost predicate EqualByte(i: nat, a: seq<Cell>, b: seq<Cell>) {
    i < |a| && i < |b| && a[i] == b[i]
  }

  /**
   Numbers, enumerations and pointers are equal byte by byte; containers have equally many elements, equal one by one; arrays
   and structures are equal part by part. Opaques and padding do not count.
   */
  ghost predicate SameValue(t: Type, off: nat, a: seq<Cell>, b: seq<Cell>)
    decreases t, 0
  {
    match t
    case NumericType(size) => EqualBytes(off, size, a, b)
    case EnumType(size, _) => EqualBytes(off, size, a, b)
    case PointerType(size) => EqualBytes(off, size, a, b)
    case OpaqueType(_) => true
    case ArrayType(dimension, elem) => SameElements(elem, dimension, off, a, b)
    case CompoundType(fields, _) => SameFields(fields, off, a, b)
    case ContainerType(_, _, elem) =>
      && off < |a| && off < |b| && a[off].Head? && b[off].Head? && |a[off].elems| == |b[off].elems|
      && forall i :: 0 <= i < |a[off].elems| ==> SameValue(elem, 0, a[off].elems[i], b[off].elems[i])
  }

  ghost predicate SameElements(elem: Type, k: nat, off: nat, a: seq<Cell>, b: seq<Cell>)
    decreases elem, k + 1
  {
    k > 0 ==> SameValue(elem, off, a, b) && SameElements(elem, k - 1, off + Size(elem), a, b)
  }

  ghost predicate SameFields(fs: Fields, base: nat, a: seq<Cell>, b: seq<Cell>)
    decreases fs, 0
  {
    fs.FieldAt? ==> SameValue(fs.typ, base + fs.offset, a, b) && SameFields(fs.rest, base, a, b)
  }

  lemma {:induction false} SameBytesVisited(off: nat, n: nat, tail: Atoms, a: seq<Cell>, b: seq<Cell>)
    ensures Same(Bytes(off, n, tail), a, b) <==> EqualBytes(off, n, a, b) && Same(tail, a, b)
    decreases n
  {
    if n > 0 {
      SameBytesVisited(off + 1, n - 1, tail, a, b);
      assert EqualBytes(off, n, a, b) <==> EqualByte(off, a, b) && EqualBytes(off + 1, n - 1, a, b);
    }
  }

  /** Agreeing on all the visits of a type is having the same value. */
  lemma {:induction false} SameExactly(t: Type, off: nat, tail: Atoms, a: seq<Cell>, b: seq<Cell>)
    ensures Same(Visits(t, off, tail), a, b) <==> SameValue(t, off, a, b) && Same(tail, a, b)
    decreases t, 0
  {
    match t
    case NumericType(size) => SameBytesVisited(off, size, tail, a, b);
    case EnumType(size, _) => SameBytesVisited(off, size, tail, a, b);
    case PointerType(size) => SameBytesVisited(off, size, tail, a, b);
    case OpaqueType(_) =>
    case ArrayType(dimension, elem) => SameElementsExactly(elem, dimension, off, tail, a, b);
    case CompoundType(fields, _) => SameFieldsExactly(fields, off, tail, a, b);
    case ContainerType(_, _, elem) => SameContentsExactly(t, off, a, b);
  }

  lemma {:induction false} SameContentsExactly(t: Type, off: nat, a: seq<Cell>, b: seq<Cell>)
    requires t.ContainerType?
    ensures SameValue(t, off, a, b) <==>
              off < |a| && off < |b| && a[off].Head? && b[off].Head? && SameEach(Visits(t.elem, 0, Nil), a[off].elems, b[off].elems)
    decreases t.elem, 1
  {
    if off < |a| && off < |b| && a[off].Head? && b[off].Head? && |a[off].elems| == |b[off].elems| {
      var x, y := a[off].elems, b[off].elems;
      forall i | 0 <= i < |x| ensures Same(Visits(t.elem, 0, Nil), x[i], y[i]) <==> SameValue(t.elem, 0, x[i], y[i]) {
        SameExactly(t.elem, 0, Nil, x[i], y[i]);
      }
    }
  }

  lemma {:induction false} SameElementsExactly(elem: Type, k: nat, off: nat, tail: Atoms, a: seq<Cell>, b: seq<Cell>)
    ensures Same(VisitsEach(elem, k, off, tail), a, b) <==> SameElements(elem, k, off, a, b) && Same(tail, a, b)
    decreases elem, k + 1
  {
    if k > 0 {
      SameElementsExactly(elem, k - 1, off + Size(elem), tail, a, b);
      SameExactly(elem, off, VisitsEach(elem, k - 1, off + Size(elem), tail), a, b);
    }
  }

  lemma {:induction false} SameFieldsExactly(fs: Fields, base: nat, tail: Atoms, a: seq<Cell>, b: seq<Cell>)
    ensures Same(VisitsFields(fs, base, tail), a, b) <==> SameFields(fs, base, a, b) && Same(tail, a, b)
    decreases fs, 0
  {
    if fs.FieldAt? {
      SameFieldsExactly(fs.rest, base, tail, a, b);
      SameExactly(fs.typ, base + fs.offset, VisitsFields(fs.rest, base, tail), a, b);
    }
  }
}
