/** What `Typelib::init` leaves, said of every place and of every byte that belongs to none. */
module InitPlaces {
  import opened Tracing
  import opened Octets
  import opened Types
  import opened Compiler
  import opened Memory
  import opened Defaults
  import opened Places

  /** An enumeration with symbols holds the bytes of the first one's value, which may be negative; a container object is empty. */
  ghost predicate SetUp(p: Spot, mem: seq<Cell>) {
    && (p.typ.EnumType? && p.typ.values != [] ==>
          p.at + p.typ.size <= |mem| && forall i: nat :: i < p.typ.size ==> HoldsByte(mem, p.at + i, (p.typ.values[0].1 / Power256(i)) % 256))
    && (p.typ.ContainerType? ==>
          p.at + p.typ.size <= |mem| && (p.typ.size > 0 ==> mem[p.at] == Head([])) && forall i :: p.at < i < p.at + p.typ.size ==> mem[i] == Tail)
  }

  ghost predicate HoldsByte(mem: seq<Cell>, at: nat, byte: nat) {
    at < |mem| && byte < 256 && mem[at] == Cell.Raw(byte)
  }

  ghost predicate AllSetUp(places: seq<Spot>, mem: seq<Cell>) {
    forall k :: 0 <= k < |places| ==> SetUp(places[k], mem)
  }

  /** Initialisation writes to the place, and the place holds byte `i`. */
  ghost predicate Concerns(p: Spot, i: nat) {
    p.at <= i < p.at + Size(p.typ) && (p.typ.ContainerType? || (p.typ.EnumType? && p.typ.values != []))
  }

  ghost predicate Spared(places: seq<Spot>, i: nat) {
    forall k :: 0 <= k < |places| ==> !Concerns(places[k], i)
  }

  /** The bytes from `off` to `end` that no place is concerned with are the same in both memories. */
  ghost predicate Untouched(places: seq<Spot>, off: nat, end: nat, a: seq<Cell>, b: seq<Cell>) {
    end <= |a| && end <= |b| && forall i: nat :: off <= i < end && Spared(places, i) ==> a[i] == b[i]
  }

  lemma BothSetUp(p: seq<Spot>, q: seq<Spot>, mem: seq<Cell>)
    requires AllSetUp(p, mem) && AllSetUp(q, mem)
    ensures AllSetUp(p + q, mem)
  {
  }

  lemma BothUntouched(p: seq<Spot>, q: seq<Spot>, off: nat, mid: nat, end: nat, a: seq<Cell>, b: seq<Cell>)
    requires Untouched(p, off, mid, a, b) && Untouched(q, mid, end, a, b)
    ensures Untouched(p + q, off, end, a, b)
  {
    forall i: nat | Spared(p + q, i) ensures Spared(p, i) && Spared(q, i) {
      assert forall k :: 0 <= k < |p| ==> p[k] == (p + q)[k];
      assert forall k :: 0 <= k < |q| ==> q[k] == (p + q)[|p| + k];
    }
  }

  lemma KeptUntouched(p: seq<Spot>, off: nat, n: nat, a: seq<Cell>, b: seq<Cell>)
    requires Kept(a, b, off, n)
    ensures Untouched(p, off, off + n, a, b)
  {
  }

  lemma EnumSetUp(t: Type, off: nat, a: seq<Cell>, b: seq<Cell>)
    requires t.EnumType? && t.size <= 8 && Initialised(t, off, a, b)
    ensures SetUp(Spot(off, t), b)
  {
    if t.values != [] {
      var v := t.values[0].1;
      forall i: nat | i < t.size ensures HoldsByte(b, off + i, (v / Power256(i)) % 256) {
        FirstValue(t.size, v, i);
        assert b[off + i] == Cell.Raw(Encoded(t.size, Unsigned(v))[off + i - off]);
      }
    }
  }

  lemma LeafPlaces(t: Type, off: nat, a: seq<Cell>, b: seq<Cell>)
    requires !t.ArrayType? && !t.CompoundType? && Accepts(t, false, false) && Initialised(t, off, a, b) && off + Size(t) <= |a| == |b|
    ensures AllSetUp(PlacesOf(t, off), b) && Untouched(PlacesOf(t, off), off, off + Size(t), a, b)
  {
    var places := PlacesOf(t, off);
    assert places[0] == Spot(off, t);
    if t.EnumType? {
      EnumSetUp(t, off, a, b);
    }
    forall i: nat | off <= i < off + Size(t) && Spared(places, i) ensures a[i] == b[i] {
      assert !Concerns(places[0], i);
    }
  }

  /** Every place of an initialised value is set up, and no other byte of it has changed. */
  lemma {:induction false} InitialisedPlaces(t: Type, off: nat, a: seq<Cell>, b: seq<Cell>)
    requires Ordered(t) && Accepts(t, false, false) && Initialised(t, off, a, b) && off + Size(t) <= |a| == |b|
    ensures AllSetUp(PlacesOf(t, off), b) && Untouched(PlacesOf(t, off), off, off + Size(t), a, b)
    decreases t, 0
  {
    match t
    case ArrayType(dimension, elem) => InitialisedPlacesEach(elem, dimension, off, a, b);
    case CompoundType(fields, size) => InitialisedPlacesFields(fields, 0, size, off, a, b);
    case _ => LeafPlaces(t, off, a, b);
  }

  lemma {:induction false} InitialisedPlacesEach(elem: Type, k: nat, off: nat, a: seq<Cell>, b: seq<Cell>)
    requires Ordered(elem) && Accepts(elem, false, false) && InitialisedEach(elem, k, off, a, b) && off + Times(k, Size(elem)) <= |a| == |b|
    ensures AllSetUp(PlacesOfEach(elem, k, off), b) && Untouched(PlacesOfEach(elem, k, off), off, off + Times(k, Size(elem)), a, b)
    decreases elem, k + 1
  {
    if k > 0 {
      var mid, end := off + Size(elem), off + Times(k, Size(elem));
      InitialisedPlaces(elem, off, a, b);
      InitialisedPlacesEach(elem, k - 1, mid, a, b);
      var p, q := PlacesOf(elem, off), PlacesOfEach(elem, k - 1, mid);
      BothSetUp(p, q, b);
      BothUntouched(p, q, off, mid, end, a, b);
    }
  }

  lemma {:induction false} InitialisedPlacesFields(fs: Fields, at: nat, size: nat, base: nat, a: seq<Cell>, b: seq<Cell>)
    requires OrderedFields(fs, at, size) && AcceptsFields(fs, false, false) && InitialisedFields(fs, at, size, base, a, b)
    requires base + size <= |a| == |b|
    ensures at <= size && AllSetUp(PlacesOfFields(fs, base), b) && Untouched(PlacesOfFields(fs, base), base + at, base + size, a, b)
    decreases fs, 0
  {
    OrderedEnd(fs, at, size);
    if fs.FieldAt? {
      var start, end := fs.offset, fs.offset + Size(fs.typ);
      OrderedEnd(fs.rest, end, size);
      InitialisedPlaces(fs.typ, base + start, a, b);
      InitialisedPlacesFields(fs.rest, end, size, base, a, b);
      var p, q := PlacesOf(fs.typ, base + start), PlacesOfFields(fs.rest, base);
      BothSetUp(p, q, b);
      KeptUntouched(p, base + at, start - at, a, b);
      assert Untouched(p, base + at, base + end, a, b);
      BothUntouched(p, q, base + at, base + end, base + size, a, b);
    } else {
      KeptUntouched([], base + at, size - at, a, b);
    }
  }
}
