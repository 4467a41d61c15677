/** What initialising a value leaves in memory. */
module Defaults {
  import opened Tracing
  import opened Octets
  import opened Types
  import opened Compiler
  import opened Memory
  import IC = InitCode

  /** Memory after placing an empty container object of `n` bytes at `at`. */
  function Emptied(mem: seq<Cell>, at: nat, n: nat): (r: seq<Cell>)
    ensures |r| == |mem|
  {
    seq(|mem|, i requires 0 <= i < |mem| => if i == at then Head([]) else if at < i < at + n then Tail else mem[i])
  }

  /** Memory after the writes of an initialisation program. */
  function Applied(env: Sizes, ws: IC.Writes, mem: seq<Cell>): (r: seq<Cell>)
    ensures |r| == |mem|
    decreases ws
  {
    match ws
    case NoWrite => mem
    case Set(at, value, rest) => Applied(env, rest, if at < |mem| then mem[at := Cell.Raw(value % 256)] else mem)
    case Clear(at, h, rest) => Applied(env, rest, Emptied(mem, at, SizeOf(env, h)))
  }

  /** The two memories hold the same cells in a range. */
  ghost predicate Kept(a: seq<Cell>, b: seq<Cell>, off: nat, n: nat) {
    off + n <= |a| && off + n <= |b| && forall i :: off <= i < off + n ==> a[i] == b[i]
  }

  /**
   Memory `b` is memory `a` with the value of type `t` at `off` initialised: enumerations
   hold their first value, containers are empty, and nothing else has changed.
   */
  ghost predicate Initialised(t: Type, off: nat, a: seq<Cell>, b: seq<Cell>)
    decreases t, 0
  {
    match t
    case EnumType(size, values) =>
      if values == [] then Kept(a, b, off, size)
      else off + size <= |b| && forall i :: off <= i < off + size ==> b[i] == Cell.Raw(Encoded(size, Unsigned(values[0].1))[i - off])
    case ArrayType(dimension, elem) => InitialisedEach(elem, dimension, off, a, b)
    case ContainerType(_, size, _) =>
      off + size <= |b| && (size > 0 ==> b[off] == Head([])) && forall i :: off < i < off + size ==> b[i] == Tail
    case CompoundType(fields, size) => InitialisedFields(fields, 0, size, off, a, b)
    case _ => Kept(a, b, off, Size(t))
  }

  ghost predicate InitialisedEach(elem: Type, k: nat, off: nat, a: seq<Cell>, b: seq<Cell>)
    decreases elem, k + 1
  {
    k > 0 ==> Initialised(elem, off, a, b) && InitialisedEach(elem, k - 1, off + Size(elem), a, b)
  }

  ghost predicate InitialisedFields(fs: Fields, at: nat, size: nat, base: nat, a: seq<Cell>, b: seq<Cell>)
    decreases fs, 0
  {
    match fs
    case NoMore => at <= size && Kept(a, b, base + at, size - at)
    case FieldAt(_, offset, typ, rest) =>
      && at <= offset && Kept(a, b, base + at, offset - at)
      && Initialised(typ, base + offset, a, b)
      && InitialisedFields(rest, offset + Size(typ), size, base, a, b)
  }

  /** Initialisation only concerns the bytes of the value. */
  lemma {:induction false} InitialisedFrame(t: Type, off: nat, a: seq<Cell>, b: seq<Cell>, a': seq<Cell>, b': seq<Cell>)
    requires Ordered(t) && Initialised(t, off, a, b) && Kept(a, a', off, Size(t)) && Kept(b, b', off, Size(t))
    ensures Initialised(t, off, a', b')
    decreases t, 0
  {
    match t
    case ArrayType(dimension, elem) => EachFrame(elem, dimension, off, a, b, a', b');
    case CompoundType(fields, size) => FieldsFrame(fields, 0, size, off, a, b, a', b');
    case _ =>
  }

  lemma {:induction false} EachFrame(elem: Type, k: nat, off: nat, a: seq<Cell>, b: seq<Cell>, a': seq<Cell>, b': seq<Cell>)
    requires Ordered(elem) && InitialisedEach(elem, k, off, a, b)
    requires Kept(a, a', off, Times(k, Size(elem))) && Kept(b, b', off, Times(k, Size(elem)))
    ensures InitialisedEach(elem, k, off, a', b')
    decreases elem, k + 1
  {
    if k > 0 {
      InitialisedFrame(elem, off, a, b, a', b');
      EachFrame(elem, k - 1, off + Size(elem), a, b, a', b');
    }
  }

  lemma {:induction false} FieldsFrame(fs: Fields, at: nat, size: nat, base: nat, a: seq<Cell>, b: seq<Cell>, a': seq<Cell>, b': seq<Cell>)
    requires OrderedFields(fs, at, size) && InitialisedFields(fs, at, size, base, a, b)
    requires at <= size && Kept(a, a', base + at, size - at) && Kept(b, b', base + at, size - at)
    ensures InitialisedFields(fs, at, size, base, a', b')
    decreases fs, 0
  {
    if fs.FieldAt? {
      OrderedEnd(fs.rest, fs.offset + Size(fs.typ), size);
      InitialisedFrame(fs.typ, base + fs.offset, a, b, a', b');
      FieldsFrame(fs.rest, fs.offset + Size(fs.typ), size, base, a, b, a', b');
    }
  }

  lemma {:induction false} OrderedEnd(fs: Fields, at: nat, size: nat)
    requires OrderedFields(fs, at, size)
    ensures at <= size
  {
    if fs.FieldAt? {
      OrderedEnd(fs.rest, fs.offset + Size(fs.typ), size);
    }
  }

  // ----- the writes of the program do exactly that -----

  /** From `mem` to `m`, the value at `off` is initialised and nothing around it changes. */
  ghost predicate Steps(t: Type, off: nat, mem: seq<Cell>, m: seq<Cell>) {
    Initialised(t, off, mem, m) && Around(off, Size(t), mem, m)
  }

  ghost predicate Around(off: nat, n: nat, a: seq<Cell>, b: seq<Cell>) {
    |a| == |b| && Kept(a, b, 0, off) && off + n <= |a| && Kept(a, b, off + n, |a| - off - n)
  }

  lemma {:induction false} Initialises(env: Sizes, t: Type, off: nat, tail: IC.Writes, mem: seq<Cell>) returns (m: seq<Cell>)
    requires Ordered(t) && Described(env, t) && off + Size(t) <= |mem|
    ensures Applied(env, InitVisits(t, off, tail), mem) == Applied(env, tail, m)
    ensures Steps(t, off, mem, m)
    decreases t, 0
  {
    match t
    case EnumType(size, values) =>
      m := EnumInitialises(env, size, values, off, tail, mem);
    case ArrayType(dimension, elem) =>
      m := InitialisesEach(env, elem, dimension, off, tail, mem);
    case ContainerType(_, size, _) =>
      m := Emptied(mem, off, size);
    case CompoundType(fields, size) =>
      m := InitialisesFields(env, fields, 0, size, off, tail, mem);
    case _ =>
      m := mem;
  }

  lemma EnumInitialises(env: Sizes, size: nat, values: seq<(string, int)>, off: nat, tail: IC.Writes, mem: seq<Cell>) returns (m: seq<Cell>)
    requires off + size <= |mem|
    ensures Applied(env, IC.Sets(off, EnumData(size, values), tail), mem) == Applied(env, tail, m)
    ensures Steps(EnumType(size, values), off, mem, m)
  {
    m := SetsApply(env, off, EnumData(size, values), tail, mem);
    if values != [] {
      var d: seq<octet> := Encoded(size, Unsigned(values[0].1));
      forall i | off <= i < off + size ensures m[i] == Cell.Raw(d[i - off]) {
        assert m[i] == Cell.Raw(d[i - off] % 256);
      }
    }
  }

  lemma {:induction false} SetsApply(env: Sizes, off: nat, d: seq<nat>, tail: IC.Writes, mem: seq<Cell>) returns (m: seq<Cell>)
    requires off + |d| <= |mem|
    ensures Applied(env, IC.Sets(off, d, tail), mem) == Applied(env, tail, m) && Around(off, |d|, mem, m)
    ensures forall i :: off <= i < off + |d| ==> m[i] == Cell.Raw(d[i - off] % 256)
    decreases |d|
  {
    if d == [] {
      m := mem;
    } else {
      m := SetsApply(env, off + 1, d[1..], tail, mem[off := Cell.Raw(d[0] % 256)]);
    }
  }

  lemma {:induction false} InitialisesEach(env: Sizes, elem: Type, k: nat, off: nat, tail: IC.Writes, mem: seq<Cell>) returns (m: seq<Cell>)
    requires Ordered(elem) && Described(env, elem) && off + Times(k, Size(elem)) <= |mem|
    ensures Applied(env, InitVisitsEach(elem, k, off, tail), mem) == Applied(env, tail, m)
    ensures InitialisedEach(elem, k, off, mem, m) && Around(off, Times(k, Size(elem)), mem, m)
    decreases elem, k + 1
  {
    if k == 0 {
      m := mem;
    } else {
      var n := Size(elem);
      var mid := Initialises(env, elem, off, InitVisitsEach(elem, k - 1, off + n, tail), mem);
      m := InitialisesEach(env, elem, k - 1, off + n, tail, mid);
      InitialisedFrame(elem, off, mem, mid, mem, m);
      EachFrame(elem, k - 1, off + n, mid, m, mem, m);
    }
  }

  lemma {:induction false} InitialisesFields(env: Sizes, fs: Fields, at: nat, size: nat, base: nat, tail: IC.Writes, mem: seq<Cell>) returns (m: seq<Cell>)
    requires OrderedFields(fs, at, size) && DescribedFields(env, fs) && base + size <= |mem|
    ensures at <= size && Applied(env, InitVisitsFields(fs, base, tail), mem) == Applied(env, tail, m)
    ensures InitialisedFields(fs, at, size, base, mem, m) && Around(base + at, size - at, mem, m)
    decreases fs, 0
  {
    OrderedEnd(fs, at, size);
    match fs
    case NoMore =>
      m := mem;
    case FieldAt(_, offset, typ, rest) =>
      var end := offset + Size(typ);
      OrderedEnd(rest, end, size);
      var mid := Initialises(env, typ, base + offset, InitVisitsFields(rest, base, tail), mem);
      m := InitialisesFields(env, rest, end, size, base, tail, mid);
      InitialisedFrame(typ, base + offset, mem, mid, mem, m);
      FieldsFrame(rest, end, size, base, mid, m, mem, m);
  }

  /** Running the simplified initialisation program of a type on any memory initialises the value and nothing else. */
  lemma InitIsExact(env: Sizes, t: Type, mem: seq<Cell>)
    requires Ordered(t) && Described(env, t) && Size(t) <= |mem|
    ensures Steps(t, 0, mem, Applied(env, IC.Effect(env, InitLayoutOf(t), 0, IC.NoWrite), mem))
  {
    InitLayoutIsExact(env, t);
    var m := Initialises(env, t, 0, IC.NoWrite, mem);
  }
}
