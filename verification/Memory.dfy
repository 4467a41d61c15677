/** Memory as the layout interpreters see it, and what they do to it, visit by visit. */
module Memory {
  import opened Tracing
  import opened Simplification
  import opened Octets
  import opened Seqs
  import opened Lifecycle

  /** A byte, the first byte of a container object together with its elements, or one of its other bytes. */
  datatype Cell =
    | Raw(b: octet)
    | Head(elems: seq<seq<Cell>>)
    | Tail

  /** What a vector type knows of its elements: their size, their layout, and a default-initialised one. */
  datatype Vector = Vector(stride: nat, layout: seq<nat>, blank: seq<Cell>)

  type Vectors = map<nat, Vector>

  // ----- counts in the stream -----

  const COUNT_LIMIT: nat := 0x1_0000_0000_0000_0000

  /** The element count in front of a container's elements, as a `uint64_t`. */
  function Count(n: nat): seq<octet> {
    Encoded(8, n)
  }

  lemma CountLimit()
    ensures Power256(8) == COUNT_LIMIT
  {
    assert Power256(2) == 0x1_0000;
    assert Power256(4) == 0x1_0000_0000 by { assert Power256(3) == 0x100_0000; }
    assert Power256(6) == 0x1_0000_0000_0000 by { assert Power256(5) == 0x100_0000_0000; }
    assert Power256(7) == 0x100_0000_0000_0000;
  }

  lemma CountDecodes(n: nat)
    requires n < COUNT_LIMIT
    ensures |Count(n)| == 8 && Decoded(Count(n)) == n
  {
    CountLimit();
    EncodedDecodes(8, n);
  }

  /** Eight bytes, the lowest first. */
  lemma CountByte(n: nat, i: nat)
    requires i < 8
    ensures |Count(n)| == 8 && Count(n)[i] == (n / Power256(i)) % 256
  {
    EncodedByte(8, n, i);
  }

  // ----- memory that fits a trace -----

  /** Bytes are bytes and containers are containers where the trace expects them, at any depth. */
  ghost predicate Shaped(vec: Vectors, t: Atoms, mem: seq<Cell>)
    decreases t, 0
  {
    match t
    case Nil => true
    case Byte(at, rest) => at < |mem| && mem[at].Raw? && Shaped(vec, rest, mem)
    case Box(at, h, elem, rest) =>
      && at < |mem| && mem[at].Head? && h in vec
      && |mem[at].elems| < COUNT_LIMIT && ShapedEach(vec, h, elem, mem[at].elems)
      && Shaped(vec, rest, mem)
  }

  ghost predicate ShapedEach(vec: Vectors, h: nat, elem: Atoms, elems: seq<seq<Cell>>)
    requires h in vec
    decreases elem, 1
  {
    forall i :: 0 <= i < |elems| ==> |elems[i]| == vec[h].stride && Shaped(vec, elem, elems[i])
  }

  lemma {:induction false} ShapedThen(vec: Vectors, a: Atoms, b: Atoms, mem: seq<Cell>)
    ensures Shaped(vec, Then(a, b), mem) <==> Shaped(vec, a, mem) && Shaped(vec, b, mem)
    decreases a
  {
    if !a.Nil? {
      ShapedThen(vec, a.rest, b, mem);
    }
  }

  // ----- dump -----

  /** The bytes that marshalling writes for a trace. */
  function Dumped(vec: Vectors, t: Atoms, mem: seq<Cell>): seq<octet>
    requires Shaped(vec, t, mem)
    decreases t, 0
  {
    match t
    case Nil => []
    case Byte(at, rest) => [mem[at].b] + Dumped(vec, rest, mem)
    case Box(at, h, elem, rest) =>
      Count(|mem[at].elems|) + DumpedEach(vec, h, elem, mem[at].elems) + Dumped(vec, rest, mem)
  }

  function DumpedEach(vec: Vectors, h: nat, elem: Atoms, elems: seq<seq<Cell>>): seq<octet>
    requires h in vec && ShapedEach(vec, h, elem, elems)
    decreases elem, 1, |elems|
  {
    if elems == [] then [] else Dumped(vec, elem, elems[0]) + DumpedEach(vec, h, elem, elems[1..])
  }

  lemma {:induction false} DumpedThen(vec: Vectors, a: Atoms, b: Atoms, mem: seq<Cell>)
    requires Shaped(vec, a, mem) && Shaped(vec, b, mem)
    ensures Shaped(vec, Then(a, b), mem) && Dumped(vec, Then(a, b), mem) == Dumped(vec, a, mem) + Dumped(vec, b, mem)
    decreases a
  {
    ShapedThen(vec, a, b, mem);
    if a.Nil? {
      assert [] + Dumped(vec, b, mem) == Dumped(vec, b, mem);
    } else {
      DumpedThen(vec, a.rest, b, mem);
      Regroup(HeadDumped(vec, a, mem), Dumped(vec, a.rest, mem), Dumped(vec, b, mem));
      assert HeadDumped(vec, Then(a, b), mem) == HeadDumped(vec, a, mem);
    }
  }

  /** The bytes of the first location. */
  function HeadDumped(vec: Vectors, t: Atoms, mem: seq<Cell>): (d: seq<octet>)
    requires !t.Nil? && Shaped(vec, t, mem)
    ensures Dumped(vec, t, mem) == d + Dumped(vec, t.rest, mem)
  {
    if t.Byte? then [mem[t.at].b] else Count(|mem[t.at].elems|) + DumpedEach(vec, t.handle, t.elem, mem[t.at].elems)
  }

  // ----- load -----

  datatype Loading<T> = Short | Loaded(value: T, left: seq<octet>)

  /** `Vector::resize`: existing elements stay, missing ones are default-initialised, the others go. */
  function Resized(v: Vector, elems: seq<seq<Cell>>, n: nat): (r: seq<seq<Cell>>)
    ensures |r| == n
  {
    Refitted(elems, n, v.blank)
  }

  /** What unmarshalling a trace from `s` does to `mem`; `Short` if the stream ends too early. An empty container is left as it was. */
  function Load(vec: Vectors, t: Atoms, mem: seq<Cell>, s: seq<octet>): (r: Loading<seq<Cell>>)
    ensures r.Loaded? ==> |r.value| == |mem|
    decreases t, 0
  {
    match t
    case Nil => Loaded(mem, s)
    case Byte(at, rest) =>
      if s == [] || at >= |mem| then Short else Load(vec, rest, mem[at := Raw(s[0])], s[1..])
    case Box(at, h, elem, rest) =>
      if |s| < 8 || at >= |mem| || !mem[at].Head? || h !in vec then Short
      else
        var n := Decoded(s[..8]);
        if n == 0 then Load(vec, rest, mem, s[8..])
        else
          var r := LoadEach(vec, elem, Resized(vec[h], mem[at].elems, n), s[8..]);
          if r.Short? then Short else Load(vec, rest, mem[at := Head(r.value)], r.left)
  }

  function LoadEach(vec: Vectors, elem: Atoms, elems: seq<seq<Cell>>, s: seq<octet>): (r: Loading<seq<seq<Cell>>>)
    ensures r.Loaded? ==> |r.value| == |elems|
    decreases elem, 1, |elems|
  {
    if elems == [] then Loaded([], s)
    else
      var first := Load(vec, elem, elems[0], s);
      if first.Short? then Short
      else
        var others := LoadEach(vec, elem, elems[1..], first.left);
        if others.Short? then Short else Loaded([first.value] + others.value, others.left)
  }

  // ----- compare -----

  /** Whether two memories agree on every location of a trace: bytes equal, containers equal element by element. */
  predicate Same(t: Atoms, a: seq<Cell>, b: seq<Cell>)
    decreases t, 0
  {
    match t
    case Nil => true
    case Byte(at, rest) => at < |a| && at < |b| && a[at] == b[at] && Same(rest, a, b)
    case Box(at, _, elem, rest) =>
      && at < |a| && at < |b| && a[at].Head? && b[at].Head?
      && SameEach(elem, a[at].elems, b[at].elems)
      && Same(rest, a, b)
  }

  predicate SameEach(elem: Atoms, a: seq<seq<Cell>>, b: seq<seq<Cell>>)
    decreases elem, 1, |a|
  {
    |a| == |b| && forall i :: 0 <= i < |a| ==> Same(elem, a[i], b[i])
  }

  /** Agreement on a trace is agreement on everything that trace covers. */
  lemma {:induction false} SameCovers(merged: Atoms, raw: Atoms, a: seq<Cell>, b: seq<Cell>)
    requires Covers(merged, raw) && Same(merged, a, b)
    ensures Same(raw, a, b)
    decreases merged
  {
    match merged
    case Nil =>
    case Byte(at, rest) =>
      if Covers(rest, raw) {
        SameCovers(rest, raw, a, b);
      } else {
        SameCovers(rest, raw.rest, a, b);
      }
    case Box(at, _, elem, rest) =>
      forall i | 0 <= i < |a[at].elems| ensures Same(raw.elem, a[at].elems[i], b[at].elems[i]) {
        SameCovers(elem, raw.elem, a[at].elems[i], b[at].elems[i]);
      }
      SameCovers(rest, raw.rest, a, b);
  }
}
