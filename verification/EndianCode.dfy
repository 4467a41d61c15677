/**
 The compiled endianness swap: its programs and what they mean.

 A program writes the output byte by byte, in order, so its meaning is the list of input
 positions that those bytes come from. The partner of the compiler is `Mirror`: where each
 byte of a swapped value comes from, leaf by leaf.
 */
module EndianCode {
  import opened Tracing
  import opened Types

  // The flags are the largest values of `size_t`; written as they are in the source.
  const FLAG_SKIP: int := -1
  const FLAG_ARRAY: int := -2
  const FLAG_END: int := -3
  const FLAG_SWAP_4: int := -4
  const FLAG_SWAP_8: int := -5
  const SIZE_OF_ENUM: nat := 4

  /** The widths that have a swap operation of their own. */
  type SwapWidth = n: nat | n == 4 || n == 8 witness 4

  datatype Code =
    | Done
    | Skip(n: nat, next: Code)
    | Swap(width: SwapWidth, next: Code)
    | Take(index: nat, next: Code)
    | Array(count: nat, size: nat, body: Code, next: Code)

  function Words(c: Code): (w: seq<int>)
    ensures |w| == Len(c)
  {
    match c
    case Done => []
    case Skip(n, next) => [FLAG_SKIP, n] + Words(next)
    case Swap(width, next) => [if width == 4 then FLAG_SWAP_4 else FLAG_SWAP_8] + Words(next)
    case Take(index, next) => [index as int] + Words(next)
    case Array(count, size, body, next) => [FLAG_ARRAY, count, size] + Words(body) + [FLAG_END] + Words(next)
  }

  function Len(c: Code): nat {
    match c
    case Done => 0
    case Skip(_, next) => 2 + Len(next)
    case Swap(_, next) => 1 + Len(next)
    case Take(_, next) => 1 + Len(next)
    case Array(_, _, body, next) => 4 + Len(body) + Len(next)
  }

  function Append(a: Code, b: Code): Code {
    if a.Done? then b else a.(next := Append(a.next, b))
  }

  // ----- meaning -----

  /** The input positions of the output bytes, in order. */
  datatype Feed = Stop | From(src: nat, rest: Feed)

  /** `n` bytes left where they are. */
  function Same(off: nat, n: nat, tail: Feed): Feed
    decreases n
  {
    if n == 0 then tail else From(off, Same(off + 1, n - 1, tail))
  }

  /** `n` bytes back to front. */
  function Back(off: nat, n: nat, tail: Feed): Feed
    decreases n
  {
    if n == 0 then tail else From(off + n - 1, Back(off, n - 1, tail))
  }

  /** The bytes of a program that writes from `out` on, with its input moved by `inp`. */
  function Run(c: Code, out: nat, inp: nat, tail: Feed): Feed
    decreases c, 1
  {
    if c.Done? then tail else Step(c, out, inp, Run(c.next, out + StepReach(c), inp, tail))
  }

  /** The bytes of the first operation. */
  function Step(c: Code, out: nat, inp: nat, tail: Feed): Feed
    requires !c.Done?
    decreases c, 0
  {
    match c
    case Skip(n, _) => Same(out, n, tail)
    case Swap(width, _) => Back(out, width, tail)
    case Take(index, _) => From(inp + index, tail)
    case Array(count, size, body, _) => RunEach(body, size, count, out, inp, tail)
  }

  function RunEach(body: Code, size: nat, k: nat, out: nat, inp: nat, tail: Feed): Feed
    decreases body, k + 2
  {
    if k == 0 then tail else Run(body, out, inp, RunEach(body, size, k - 1, out + Reach(body), inp + size, tail))
  }

  /** How many bytes a program writes. */
  function Reach(c: Code): nat
    decreases c, 1
  {
    if c.Done? then 0 else StepReach(c) + Reach(c.next)
  }

  function StepReach(c: Code): nat
    requires !c.Done?
    decreases c, 0
  {
    match c
    case Skip(n, _) => n
    case Swap(width, _) => width
    case Take(_, _) => 1
    case Array(count, _, body, _) => Times(count, Reach(body))
  }

  lemma {:induction false} ReachAppend(a: Code, b: Code)
    ensures Reach(Append(a, b)) == Reach(a) + Reach(b)
  {
    if !a.Done? {
      ReachAppend(a.next, b);
    }
  }

  lemma {:induction false} RunAppend(a: Code, b: Code, out: nat, mid: nat, inp: nat, tail: Feed)
    requires mid == out + Reach(a)
    ensures Run(Append(a, b), out, inp, tail) == Run(a, out, inp, Run(b, mid, inp, tail))
    decreases a
  {
    if !a.Done? {
      RunAppend(a.next, b, out + StepReach(a), mid, inp, tail);
      SameStep(a, Append(a.next, b), out, inp, Run(a.next, out + StepReach(a), inp, Run(b, mid, inp, tail)));
    }
  }

  /** The first operation does not depend on what follows it. */
  lemma SameStep(c: Code, next: Code, out: nat, inp: nat, tail: Feed)
    requires !c.Done?
    ensures StepReach(c.(next := next)) == StepReach(c) && Step(c.(next := next), out, inp, tail) == Step(c, out, inp, tail)
  {
  }

  lemma {:induction false} SameTwice(off: nat, m: nat, n: nat, tail: Feed)
    ensures Same(off, m + n, tail) == Same(off, m, Same(off + m, n, tail))
    decreases m
  {
    if m > 0 {
      SameTwice(off + 1, m - 1, n, tail);
    }
  }

  // ----- what swapping a value means -----

  /**
   Numbers of one, two, four or eight bytes, enumerations at least as large as an `int`, and arrays and
   structures of them. An enumeration is swapped as an `int`, whatever its size: what a larger one has
   beyond that counts as padding, and in a smaller one both swaps reach over its end.
   */
  predicate Swappable(t: Type)
    decreases t
  {
    match t
    case NumericType(size) => size == 1 || size == 2 || size == 4 || size == 8
    case EnumType(size, _) => size >= SIZE_OF_ENUM
    case ArrayType(dimension, elem) => dimension > 0 && Swappable(elem)
    case CompoundType(fields, _) => SwappableFields(fields)
    case _ => false
  }

  predicate SwappableFields(fs: Fields)
    decreases fs
  {
    fs.FieldAt? ==> Swappable(fs.typ) && SwappableFields(fs.rest)
  }

  /** How many bytes of a leaf are swapped. */
  function Width(t: Type): nat {
    if t.EnumType? then SIZE_OF_ENUM else Size(t)
  }

  /** Where the last leaf of the type ends; padding may follow. */
  function End(t: Type): nat
    decreases t
  {
    match t
    case ArrayType(dimension, elem) => if dimension == 0 then 0 else Times(dimension - 1, Size(elem)) + End(elem)
    case CompoundType(fields, _) => EndOf(fields)
    case _ => Width(t)
  }

  function EndOf(fs: Fields): nat
    decreases fs
  {
    if fs.NoMore? then 0 else if fs.rest.NoMore? then fs.offset + End(fs.typ) else EndOf(fs.rest)
  }

  /** The input positions of the bytes of the swapped value at `off`, up to its last leaf. */
  function Mirrored(t: Type, off: nat, tail: Feed): Feed
    decreases t, 0
  {
    match t
    case ArrayType(dimension, elem) => MirroredEach(elem, dimension, off, tail)
    case CompoundType(fields, _) => MirroredFields(fields, 0, off, tail)
    case _ => Back(off, Width(t), tail)
  }

  /** Elements follow each other at the distance of their size. */
  function MirroredEach(elem: Type, k: nat, off: nat, tail: Feed): Feed
    decreases elem, k + 1
  {
    if k == 0 then tail
    else if k == 1 then Mirrored(elem, off, tail)
    else Mirrored(elem, off, Same(off + End(elem), Pad(elem), MirroredEach(elem, k - 1, off + Size(elem), tail)))
  }

  /** From address `at` of the structure on. */
  function MirroredFields(fs: Fields, at: nat, base: nat, tail: Feed): Feed
    decreases fs, 0
  {
    match fs
    case NoMore => tail
    case FieldAt(_, offset, typ, rest) =>
      var gap := if at <= offset then offset - at else 0;
      Same(base + at, gap,
           if rest.NoMore? then Mirrored(typ, base + offset, tail)
           else Mirrored(typ, base + offset, Same(base + offset + End(typ), Pad(typ), MirroredFields(rest, offset + Size(typ), base, tail))))
  }

  /** The padding behind the last leaf of a type. */
  function Pad(t: Type): nat {
    if End(t) <= Size(t) then Size(t) - End(t) else 0
  }
}
