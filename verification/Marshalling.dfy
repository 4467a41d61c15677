/** Dumping and loading values of any type, through the layout that `layout_of` gives the type. */
module Marshalling {
  import opened Bytecode
  import opened Tracing
  import opened Simplification
  import opened Octets
  import opened Types
  import opened Memory
  import opened RoundTrip
  import opened Marshal
  import opened Defaults
  import opened Values

  /** Every container of the program is a vector of the elements its block describes. */
  ghost predicate Suited(env: Sizes, vec: Vectors, c: Code) {
    match c
    case Done => true
    case Memcpy(_, next) => Suited(env, vec, next)
    case Skip(_, next) => Suited(env, vec, next)
    case Array(_, b, next) => Suited(env, vec, b) && Suited(env, vec, next)
    case Container(h, b, next) => SuitedVector(env, vec, h, b) && Suited(env, vec, b) && Suited(env, vec, next)
  }

  ghost predicate SuitedVector(env: Sizes, vec: Vectors, h: nat, b: Code) {
    && h > END && h in env && env[h] > 0 && h in vec
    && Span(env, b) == vec[h].stride == |vec[h].blank| && vec[h].stride > 0
    && Fresh(Trace(env, Copied(b), 0, Nil), vec[h].blank)
    && vec[h].layout == Words(Simplified(true, Top(true), b, Nothing))
  }

  // ----- the optimiser keeps programs fit for the interpreters -----

  /**
   The bulk path is safe in a merged program: a vector whose elements are copied in bulk has, for
   a block, one MEMCPY of exactly the element size.
   */
  lemma BulkBlock(env: Sizes, vec: Vectors, h: nat, b: Code)
    requires SuitedVector(env, vec, h, b) && IsBulk(vec, h)
    ensures Simplified(true, Block, b, Nothing) == Memcpy(vec[h].stride, Done)
  {
    IsMemcpyExact(env, b, true);
    PlainMerges(env, Block, b, Nothing);
  }

  lemma ContainerFits(env: Sizes, vec: Vectors, h: nat, b: Code)
    requires SuitedVector(env, vec, h, b)
    requires var s := Simplified(true, Block, b, Nothing); Backed(env, vec, s) && Fits(env, vec, s)
    ensures var c := Container(h, Simplified(true, Block, b, Nothing), Done); Backed(env, vec, c) && Fits(env, vec, c)
  {
    BlockTrace(env, true, b, 0, Nil);
    if IsBulk(vec, h) {
      BulkBlock(env, vec, h, b);
    }
  }

  lemma {:induction false} FitAppend(env: Sizes, vec: Vectors, a: Code, b: Code)
    requires Backed(env, vec, a) && Fits(env, vec, a) && Backed(env, vec, b) && Fits(env, vec, b)
    ensures Backed(env, vec, Append(a, b)) && Fits(env, vec, Append(a, b))
  {
    if !a.Done? {
      FitAppend(env, vec, a.next, b);
    }
  }

  lemma {:induction false} MergedFits(env: Sizes, vec: Vectors, edge: Edge, c: Code, p: Pending)
    requires Suited(env, vec, c) && Valid(true, p)
    ensures var s := Simplified(true, edge, c, p); Backed(env, vec, s) && Fits(env, vec, s)
    decreases c
  {
    if !c.Done? {
      if HasBody(c) {
        MergedFits(env, vec, Block, c.body, Nothing);
      }
      if c.Container? {
        ContainerFits(env, vec, c.handle, c.body);
      }
      var t := After(true, c, p);
      assert Backed(env, vec, Written(p, t)) && Fits(env, vec, Written(p, t));
      MergedFits(env, vec, edge, c.next, t.pending);
      FitAppend(env, vec, Written(p, t), Simplified(true, edge, c.next, t.pending));
    }
  }

  // ----- and so are the programs of types -----

  lemma {:induction false} SuitedAppend(env: Sizes, vec: Vectors, a: Code, b: Code)
    requires Suited(env, vec, a) && Suited(env, vec, b)
    ensures Suited(env, vec, Append(a, b))
  {
    if !a.Done? {
      SuitedAppend(env, vec, a.next, b);
    }
  }

  /** The element that `Vector::resize` adds is a value whose containers are empty. */
  lemma BlankIsEmpty(env: Sizes, vec: Vectors, t: Type)
    requires Ordered(t) && Modelled(env, vec, t)
    ensures |Blank(env, t)| == Size(t) && IsValue(true, t, 0, Blank(env, t)) && Fresh(Fills(t, 0, Nil), Blank(env, t))
  {
    var zeros := Zeros(Size(t));
    ModelledIsDescribed(env, vec, t);
    if IsMemcpy(Words(LayoutOf(t, true, true))) {
      IsMemcpyExact(env, Types.Raw(t), true);
      PlainValue(env, t, 0, zeros);
    } else {
      InitIsExact(env, t, zeros);
      InitialisedIsEmpty(env, t, 0, zeros, Blank(env, t));
    }
    ValueSuits(true, vec, t, 0, Nil, Blank(env, t));
  }

  lemma {:induction false} RawIsSuited(env: Sizes, vec: Vectors, t: Type)
    requires Ordered(t) && Modelled(env, vec, t)
    ensures Suited(env, vec, Types.Raw(t))
    decreases t
  {
    match t
    case ArrayType(_, elem) => RawIsSuited(env, vec, elem);
    case ContainerType(h, _, elem) =>
      RawIsSuited(env, vec, elem);
      VectorIsSuited(env, vec, h, elem);
    case CompoundType(fields, size) => RawFieldsAreSuited(env, vec, fields, 0, size);
    case _ =>
  }

  lemma VectorIsSuited(env: Sizes, vec: Vectors, h: nat, elem: Type)
    requires h > END && h in env && env[h] > 0 && Modelled(env, vec, elem) && Ordered(elem) && Size(elem) > 0
    requires h in vec && vec[h] == Vector(Size(elem), Words(LayoutOf(elem, true, true)), Blank(env, elem))
    ensures SuitedVector(env, vec, h, Types.Raw(elem))
  {
    ModelledIsDescribed(env, vec, elem);
    BlankIsEmpty(env, vec, elem);
    CopiedIsExact(env, elem, 0, Nil);
    RawIsExact(env, elem, 0, Nil);
  }

  lemma {:induction false} RawFieldsAreSuited(env: Sizes, vec: Vectors, fs: Fields, at: nat, size: nat)
    requires OrderedFields(fs, at, size) && ModelledFields(env, vec, fs)
    ensures Suited(env, vec, RawFields(fs, at, size))
    decreases fs
  {
    match fs
    case NoMore =>
    case FieldAt(_, offset, typ, rest) =>
      RawIsSuited(env, vec, typ);
      RawFieldsAreSuited(env, vec, rest, offset + Size(typ), size);
      SuitedAppend(env, vec, Types.Raw(typ), RawFields(rest, offset + Size(typ), size));
  }

  // ----- plain types -----

  lemma {:induction false} PlainValue(env: Sizes, t: Type, off: nat, mem: seq<Cell>)
    requires Ordered(t) && Plain(Types.Raw(t)) && AllRaw(mem, off, Size(t))
    ensures IsValue(true, t, off, mem)
    decreases t, 0
  {
    match t
    case ArrayType(dimension, elem) => PlainValues(env, elem, dimension, off, mem);
    case CompoundType(fields, size) => PlainFields(env, fields, 0, size, off, mem);
    case _ =>
  }

  lemma {:induction false} PlainValues(env: Sizes, elem: Type, k: nat, off: nat, mem: seq<Cell>)
    requires Ordered(elem) && Plain(Types.Raw(elem)) && AllRaw(mem, off, Times(k, Size(elem)))
    ensures AreValues(true, elem, k, off, mem)
    decreases elem, k + 1
  {
    if k > 0 {
      PlainValue(env, elem, off, mem);
      PlainValues(env, elem, k - 1, off + Size(elem), mem);
    }
  }

  lemma {:induction false} PlainFields(env: Sizes, fs: Fields, at: nat, size: nat, base: nat, mem: seq<Cell>)
    requires OrderedFields(fs, at, size) && Plain(RawFields(fs, at, size)) && at <= size && AllRaw(mem, base + at, size - at)
    ensures HoldsFields(true, fs, at, size, base, mem)
    decreases fs, 0
  {
    if fs.FieldAt? {
      var end := fs.offset + Size(fs.typ);
      OrderedEnd(fs.rest, end, size);
      PlainAppend(Types.Raw(fs.typ), RawFields(fs.rest, end, size));
      PlainValue(env, fs.typ, base + fs.offset, mem);
      PlainFields(env, fs.rest, end, size, base, mem);
    }
  }

  // ----- the round trip -----

  /** What the layout of a type visits. */
  function Marshalled(env: Sizes, t: Type, remove: bool): Atoms
    requires Ordered(t)
  {
    Trace(env, LayoutOf(t, true, remove), 0, Nil)
  }

  /** The layout of a type runs in both interpreters, on every value of the type. */
  lemma LayoutRuns(env: Sizes, vec: Vectors, t: Type, remove: bool, empty: bool, mem: seq<Cell>)
    requires Ordered(t) && Modelled(env, vec, t) && IsValue(empty, t, 0, mem)
    ensures Fits(env, vec, LayoutOf(t, true, remove)) && Backed(env, vec, LayoutOf(t, true, remove))
    ensures Sound(vec, Marshalled(env, t, remove), 0) && Suits(empty, vec, Marshalled(env, t, remove), mem)
  {
    var raw := Types.Raw(t);
    ModelledIsDescribed(env, vec, t);
    RawIsSuited(env, vec, t);
    MergedFits(env, vec, Top(remove), raw, Nothing);
    TraceSound(env, vec, LayoutOf(t, true, remove), 0, Nil);
    ValueSuits(empty, vec, t, 0, Nil, mem);
    CopiedIsExact(env, t, 0, Nil);
    UntrailedTrace(env, raw, 0, Nil);
    MergedTrace(env, raw, remove);
    SuitsStart(empty, env, vec, Copied(Untrailed(raw)), 0, Bytes(Span(env, Untrailed(raw)), Trail(raw, 0), Nil), mem);
  }

  lemma SuitsStart(empty: bool, env: Sizes, vec: Vectors, c: Code, off: nat, tail: Atoms, mem: seq<Cell>)
    requires Suits(empty, vec, Trace(env, c, off, tail), mem)
    ensures Suits(empty, vec, Trace(env, c, off, Nil), mem)
  {
    TraceThen(env, c, off, Nil, tail);
    ShapedThen(vec, Trace(env, c, off, Nil), tail, mem);
    if empty {
      FreshThen(Trace(env, c, off, Nil), tail, mem);
    }
  }

  lemma {:induction false} FreshThen(a: Atoms, b: Atoms, mem: seq<Cell>)
    requires Fresh(Then(a, b), mem)
    ensures Fresh(a, mem)
  {
    if !a.Nil? {
      FreshThen(a.rest, b, mem);
    }
  }

  /**
   The round trip, for every type and every value of it: loading the dump into an initialised value
   reads all of the dump and nothing more, and `compare` then finds the two values equal.
   */
  lemma RoundTripOfType(env: Sizes, vec: Vectors, t: Type, remove: bool, mem: seq<Cell>, into: seq<Cell>, s: seq<octet>)
    requires Ordered(t) && Modelled(env, vec, t) && IsValue(false, t, 0, mem) && IsValue(true, t, 0, into)
    ensures var visits := Marshalled(env, t, remove);
            && Shaped(vec, visits, mem)
            && var r := Load(vec, visits, into, Dumped(vec, visits, mem) + s);
               r.Loaded? && r.left == s && Same(Visits(t, 0, Nil), r.value, mem)
  {
    var visits := Marshalled(env, t, remove);
    LayoutRuns(env, vec, t, remove, false, mem);
    LayoutRuns(env, vec, t, remove, true, into);
    FreshReceives(vec, visits, into, mem);
    LoadDumped(vec, visits, 0, mem, into, s);
    ModelledIsDescribed(env, vec, t);
    var layoutVisits, typeVisits := MergedLayoutCovers(env, t, remove);
    SameCovers(visits, Visits(t, 0, Nil), Load(vec, visits, into, Dumped(vec, visits, mem) + s).value, mem);
  }
}
