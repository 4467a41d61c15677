/**
 Layouts whose padding is kept apart, and the raw ones.

 Both visit the same locations in the same order, so copying, destroying and comparing do the
 same through either. Dumping and loading do not: a vector whose elements are plain bytes goes
 through a shortcut that looks at the words of the block, not at what they mean. This module
 says exactly which types have a raw or an unmerged layout that the shortcut can handle.
 */
module Unmerged {
  import opened Bytecode
  import opened Tracing
  import opened Simplification
  import opened Octets
  import opened Types
  import opened Memory
  import opened RoundTrip
  import opened Marshal
  import opened Values
  import opened Marshalling
  import opened Comparison
  import opened Leftovers
  import opened Duplication
  import opened Destruction

  // ----- copying, destroying, comparing -----

  /** `simplify(false, r)` copies exactly what the raw program does, wherever that one runs to its end. */
  lemma UnmergedCopies(n: nat, env: Sizes, vec: Vectors, kinds: Kinds, c: Code, remove: bool, mem: seq<Cell>, src: seq<Cell>)
    requires AllCatalogued(n, env, vec, kinds, c) && Completes(c)
    ensures var s := Simplified(false, Top(remove), c, Nothing);
            && AllCatalogued(n, env, vec, kinds, s) && Completes(s)
            && Duplicated(n, env, vec, kinds, Trace(env, s, 0, Nil), mem, src) == Duplicated(n, env, vec, kinds, Trace(env, c, 0, Nil), mem, src)
  {
    SimplifiedIsCatalogued(n, env, vec, kinds, false, Top(remove), c, Nothing);
    SimplifiedCompletes(false, Top(remove), c, Nothing);
    UnmergedTrace(env, c, remove);
  }

  /** It destroys the same objects in the same order. */
  lemma UnmergedDestroys(n: nat, env: Sizes, vec: Vectors, kinds: Kinds, c: Code, remove: bool, mem: seq<Cell>)
    requires AllCatalogued(n, env, vec, kinds, c) && Completes(c)
    ensures var s := Simplified(false, Top(remove), c, Nothing);
            && AllCatalogued(n, env, vec, kinds, s) && Completes(s)
            && Freed(n, env, vec, kinds, Trace(env, s, 0, Nil), mem) == Freed(n, env, vec, kinds, Trace(env, c, 0, Nil), mem)
  {
    SimplifiedIsCatalogued(n, env, vec, kinds, false, Top(remove), c, Nothing);
    SimplifiedCompletes(false, Top(remove), c, Nothing);
    UnmergedTrace(env, c, remove);
  }

  /** And it compares the same. */
  lemma UnmergedCompares(n: nat, env: Sizes, vec: Vectors, kinds: Kinds, c: Code, remove: bool, a: seq<Cell>, b: seq<Cell>)
    requires Linked(n, env, vec, kinds, c) && Completes(c)
    ensures var s := Simplified(false, Top(remove), c, Nothing);
            && Linked(n, env, vec, kinds, s) && Completes(s)
            && Judge(vec, Trace(env, s, 0, Nil), a, b) == Judge(vec, Trace(env, c, 0, Nil), a, b)
  {
    SimplifiedIsLinked(n, env, vec, kinds, Top(remove), c, Nothing);
    SimplifiedCompletes(false, Top(remove), c, Nothing);
    UnmergedTrace(env, c, remove);
  }

  // ----- dumping and loading -----

  /** The blocks of the vectors that are copied in bulk are what the shortcut takes them for. */
  ghost predicate Bulks(vec: Vectors, c: Code) {
    match c
    case Done => true
    case Memcpy(_, next) => Bulks(vec, next)
    case Skip(_, next) => Bulks(vec, next)
    case Array(_, b, next) => Bulks(vec, b) && Bulks(vec, next)
    case Container(h, b, next) => (IsBulk(vec, h) ==> b == Memcpy(vec[h].stride, Done)) && Bulks(vec, b) && Bulks(vec, next)
  }

  lemma {:induction false} FitsExactly(env: Sizes, vec: Vectors, c: Code)
    requires Suited(env, vec, c)
    ensures Fits(env, vec, c) <==> Bulks(vec, c)
  {
    if !c.Done? {
      FitsExactly(env, vec, c.next);
      if HasBody(c) {
        FitsExactly(env, vec, c.body);
      }
    }
  }

  /**
   The shortcut does what it stands for: on any elements it moves as many bytes as they have to move one by
   one, and it stops on the END of the block.
   */
  ghost predicate ShortcutWorks(env: Sizes, vec: Vectors, h: nat, b: Code)
    requires h in vec
  {
    forall elems: seq<seq<Cell>> :: elems != [] && ShapedEach(vec, h, Trace(env, b, 0, Nil), elems) ==>
                                      Len(b) == 2 && Words(b)[1] * |elems| == |DumpedEach(vec, h, Trace(env, b, 0, Nil), elems)|
  }

  /** That holds exactly of the blocks that are one MEMCPY of an element. */
  lemma ShortcutExactly(env: Sizes, vec: Vectors, h: nat, b: Code)
    requires SuitedVector(env, vec, h, b) && IsBulk(vec, h)
    ensures ShortcutWorks(env, vec, h, b) <==> b == Memcpy(vec[h].stride, Done)
  {
    var t := Trace(env, b, 0, Nil);
    forall elems: seq<seq<Cell>> | elems != [] && ShapedEach(vec, h, t, elems)
      ensures Len(b) == 2 && Words(b)[1] * |elems| == |DumpedEach(vec, h, t, elems)| <==> b == Memcpy(vec[h].stride, Done)
    {
      BulkExact(env, vec, h, b, elems);
    }
    var one := [vec[h].blank];
    IsMemcpyExact(env, b, true);
    CopiedCovers(env, b, 0, Nil, Nil);
    FreshCovered(Trace(env, Copied(b), 0, Nil), t, vec[h].blank);
    PlainBytes(env, b, 0, Nil);
    FreshBytes(vec, t, vec[h].blank);
    assert one != [] && ShapedEach(vec, h, t, one);
  }

  lemma {:induction false} FreshCovered(merged: Atoms, raw: Atoms, mem: seq<Cell>)
    requires Covers(merged, raw) && Fresh(merged, mem)
    ensures Fresh(raw, mem)
    decreases merged
  {
    if !merged.Nil? {
      if merged.Byte? && Covers(merged.rest, raw) {
        FreshCovered(merged.rest, raw, mem);
      } else {
        FreshCovered(merged.rest, raw.rest, mem);
      }
    }
  }

  lemma {:induction false} FreshBytes(vec: Vectors, t: Atoms, mem: seq<Cell>)
    requires Fresh(t, mem) && NoBox(t)
    ensures Shaped(vec, t, mem)
  {
    if !t.Nil? {
      FreshBytes(vec, t.rest, mem);
    }
  }

  lemma {:induction false} PlainBytes(env: Sizes, c: Code, off: nat, tail: Atoms)
    requires Plain(c) && NoBox(tail)
    ensures NoBox(Trace(env, c, off, tail))
    decreases c, 0
  {
    match c
    case Done =>
    case Memcpy(n, next) =>
      PlainBytes(env, next, off + n, tail);
      BytesNoBox(off, n, Trace(env, next, off + n, tail));
    case Skip(n, next) => PlainBytes(env, next, off + n, tail);
    case Array(k, b, next) =>
      var mid := off + Times(k, Span(env, b));
      PlainBytes(env, next, mid, tail);
      PlainRepeated(env, b, k, off, Trace(env, next, mid, tail));
  }

  lemma {:induction false} PlainRepeated(env: Sizes, b: Code, k: nat, off: nat, tail: Atoms)
    requires Plain(b) && NoBox(tail)
    ensures NoBox(Repeated(env, b, k, off, tail))
    decreases b, k + 1
  {
    if k > 0 {
      var mid := off + Span(env, b);
      PlainRepeated(env, b, k - 1, mid, tail);
      PlainBytes(env, b, off, Repeated(env, b, k - 1, mid, tail));
    }
  }

  /** The same of what the program is simplified to without merging. */
  ghost predicate UnmergedBulks(vec: Vectors, c: Code) {
    match c
    case Done => true
    case Memcpy(_, next) => UnmergedBulks(vec, next)
    case Skip(_, next) => UnmergedBulks(vec, next)
    case Array(_, b, next) => UnmergedBulks(vec, b) && UnmergedBulks(vec, next)
    case Container(h, b, next) =>
      && (IsBulk(vec, h) ==> Simplified(false, Block, b, Nothing) == Memcpy(vec[h].stride, Done))
      && UnmergedBulks(vec, b) && UnmergedBulks(vec, next)
  }

  lemma {:induction false} BulksAppend(vec: Vectors, a: Code, b: Code)
    ensures Bulks(vec, Append(a, b)) <==> Bulks(vec, a) && Bulks(vec, b)
  {
    if !a.Done? {
      BulksAppend(vec, a.next, b);
    }
  }

  lemma {:induction false} SimplifiedBulks(vec: Vectors, edge: Edge, c: Code, p: Pending)
    requires Valid(false, p)
    ensures Bulks(vec, Simplified(false, edge, c, p)) <==> UnmergedBulks(vec, c)
    decreases c
  {
    if !c.Done? {
      if HasBody(c) {
        SimplifiedBulks(vec, Block, c.body, Nothing);
      }
      var t := After(false, c, p);
      SimplifiedBulks(vec, edge, c.next, t.pending);
      BulksAppend(vec, Written(p, t), Simplified(false, edge, c.next, t.pending));
      TurnBulks(vec, c, p, t);
    }
  }

  /** What one turn writes has the block of the operation in it, or no block at all. */
  lemma TurnBulks(vec: Vectors, c: Code, p: Pending, t: Turn)
    requires !c.Done? && Valid(false, p) && t == After(false, c, p)
    ensures Bulks(vec, Written(p, t)) <==>
              && (HasBody(c) ==> Bulks(vec, BodyOf(false, c)))
              && (c.Container? && IsBulk(vec, c.handle) ==> BodyOf(false, c) == Memcpy(vec[c.handle].stride, Done))
  {
    var b := BodyOf(false, c);
    assert Bulks(vec, Written(p, t)) == Bulks(vec, t.keep);
    assert Bulks(vec, Done);
    if c.Container? {
      assert t.keep == Container(c.handle, b, Done);
    } else if c.Array? {
      assert t.keep == if b.Done? || IsLone(b) then Done else Array(c.count, b, Done);
      assert b.Done? || IsLone(b) ==> Bulks(vec, b);
    }
  }

  lemma {:induction false} SuitedAlike(env: Sizes, vec: Vectors, edge: Edge, c: Code, p: Pending)
    requires Suited(env, vec, c) && Valid(false, p)
    ensures Fits(env, vec, Simplified(false, edge, c, p)) <==> Bulks(vec, Simplified(false, edge, c, p))
    decreases c
  {
    if !c.Done? {
      if HasBody(c) {
        SuitedAlike(env, vec, Block, c.body, Nothing);
        BlockTrace(env, false, c.body, 0, Nil);
      }
      var t := After(false, c, p);
      var w, s := Written(p, t), Simplified(false, edge, c.next, t.pending);
      SuitedAlike(env, vec, edge, c.next, t.pending);
      BulksAppend(vec, w, s);
      FitsAppend(env, vec, w, s);
      TurnFits(env, vec, c, p, t);
    }
  }

  lemma TurnFits(env: Sizes, vec: Vectors, c: Code, p: Pending, t: Turn)
    requires !c.Done? && Valid(false, p) && t == After(false, c, p) && Suited(env, vec, c)
    requires HasBody(c) ==> var b := BodyOf(false, c); Span(env, b) == Span(env, c.body) && (Fits(env, vec, b) <==> Bulks(vec, b))
    ensures Fits(env, vec, Written(p, t)) <==> Bulks(vec, Written(p, t))
  {
    assert Bulks(vec, Written(p, t)) == Bulks(vec, t.keep) && Fits(env, vec, Written(p, t)) == Fits(env, vec, t.keep);
    match c
    case Container(h, _, _) => assert t.keep == Container(h, BodyOf(false, c), Done);
    case _ =>
  }

  lemma {:induction false} FitsAppend(env: Sizes, vec: Vectors, a: Code, b: Code)
    ensures Fits(env, vec, Append(a, b)) <==> Fits(env, vec, a) && Fits(env, vec, b)
  {
    if !a.Done? {
      FitsAppend(env, vec, a.next, b);
    }
  }

  /** Where both programs fit, they dump the same bytes and load the same value. */
  lemma UnmergedMarshals(env: Sizes, vec: Vectors, c: Code, remove: bool, mem: seq<Cell>, s: seq<octet>)
    requires Shaped(vec, Trace(env, c, 0, Nil), mem)
    ensures var t := Trace(env, Simplified(false, Top(remove), c, Nothing), 0, Nil);
            && Shaped(vec, t, mem) && Dumped(vec, t, mem) == Dumped(vec, Trace(env, c, 0, Nil), mem)
            && Load(vec, t, mem, s) == Load(vec, Trace(env, c, 0, Nil), mem, s)
  {
    UnmergedTrace(env, c, remove);
  }

  // ----- which types these are -----

  predicate NoContainer(t: Type)
    decreases t
  {
    match t
    case ArrayType(_, elem) => NoContainer(elem)
    case ContainerType(_, _, _) => false
    case CompoundType(fields, _) => NoContainerIn(fields)
    case _ => true
  }

  predicate NoContainerIn(fs: Fields)
    decreases fs
  {
    fs.FieldAt? ==> NoContainer(fs.typ) && NoContainerIn(fs.rest)
  }

  /** Everything in the type takes space. */
  predicate Substantial(t: Type)
    decreases t
  {
    && Size(t) > 0
    && match t
       case ArrayType(_, elem) => Substantial(elem)
       case ContainerType(_, _, elem) => Substantial(elem)
       case CompoundType(fields, _) => SubstantialFields(fields)
       case _ => true
  }

  predicate SubstantialFields(fs: Fields)
    decreases fs
  {
    fs.FieldAt? ==> Substantial(fs.typ) && SubstantialFields(fs.rest)
  }

  predicate IsLeaf(t: Type) {
    t.NumericType? || t.EnumType? || t.PointerType?
  }

  /** One number at the bottom, under arrays and structures of one field that fills them. */
  predicate Lone(t: Type)
    decreases t
  {
    match t
    case ArrayType(_, elem) => Lone(elem)
    case CompoundType(fields, size) =>
      fields.FieldAt? && fields.rest.NoMore? && fields.offset == 0 && Size(fields.typ) == size && Lone(fields.typ)
    case _ => IsLeaf(t)
  }

  /** Vectors of types without containers are vectors of numbers. */
  predicate RawDumps(t: Type)
    decreases t
  {
    match t
    case ArrayType(_, elem) => RawDumps(elem)
    case ContainerType(_, _, elem) => (NoContainer(elem) ==> IsLeaf(elem)) && RawDumps(elem)
    case CompoundType(fields, _) => RawDumpsFields(fields)
    case _ => true
  }

  predicate RawDumpsFields(fs: Fields)
    decreases fs
  {
    fs.FieldAt? ==> RawDumps(fs.typ) && RawDumpsFields(fs.rest)
  }

  /**
   The program amounts to one run of copied bytes: no block stays, there is no padding but of length 0, and none of that
   between two non-empty copies.
   */
  predicate Solo(c: Code, f: Front)
    decreases c
  {
    c.Done? || (
      var i := ItemOf(c);
      !i.Wall? && !(i.Pad? && i.n > 0) && !(f.Paused? && i.Copy? && i.n > 0) && Solo(c.next, Past(f, i)))
  }

  /** The elements of vectors without containers in them amount to one run of copied bytes. */
  predicate UnmergedDumps(t: Type)
    requires Ordered(t)
    decreases t
  {
    match t
    case ArrayType(_, elem) => UnmergedDumps(elem)
    case ContainerType(_, _, elem) => (NoContainer(elem) ==> Solo(Types.Raw(elem), Clear)) && UnmergedDumps(elem)
    case CompoundType(fields, size) => UnmergedDumpsFields(fields, 0, size)
    case _ => true
  }

  predicate UnmergedDumpsFields(fs: Fields, at: nat, size: nat)
    requires OrderedFields(fs, at, size)
    decreases fs
  {
    fs.FieldAt? ==> UnmergedDumps(fs.typ) && UnmergedDumpsFields(fs.rest, fs.offset + Size(fs.typ), size)
  }

  lemma {:induction false} PlainExactly(t: Type)
    requires Ordered(t)
    ensures Plain(Types.Raw(t)) <==> NoContainer(t)
    decreases t
  {
    match t
    case ArrayType(_, elem) => PlainExactly(elem);
    case CompoundType(fields, size) => PlainFieldsExactly(fields, 0, size);
    case _ =>
  }

  lemma {:induction false} PlainFieldsExactly(fs: Fields, at: nat, size: nat)
    requires OrderedFields(fs, at, size)
    ensures Plain(RawFields(fs, at, size)) <==> NoContainerIn(fs)
    decreases fs
  {
    if fs.FieldAt? {
      var end := fs.offset + Size(fs.typ);
      PlainExactly(fs.typ);
      PlainFieldsExactly(fs.rest, end, size);
      PlainAppend(Types.Raw(fs.typ), RawFields(fs.rest, end, size));
    }
  }

  /** A vector is copied in bulk exactly when its elements have no container. */
  lemma BulkExactly(env: Sizes, vec: Vectors, h: nat, elem: Type)
    requires Ordered(elem) && SuitedVector(env, vec, h, Types.Raw(elem)) && vec[h].stride == Size(elem)
    ensures IsBulk(vec, h) <==> NoContainer(elem)
  {
    IsMemcpyExact(env, Types.Raw(elem), true);
    PlainExactly(elem);
  }

  // ----- raw layouts -----

  lemma {:induction false} RawBulksExactly(env: Sizes, vec: Vectors, t: Type)
    requires Ordered(t) && Modelled(env, vec, t)
    ensures Bulks(vec, Types.Raw(t)) <==> RawDumps(t)
    decreases t
  {
    match t
    case ArrayType(_, elem) => RawBulksExactly(env, vec, elem);
    case ContainerType(h, _, elem) =>
      RawBulksExactly(env, vec, elem);
      VectorIsSuited(env, vec, h, elem);
      BulkExactly(env, vec, h, elem);
    case CompoundType(fields, size) => RawFieldsBulkExactly(env, vec, fields, 0, size);
    case _ =>
  }

  lemma {:induction false} RawFieldsBulkExactly(env: Sizes, vec: Vectors, fs: Fields, at: nat, size: nat)
    requires OrderedFields(fs, at, size) && ModelledFields(env, vec, fs)
    ensures Bulks(vec, RawFields(fs, at, size)) <==> RawDumpsFields(fs)
    decreases fs
  {
    if fs.FieldAt? {
      var end := fs.offset + Size(fs.typ);
      RawBulksExactly(env, vec, fs.typ);
      RawFieldsBulkExactly(env, vec, fs.rest, end, size);
      BulksAppend(vec, Types.Raw(fs.typ), RawFields(fs.rest, end, size));
    }
  }

  /** The raw layout of a type can be dumped and loaded exactly when its vectors of plain bytes are vectors of numbers. */
  lemma RawFitsExactly(env: Sizes, vec: Vectors, t: Type)
    requires Ordered(t) && Modelled(env, vec, t)
    ensures Fits(env, vec, Types.Raw(t)) <==> RawDumps(t)
  {
    RawIsSuited(env, vec, t);
    FitsExactly(env, vec, Types.Raw(t));
    RawBulksExactly(env, vec, t);
  }

  // ----- unmerged layouts -----

  /** The block that `c` becomes, `p` being pending. */
  function Kept(c: Code, p: Pending): Code
    requires Valid(false, p)
  {
    Simplified(false, Block, c, p)
  }

  predicate IsLoneMemcpy(c: Code) {
    c.Memcpy? && c.next.Done?
  }

  /** Pending padding ends up as a SKIP in front. */
  lemma {:induction false} PaddingFirst(c: Code, n: nat, skip: nat)
    requires n > 0 && skip <= n
    ensures Kept(c, Pending(SKIP, n, skip)).Skip?
    decreases c
  {
    var p := Pending(SKIP, n, skip);
    if !c.Done? {
      var t := After(false, c, p);
      if !t.flush {
        PaddingFirst(c.next, t.pending.count, t.pending.skip);
      }
    }
  }

  /** What is left of a program is nothing or one MEMCPY, and that not behind another one, exactly when it is a solo. */
  lemma {:induction false} SoloExactly(c: Code, p: Pending, led: bool)
    requires Valid(false, p) && (p.op == SKIP ==> p.count == 0) && !(led && p.count > 0)
    ensures var s := Kept(c, p); (s.Done? || (IsLoneMemcpy(s) && !led)) <==> Solo(c, FrontOf(p, led))
    decreases c
  {
    if !c.Done? {
      var t, i := After(false, c, p), ItemOf(c);
      var s := Kept(c.next, t.pending);
      ItemTurn(c, p);
      assert Kept(c, p) == Append(Written(p, t), s);
      SoloTurn(c, p, s);
      if i.Pad? && i.n > 0 {
        PaddingFirst(c.next, t.pending.count, t.pending.skip);
      } else if i.Copy? && led && i.n > 0 {
        StartsCopying(Block, c.next, t.pending);
      } else if !i.Wall? {
        SoloExactly(c.next, t.pending, LedAfter(p, t, led));
        FrontNext(c, p, led);
      }
    }
  }

  /** What one turn puts in front of the rest. */
  lemma SoloTurn(c: Code, p: Pending, s: Code)
    requires Valid(false, p) && (p.op == SKIP ==> p.count == 0) && !c.Done?
    ensures var t, i := After(false, c, p), ItemOf(c);
            var out := Append(Written(p, t), s);
            if i.Wall? then !out.Done? && !IsLoneMemcpy(out)
            else if i.Pad? && p.count > 0 then out == Memcpy(p.count, s)
            else out == s
  {
    ItemTurn(c, p);
    assert Append(Done, s) == s;
    if ItemOf(c).Wall? {
      assert Append(Staying(c, Done), s) == Staying(c, s);
    }
  }

  /** A block becomes one MEMCPY over all of its bytes exactly when it is a solo and has bytes. */
  lemma SoloBlock(env: Sizes, c: Code)
    requires Span(env, c) > 0
    ensures Kept(c, Nothing) == Memcpy(Span(env, c), Done) <==> Solo(c, Clear)
  {
    SoloExactly(c, Nothing, false);
    KeptSpan(env, c, Nothing);
  }

  lemma KeptSpan(env: Sizes, c: Code, p: Pending)
    requires Valid(false, p)
    ensures Span(env, Kept(c, p)) == p.count + Span(env, c)
  {
    SimplifiedKeeps(env, false, Block, c, p, 0, p.count, Nil, Nil);
  }

  lemma {:induction false} AppendDone(c: Code)
    ensures Append(c, Done) == c
  {
    if !c.Done? {
      AppendDone(c.next);
    }
  }

  lemma {:induction false} AppendTwice(a: Code, b: Code, c: Code)
    ensures Append(Append(a, b), c) == Append(a, Append(b, c))
  {
    if !a.Done? {
      AppendTwice(a.next, b, c);
    }
  }

  /** A type with one number at the bottom becomes one MEMCPY, still pending unless a structure has closed it; then `d`. */
  ghost predicate Opens(t: Type, d: Code, p: Pending)
    requires Ordered(t) && Valid(false, p)
  {
    Kept(Append(Types.Raw(t), d), p)
    == if t.CompoundType? then Memcpy(Size(t), Kept(d, Pending(SKIP, 0, 0))) else Kept(d, Pending(MEMCPY, Size(t), 0))
  }

  lemma {:induction false} LoneExactly(env: Sizes, t: Type, d: Code, p: Pending)
    requires Ordered(t) && Described(env, t) && NoContainer(t) && Substantial(t)
    requires Valid(false, p) && p.count == 0
    ensures if Lone(t) then Opens(t, d, p) else !IsLoneMemcpy(Kept(Append(Types.Raw(t), d), p))
    decreases t, 0
  {
    match t
    case OpaqueType(size) => PaddingFirst(d, size, size);
    case ArrayType(k, elem) => LoneArrayExactly(env, k, elem, d, p);
    case CompoundType(fields, size) => LoneCompoundExactly(env, fields, size, d, p);
    case _ =>
  }

  lemma {:induction false} LoneBlock(env: Sizes, t: Type)
    requires Ordered(t) && Described(env, t) && NoContainer(t) && Substantial(t)
    ensures Kept(Types.Raw(t), Nothing) == Memcpy(Size(t), Done) <==> Lone(t)
    ensures IsLoneMemcpy(Kept(Types.Raw(t), Nothing)) <==> Lone(t)
    ensures Span(env, Kept(Types.Raw(t), Nothing)) == Size(t)
    decreases t, 1
  {
    LoneExactly(env, t, Done, Nothing);
    AppendDone(Types.Raw(t));
    KeptSpan(env, Types.Raw(t), Nothing);
    RawIsExact(env, t, 0, Nil);
  }

  lemma {:induction false} LoneArrayExactly(env: Sizes, k: nat, elem: Type, d: Code, p: Pending)
    requires Ordered(elem) && Described(env, elem) && NoContainer(elem) && Substantial(elem)
    requires Valid(false, p) && p.count == 0 && Times(k, Size(elem)) > 0
    ensures var t := ArrayType(k, elem);
            if Lone(elem) then Opens(t, d, p) else !IsLoneMemcpy(Kept(Append(Types.Raw(t), d), p))
    decreases elem, 2
  {
    var c, b, n := Array(k, Types.Raw(elem), d), Kept(Types.Raw(elem), Nothing), Size(elem);
    assert Append(Types.Raw(ArrayType(k, elem)), d) == c;
    LoneBlock(env, elem);
    TimesIsProduct(k, n);
    var t := After(false, c, p);
    if Lone(elem) {
      assert t == Turn(true, Done, Pending(MEMCPY, n * k, 0));
    } else if b.Skip? && b.next.Done? {
      assert b.n == n && t == Turn(true, Done, Pending(SKIP, n * k, 0));
      PaddingFirst(d, n * k, 0);
    } else {
      assert !b.Done? && t.keep == Array(k, b, Done);
    }
  }

  lemma {:induction false} LoneCompoundExactly(env: Sizes, fs: Fields, size: nat, d: Code, p: Pending)
    requires OrderedFields(fs, 0, size) && DescribedFields(env, fs) && NoContainerIn(fs) && SubstantialFields(fs)
    requires Valid(false, p) && p.count == 0 && size > 0
    ensures var t := CompoundType(fs, size);
            if Lone(t) then Opens(t, d, p) else !IsLoneMemcpy(Kept(Append(Types.Raw(t), d), p))
    decreases fs, 2
  {
    if fs.NoMore? {
      PaddingFirst(d, size, size);
    } else {
      var typ, end := fs.typ, fs.offset + Size(fs.typ);
      var a, rest := Types.Raw(typ), RawFields(fs.rest, end, size);
      AppendTwice(a, rest, d);
      assert Append(RawFields(fs, 0, size), d) == Skip(fs.offset, Append(a, Append(rest, d)));
      if fs.offset > 0 {
        PaddingFirst(Append(a, Append(rest, d)), fs.offset, fs.offset);
      } else {
        LoneExactly(env, typ, Append(rest, d), Pending(SKIP, 0, 0));
        if Lone(typ) {
          AfterLone(env, typ, fs.rest, size, d, Append(rest, d), Kept(Append(a, Append(rest, d)), Pending(SKIP, 0, 0)));
        }
      }
    }
  }

  /** A SKIP closes a pending MEMCPY, and adds to pending padding. */
  lemma SkipNext(gap: nat, x: Code, n: nat)
    ensures Kept(Skip(gap, x), Pending(SKIP, 0, 0)) == Kept(x, Pending(SKIP, gap, gap))
    ensures n > 0 ==> Kept(Skip(gap, x), Pending(MEMCPY, n, 0)) == Memcpy(n, Kept(x, Pending(SKIP, gap, gap)))
  {
    var c := Skip(gap, x);
    assert After(false, c, Pending(SKIP, 0, 0)) == Turn(false, Done, Pending(SKIP, gap, gap));
    var p := Pending(MEMCPY, n, 0);
    var t := After(false, c, p);
    assert t == Turn(true, Done, Pending(SKIP, gap, gap));
    assert n > 0 ==> Written(p, t) == Memcpy(n, Done);
  }

  /** The fields `rest`, from address `n` on, as padding and what comes after it. */
  function GapOf(rest: Fields, n: nat, size: nat): nat
    requires OrderedFields(rest, n, size)
  {
    if rest.NoMore? then size - n else rest.offset - n
  }

  function BeyondGap(rest: Fields, size: nat, d: Code): Code
    requires rest.FieldAt? ==> OrderedFields(rest, rest.offset, size)
  {
    if rest.NoMore? then d
    else Append(Append(Types.Raw(rest.typ), RawFields(rest.rest, rest.offset + Size(rest.typ), size)), d)
  }

  lemma AfterGap(rest: Fields, n: nat, size: nat, d: Code)
    requires OrderedFields(rest, n, size)
    ensures Append(RawFields(rest, n, size), d) == Skip(GapOf(rest, n, size), BeyondGap(rest, size, d))
  {
  }

  lemma BeyondGapSpan(env: Sizes, rest: Fields, size: nat, d: Code)
    requires rest.FieldAt? && OrderedFields(rest, rest.offset, size) && DescribedFields(env, rest) && Size(rest.typ) > 0
    ensures Span(env, BeyondGap(rest, size, d)) > 0
  {
    var a, b := Types.Raw(rest.typ), RawFields(rest.rest, rest.offset + Size(rest.typ), size);
    RawIsExact(env, rest.typ, 0, Nil);
    SpanAppend(env, a, b);
    SpanAppend(env, Append(a, b), d);
  }

  /** What follows a first field with one number at the bottom. */
  lemma {:induction false} AfterLone(env: Sizes, typ: Type, rest: Fields, size: nat, d: Code, e: Code, out: Code)
    requires Ordered(typ) && OrderedFields(rest, Size(typ), size) && DescribedFields(env, rest) && SubstantialFields(rest) && Size(typ) > 0
    requires e == Append(RawFields(rest, Size(typ), size), d) && Opens(typ, e, Pending(SKIP, 0, 0))
    requires out == Kept(Append(Types.Raw(typ), e), Pending(SKIP, 0, 0))
    ensures if rest.NoMore? && Size(typ) == size then out == Memcpy(size, Kept(d, Pending(SKIP, 0, 0))) else !IsLoneMemcpy(out)
  {
    var n, gap, x := Size(typ), GapOf(rest, Size(typ), size), BeyondGap(rest, size, d);
    AfterGap(rest, n, size, d);
    SkipNext(gap, x, n);
    assert out == Memcpy(n, Kept(x, Pending(SKIP, gap, gap)));
    if gap > 0 {
      PaddingFirst(x, gap, gap);
    } else if rest.FieldAt? {
      KeptSpan(env, x, Pending(SKIP, 0, 0));
      BeyondGapSpan(env, rest, size, d);
    }
  }

  lemma {:induction false} UnmergedBulksExactly(env: Sizes, vec: Vectors, t: Type)
    requires Ordered(t) && Modelled(env, vec, t)
    ensures UnmergedBulks(vec, Types.Raw(t)) <==> UnmergedDumps(t)
    decreases t
  {
    match t
    case ArrayType(_, elem) => UnmergedBulksExactly(env, vec, elem);
    case ContainerType(h, _, elem) =>
      UnmergedBulksExactly(env, vec, elem);
      VectorIsSuited(env, vec, h, elem);
      BulkExactly(env, vec, h, elem);
      ModelledIsDescribed(env, vec, elem);
      RawIsExact(env, elem, 0, Nil);
      SoloBlock(env, Types.Raw(elem));
    case CompoundType(fields, size) => UnmergedFieldsBulkExactly(env, vec, fields, 0, size);
    case _ =>
  }

  lemma {:induction false} UnmergedFieldsBulkExactly(env: Sizes, vec: Vectors, fs: Fields, at: nat, size: nat)
    requires OrderedFields(fs, at, size) && ModelledFields(env, vec, fs)
    ensures UnmergedBulks(vec, RawFields(fs, at, size)) <==> UnmergedDumpsFields(fs, at, size)
    decreases fs
  {
    if fs.FieldAt? {
      var end := fs.offset + Size(fs.typ);
      UnmergedBulksExactly(env, vec, fs.typ);
      UnmergedFieldsBulkExactly(env, vec, fs.rest, end, size);
      UnmergedBulksAppend(vec, Types.Raw(fs.typ), RawFields(fs.rest, end, size));
    }
  }

  lemma {:induction false} UnmergedBulksAppend(vec: Vectors, a: Code, b: Code)
    ensures UnmergedBulks(vec, Append(a, b)) <==> UnmergedBulks(vec, a) && UnmergedBulks(vec, b)
  {
    if !a.Done? {
      UnmergedBulksAppend(vec, a.next, b);
    }
  }

  /** The unmerged layout of a type can be dumped and loaded exactly when its vectors of plain bytes are vectors of solos. */
  lemma UnmergedFitsExactly(env: Sizes, vec: Vectors, t: Type, remove: bool)
    requires Ordered(t) && Modelled(env, vec, t)
    ensures Fits(env, vec, LayoutOf(t, false, remove)) <==> UnmergedDumps(t)
  {
    RawIsSuited(env, vec, t);
    SuitedAlike(env, vec, Top(remove), Types.Raw(t), Nothing);
    SimplifiedBulks(vec, Top(remove), Types.Raw(t), Nothing);
    UnmergedBulksExactly(env, vec, t);
  }

  /** Where everything takes space, a solo is a type with one number at the bottom: a second field is enough to break it. */
  lemma SoloIsLone(env: Sizes, t: Type)
    requires Ordered(t) && Described(env, t) && NoContainer(t) && Substantial(t)
    ensures Solo(Types.Raw(t), Clear) <==> Lone(t)
  {
    LoneBlock(env, t);
    RawIsExact(env, t, 0, Nil);
    SoloBlock(env, Types.Raw(t));
  }

  // ----- two inputs -----

  function OneField(): Type {
    CompoundType(FieldAt("value", 0, NumericType(4), NoMore), 4)
  }

  function TwoFields(): Type {
    CompoundType(FieldAt("flag", 0, NumericType(1), FieldAt("value", 4, NumericType(4), NoMore)), 8)
  }

  /** A vector of structures of one integer: its raw layout cannot be dumped, its unmerged one can. */
  lemma RawVectorFails(env: Sizes, vec: Vectors, h: nat, size: nat)
    requires Modelled(env, vec, ContainerType(h, size, OneField()))
    ensures var t := ContainerType(h, size, OneField());
            && Ordered(t) && !Fits(env, vec, Types.Raw(t)) && Fits(env, vec, LayoutOf(t, false, true))
  {
    var t := ContainerType(h, size, OneField());
    OneFieldIsLone(env);
    RawFitsExactly(env, vec, t);
    UnmergedFitsExactly(env, vec, t, true);
  }

  lemma OneFieldIsLone(env: Sizes)
    ensures var t := OneField(); Ordered(t) && NoContainer(t) && Solo(Types.Raw(t), Clear) && UnmergedDumps(t) && RawDumps(t)
  {
    var t, fs := OneField(), OneField().fields;
    assert OrderedFields(fs.rest, 4, 4) && NoContainerIn(fs.rest) && SubstantialFields(fs.rest) && DescribedFields(env, fs.rest);
    assert RawDumpsFields(fs.rest) && Lone(fs.typ) && UnmergedDumpsFields(fs.rest, 4, 4);
    SoloIsLone(env, t);
  }

  /** A vector of structures with padding: neither can, and the merged one can. */
  lemma UnmergedVectorFails(env: Sizes, vec: Vectors, h: nat, size: nat)
    requires Modelled(env, vec, ContainerType(h, size, TwoFields()))
    ensures var t := ContainerType(h, size, TwoFields());
            && Ordered(t) && !Fits(env, vec, Types.Raw(t)) && !Fits(env, vec, LayoutOf(t, false, true))
            && Fits(env, vec, LayoutOf(t, true, true))
  {
    var t := ContainerType(h, size, TwoFields());
    TwoFieldsAreNot(env);
    RawFitsExactly(env, vec, t);
    UnmergedFitsExactly(env, vec, t, true);
    RawIsSuited(env, vec, t);
    MergedFits(env, vec, Top(true), Types.Raw(t), Nothing);
  }

  lemma TwoFieldsAreNot(env: Sizes)
    ensures var t := TwoFields(); Ordered(t) && NoContainer(t) && !Solo(Types.Raw(t), Clear)
  {
    var t, fs := TwoFields(), TwoFields().fields;
    assert OrderedFields(fs.rest.rest, 8, 8) && OrderedFields(fs.rest, 1, 8);
    assert NoContainerIn(fs.rest.rest) && NoContainerIn(fs.rest);
    assert SubstantialFields(fs.rest.rest) && SubstantialFields(fs.rest);
    assert DescribedFields(env, fs.rest.rest) && DescribedFields(env, fs.rest);
    SoloIsLone(env, t);
  }
}
