/** The layout visitor: from a type to the two flat programs of its layout. */
module Compiler {
  import opened Bytecode
  import opened Tracing
  import opened Layouts
  import opened Octets
  import opened Types
  import IC = InitCode

  /** The conversion of an enumeration value to `uint64_t`. */
  function Unsigned(value: int): nat {
    value % 0x1_0000_0000_0000_0000
  }

  /** What an enumeration is initialised with: its first symbol's value, if it has any. */
  function EnumData(size: nat, values: seq<(string, int)>): seq<nat> {
    if values == [] then [] else Encoded(size, Unsigned(values[0].1))
  }

  /** The initialisation program of a type. */
  function RawInit(t: Type): IC.Init
    requires Ordered(t)
    decreases t
  {
    match t
    case EnumType(size, values) =>
      var d := EnumData(size, values);
      if d == [] then IC.Pass(size, IC.Stop) else IC.Data(d, IC.Stop)
    case ArrayType(dimension, elem) => IC.Repeat(dimension, RawInit(elem), IC.Stop)
    case ContainerType(handle, _, _) => IC.Empty(handle, IC.Stop)
    case CompoundType(fields, size) => RawInitFields(fields, 0, size)
    case _ => IC.Pass(Size(t), IC.Stop)
  }

  function RawInitFields(fs: Fields, at: nat, size: nat): IC.Init
    requires OrderedFields(fs, at, size)
    decreases fs
  {
    match fs
    case NoMore => IC.Pass(size - at, IC.Stop)
    case FieldAt(_, offset, typ, rest) =>
      IC.Pass(offset - at, IC.Join(RawInit(typ), RawInitFields(rest, offset + Size(typ), size)))
  }

  /**
   The types that have a layout. Array and container elements are visited by a visitor of
   their own, which accepts neither pointers nor opaques whatever the outer one accepts.
   */
  predicate Accepts(t: Type, pointers: bool, opaques: bool)
    decreases t
  {
    match t
    case NumericType(_) => true
    case EnumType(size, _) => size <= 8
    case ArrayType(_, elem) => Accepts(elem, false, false)
    case ContainerType(_, _, elem) => Accepts(elem, false, false)
    case CompoundType(fields, _) => AcceptsFields(fields, pointers, opaques)
    case PointerType(_) => pointers
    case OpaqueType(_) => opaques
  }

  predicate AcceptsFields(fs: Fields, pointers: bool, opaques: bool)
    decreases fs
  {
    fs.FieldAt? ==> Accepts(fs.typ, pointers, opaques) && AcceptsFields(fs.rest, pointers, opaques)
  }

  // ----- the same types, leaf by leaf -----

  /** A leaf of a type, and whether an array or a container lies between the two. */
  datatype Leaf = Leaf(typ: Type, inside: bool)

  ghost function Leaves(t: Type, inside: bool): seq<Leaf>
    decreases t
  {
    match t
    case ArrayType(_, elem) => Leaves(elem, true)
    case ContainerType(_, _, elem) => Leaves(elem, true)
    case CompoundType(fields, _) => LeavesIn(fields, inside)
    case _ => [Leaf(t, inside)]
  }

  ghost function LeavesIn(fs: Fields, inside: bool): seq<Leaf>
    decreases fs
  {
    if fs.FieldAt? then Leaves(fs.typ, inside) + LeavesIn(fs.rest, inside) else []
  }

  /** Pointers and opaques are let through where they are asked for, but never as elements; an enumeration has at most eight bytes. */
  ghost predicate Permitted(l: Leaf, pointers: bool, opaques: bool) {
    && (l.typ.PointerType? ==> pointers && !l.inside)
    && (l.typ.OpaqueType? ==> opaques && !l.inside)
    && (l.typ.EnumType? ==> l.typ.size <= 8)
  }

  ghost predicate AllPermitted(leaves: seq<Leaf>, pointers: bool, opaques: bool) {
    forall i :: 0 <= i < |leaves| ==> Permitted(leaves[i], pointers, opaques)
  }

  lemma PermittedBoth(a: seq<Leaf>, b: seq<Leaf>, pointers: bool, opaques: bool)
    ensures AllPermitted(a + b, pointers, opaques) <==> AllPermitted(a, pointers, opaques) && AllPermitted(b, pointers, opaques)
  {
    if AllPermitted(a + b, pointers, opaques) {
      assert forall i :: 0 <= i < |a| ==> a[i] == (a + b)[i];
      assert forall i :: 0 <= i < |b| ==> b[i] == (a + b)[|a| + i];
    }
  }

  lemma {:induction false} AcceptsExactly(t: Type, pointers: bool, opaques: bool, inside: bool)
    ensures Accepts(t, pointers && !inside, opaques && !inside) <==> AllPermitted(Leaves(t, inside), pointers, opaques)
    decreases t
  {
    match t
    case ArrayType(_, elem) => AcceptsExactly(elem, pointers, opaques, true);
    case ContainerType(_, _, elem) => AcceptsExactly(elem, pointers, opaques, true);
    case CompoundType(fields, _) => AcceptsFieldsExactly(fields, pointers, opaques, inside);
    case _ => assert Leaves(t, inside)[0] == Leaf(t, inside);
  }

  lemma {:induction false} AcceptsFieldsExactly(fs: Fields, pointers: bool, opaques: bool, inside: bool)
    ensures AcceptsFields(fs, pointers && !inside, opaques && !inside) <==> AllPermitted(LeavesIn(fs, inside), pointers, opaques)
    decreases fs
  {
    if fs.FieldAt? {
      AcceptsExactly(fs.typ, pointers, opaques, inside);
      AcceptsFieldsExactly(fs.rest, pointers, opaques, inside);
      PermittedBoth(Leaves(fs.typ, inside), LeavesIn(fs.rest, inside), pointers, opaques);
    }
  }

  /** The bytes of an enumeration are those of its first value. */
  lemma FirstValue(size: nat, v: int, i: nat)
    requires i < size <= 8
    ensures Encoded(size, Unsigned(v))[i] == (v / Power256(i)) % 256
  {
    EncodedByte(size, Unsigned(v), i);
    CutByte(v, 8, i);
    EightBytes();
  }

  lemma EightBytes()
    ensures Power256(8) == 0x1_0000_0000_0000_0000
  {
    assert Power256(4) == 0x1_0000_0000;
    assert Power256(6) == 0x1_0000_0000_0000;
  }

  method EnumInitData(size: nat, values: seq<(string, int)>) returns (data: seq<nat>)
    ensures data == EnumData(size, values)
    ensures values == [] ==> data == []
    ensures values != [] && size <= 8 ==> |data| == size && forall i: nat :: i < size ==> data[i] == (values[0].1 / Power256(i)) % 256
  {
    data := [];
    if values != [] {
      if size <= 8 {
        forall i: nat | i < size ensures EnumData(size, values)[i] == (values[0].1 / Power256(i)) % 256 {
          FirstValue(size, values[0].1, i);
        }
      }
      var initValue := Unsigned(values[0].1);
      ghost var goal := Encoded(size, initValue);
      for i := 0 to size
        invariant data + Encoded(size - i, initValue) == goal
      {
        data := data + [initValue % 256];
        initValue := initValue / 256;
      }
    }
  }

  /** `layout` has grown by the two programs of `t`. */
  ghost predicate Grown(t: Type, ops: seq<nat>, initOps: seq<nat>, ops': seq<nat>, initOps': seq<nat>)
    requires Ordered(t)
  {
    ops' == ops + Words(Raw(t)) && initOps' == initOps + IC.InitWords(RawInit(t))
  }

  method Visit(t: Type, pointers: bool, opaques: bool, layout: MemoryLayout) returns (ok: bool)
    requires Ordered(t)
    modifies layout
    ensures ok <==> Accepts(t, pointers, opaques)
    ensures ok <==> AllPermitted(Leaves(t, false), pointers, opaques)
    ensures ok ==> Grown(t, old(layout.ops), old(layout.initOps), layout.ops, layout.initOps)
    decreases t, 0
  {
    AcceptsExactly(t, pointers, opaques, false);
    match t
    case NumericType(size) =>
      ok := layout.PushMemcpy(size, []);
    case EnumType(size, values) =>
      if size > 8 {
        return false;
      }
      var data := EnumInitData(size, values);
      ok := layout.PushMemcpy(size, data);
    case ArrayType(_, _) =>
      ok := VisitArray(t, layout);
    case ContainerType(_, _, _) =>
      ok := VisitContainer(t, layout);
    case CompoundType(fields, size) =>
      ok := VisitFields(fields, size, pointers, opaques, layout);
    case PointerType(size) =>
      if pointers {
        ok := layout.PushMemcpy(size, []);
      } else {
        ok := false;
      }
    case OpaqueType(size) =>
      ok := opaques;
      if ok {
        layout.PushSkip(size);
      }
  }

  /** Elements have a visitor and a layout of their own. */
  method VisitArray(t: Type, layout: MemoryLayout) returns (ok: bool)
    requires t.ArrayType? && Ordered(t)
    modifies layout
    ensures ok <==> Accepts(t.elem, false, false)
    ensures ok ==> Grown(t, old(layout.ops), old(layout.initOps), layout.ops, layout.initOps)
    decreases t.elem, 1
  {
    var sub := new MemoryLayout();
    ok := Visit(t.elem, false, false, sub);
    if ok {
      layout.PushArray(t.dimension, sub);
    }
  }

  method VisitContainer(t: Type, layout: MemoryLayout) returns (ok: bool)
    requires t.ContainerType? && Ordered(t)
    modifies layout
    ensures ok <==> Accepts(t.elem, false, false)
    ensures ok ==> Grown(t, old(layout.ops), old(layout.initOps), layout.ops, layout.initOps)
    decreases t.elem, 1
  {
    var sub := new MemoryLayout();
    ok := Visit(t.elem, false, false, sub);
    if ok {
      layout.PushContainer(t.handle, sub);
    }
  }

  method VisitFields(fields: Fields, size: nat, pointers: bool, opaques: bool, layout: MemoryLayout) returns (ok: bool)
    requires OrderedFields(fields, 0, size)
    modifies layout
    ensures ok <==> AcceptsFields(fields, pointers, opaques)
    ensures ok ==> layout.ops == old(layout.ops) + Words(RawFields(fields, 0, size))
    ensures ok ==> layout.initOps == old(layout.initOps) + IC.InitWords(RawInitFields(fields, 0, size))
    decreases fields, 2
  {
    ghost var goal := layout.ops + Words(RawFields(fields, 0, size));
    ghost var initGoal := layout.initOps + IC.InitWords(RawInitFields(fields, 0, size));
    ok := VisitEach(fields, 0, size, pointers, opaques, layout, goal, initGoal);
  }

  /** The fields one after the other, and what follows the last. */
  method VisitEach(fields: Fields, start: nat, size: nat, pointers: bool, opaques: bool, layout: MemoryLayout, ghost goal: seq<nat>, ghost initGoal: seq<nat>)
    returns (ok: bool)
    requires Left(fields, start, size, layout.ops, layout.initOps, goal, initGoal)
    modifies layout
    ensures ok <==> AcceptsFields(fields, pointers, opaques)
    ensures ok ==> layout.ops == goal && layout.initOps == initGoal
    decreases fields, 1
  {
    var fs, at: nat := fields, start;
    ok := true;
    while fs.FieldAt?
      invariant fs == fields || fs < fields
      invariant AcceptsFields(fields, pointers, opaques) == AcceptsFields(fs, pointers, opaques)
      invariant Left(fs, at, size, layout.ops, layout.initOps, goal, initGoal)
      decreases fs
    {
      ok := VisitField(fs, at, size, pointers, opaques, layout, goal, initGoal);
      if !ok {
        return;
      }
      at := fs.offset + Size(fs.typ);
      fs := fs.rest;
    }
    LeftLast(at, size, layout.ops, layout.initOps, goal, initGoal);
    layout.PushSkip(size - at);
  }

  /** The padding in front of a field, and the field. */
  method VisitField(fs: Fields, at: nat, ghost size: nat, pointers: bool, opaques: bool, layout: MemoryLayout, ghost goal: seq<nat>, ghost initGoal: seq<nat>) returns (ok: bool)
    requires fs.FieldAt? && Left(fs, at, size, layout.ops, layout.initOps, goal, initGoal)
    modifies layout
    ensures ok <==> Accepts(fs.typ, pointers, opaques)
    ensures ok ==> Left(fs.rest, fs.offset + Size(fs.typ), size, layout.ops, layout.initOps, goal, initGoal)
    decreases fs, 0
  {
    LeftNext(fs, at, size, layout.ops, layout.initOps, goal, initGoal);
    layout.PushSkip(fs.offset - at);
    ok := Visit(fs.typ, pointers, opaques, layout);
  }

  /** What the visitor still has to write for the fields `fs`, from address `at` on. */
  ghost predicate Left(fs: Fields, at: nat, size: nat, ops: seq<nat>, initOps: seq<nat>, goal: seq<nat>, initGoal: seq<nat>) {
    && OrderedFields(fs, at, size)
    && ops + Words(RawFields(fs, at, size)) == goal
    && initOps + IC.InitWords(RawInitFields(fs, at, size)) == initGoal
  }

  lemma LeftNext(fs: Fields, at: nat, size: nat, ops: seq<nat>, initOps: seq<nat>, goal: seq<nat>, initGoal: seq<nat>)
    requires fs.FieldAt? && Left(fs, at, size, ops, initOps, goal, initGoal)
    ensures Left(fs.rest, fs.offset + Size(fs.typ), size,
                 ops + [SKIP, fs.offset - at] + Words(Raw(fs.typ)),
                 initOps + [INIT_SKIP, fs.offset - at] + IC.InitWords(RawInit(fs.typ)), goal, initGoal)
  {
    var end := fs.offset + Size(fs.typ);
    OpsNext(fs, at, size, end, ops, goal);
    InitOpsNext(fs, at, size, end, initOps, initGoal);
  }

  lemma OpsNext(fs: Fields, at: nat, size: nat, end: nat, ops: seq<nat>, goal: seq<nat>)
    requires fs.FieldAt? && OrderedFields(fs, at, size) && end == fs.offset + Size(fs.typ) && ops + Words(RawFields(fs, at, size)) == goal
    ensures ops + [SKIP, fs.offset - at] + Words(Raw(fs.typ)) + Words(RawFields(fs.rest, end, size)) == goal
  {
    FieldWords(ops, fs.offset - at, Raw(fs.typ), RawFields(fs.rest, end, size));
  }

  lemma InitOpsNext(fs: Fields, at: nat, size: nat, end: nat, ops: seq<nat>, goal: seq<nat>)
    requires fs.FieldAt? && OrderedFields(fs, at, size) && end == fs.offset + Size(fs.typ)
    requires ops + IC.InitWords(RawInitFields(fs, at, size)) == goal
    ensures ops + [INIT_SKIP, fs.offset - at] + IC.InitWords(RawInit(fs.typ)) + IC.InitWords(RawInitFields(fs.rest, end, size)) == goal
  {
    FieldInitWords(ops, fs.offset - at, RawInit(fs.typ), RawInitFields(fs.rest, end, size));
  }

  lemma FieldWords(ops: seq<nat>, gap: nat, a: Code, b: Code)
    ensures ops + Words(Skip(gap, Append(a, b))) == ops + [SKIP, gap] + Words(a) + Words(b)
  {
    WordsAppend(a, b);
    Ungroup(ops, [SKIP, gap], Words(a), Words(b));
  }

  lemma FieldInitWords(ops: seq<nat>, gap: nat, a: IC.Init, b: IC.Init)
    ensures ops + IC.InitWords(IC.Pass(gap, IC.Join(a, b))) == ops + [INIT_SKIP, gap] + IC.InitWords(a) + IC.InitWords(b)
  {
    IC.WordsJoin(a, b);
    Ungroup(ops, [INIT_SKIP, gap], IC.InitWords(a), IC.InitWords(b));
  }

  lemma LeftLast(at: nat, size: nat, ops: seq<nat>, initOps: seq<nat>, goal: seq<nat>, initGoal: seq<nat>)
    requires Left(NoMore, at, size, ops, initOps, goal, initGoal)
    ensures at <= size && ops + [SKIP, size - at] == goal && initOps + [INIT_SKIP, size - at] == initGoal
  {
    LastWords(size - at);
  }

  lemma LastWords(n: nat)
    ensures Words(Skip(n, Done)) == [SKIP, n] && IC.InitWords(IC.Pass(n, IC.Stop)) == [INIT_SKIP, n]
  {
  }

  lemma Ungroup(p: seq<nat>, q: seq<nat>, r: seq<nat>, s: seq<nat>)
    ensures p + (q + (r + s)) == p + q + r + s
  {
  }

  // ----- what the initialisation program does -----

  /** The writes that initialise a type placed at `off`: enumerations and containers only; then `tail`. */
  function InitVisits(t: Type, off: nat, tail: IC.Writes): IC.Writes
    decreases t, 0
  {
    match t
    case EnumType(size, values) => IC.Sets(off, EnumData(size, values), tail)
    case ArrayType(dimension, elem) => InitVisitsEach(elem, dimension, off, tail)
    case ContainerType(handle, _, _) => IC.Clear(off, handle, tail)
    case CompoundType(fields, _) => InitVisitsFields(fields, off, tail)
    case _ => tail
  }

  function InitVisitsEach(elem: Type, k: nat, off: nat, tail: IC.Writes): IC.Writes
    decreases elem, k + 1
  {
    if k == 0 then tail else InitVisits(elem, off, InitVisitsEach(elem, k - 1, off + Size(elem), tail))
  }

  function InitVisitsFields(fs: Fields, base: nat, tail: IC.Writes): IC.Writes
    decreases fs, 0
  {
    match fs
    case NoMore => tail
    case FieldAt(_, offset, typ, rest) => InitVisits(typ, base + offset, InitVisitsFields(rest, base, tail))
  }

  /** The initialisation program spans the type and initialises exactly its enumerations and containers, where they are. */
  lemma {:induction false} RawInitIsExact(env: Sizes, t: Type, off: nat, tail: IC.Writes)
    requires Ordered(t) && Described(env, t)
    ensures IC.InitSpan(env, RawInit(t)) == Size(t)
    ensures IC.Effect(env, RawInit(t), off, tail) == InitVisits(t, off, tail)
    decreases t, 0
  {
    match t
    case ArrayType(dimension, elem) => RawInitArrayIsExact(env, elem, dimension, off, tail);
    case CompoundType(fields, size) => RawInitFieldsAreExact(env, fields, 0, size, off, off, tail);
    case _ =>
  }

  lemma {:induction false} RawInitArrayIsExact(env: Sizes, elem: Type, k: nat, off: nat, tail: IC.Writes)
    requires Ordered(elem) && Described(env, elem)
    ensures IC.InitSpan(env, RawInit(elem)) == Size(elem)
    ensures IC.EffectEach(env, RawInit(elem), k, off, tail) == InitVisitsEach(elem, k, off, tail)
    decreases elem, k + 1
  {
    if k == 0 {
      RawInitIsExact(env, elem, off, tail);
    } else {
      RawInitArrayIsExact(env, elem, k - 1, off + Size(elem), tail);
      RawInitIsExact(env, elem, off, InitVisitsEach(elem, k - 1, off + Size(elem), tail));
    }
  }

  lemma {:induction false} RawInitFieldsAreExact(env: Sizes, fs: Fields, at: nat, size: nat, base: nat, off: nat, tail: IC.Writes)
    requires OrderedFields(fs, at, size) && DescribedFields(env, fs) && off == base + at
    ensures at + IC.InitSpan(env, RawInitFields(fs, at, size)) == size
    ensures IC.Effect(env, RawInitFields(fs, at, size), off, tail) == InitVisitsFields(fs, base, tail)
    decreases fs, 0
  {
    if fs.FieldAt? {
      var end := fs.offset + Size(fs.typ);
      RawInitFieldsAreExact(env, fs.rest, end, size, base, base + end, tail);
      RawInitIsExact(env, fs.typ, base + fs.offset, InitVisitsFields(fs.rest, base, tail));
      FieldEffect(env, fs, at, size, end, off, base + fs.offset, base + end, tail);
    }
  }

  /** Padding and a field, then the others. */
  lemma FieldEffect(env: Sizes, fs: Fields, at: nat, size: nat, end: nat, off: nat, start: nat, stop: nat, tail: IC.Writes)
    requires fs.FieldAt? && OrderedFields(fs, at, size) && end == fs.offset + Size(fs.typ)
    requires start == off + (fs.offset - at) && stop == start + Size(fs.typ) && IC.InitSpan(env, RawInit(fs.typ)) == Size(fs.typ)
    ensures at + IC.InitSpan(env, RawInitFields(fs, at, size)) == end + IC.InitSpan(env, RawInitFields(fs.rest, end, size))
    ensures IC.Effect(env, RawInitFields(fs, at, size), off, tail)
            == IC.Effect(env, RawInit(fs.typ), start, IC.Effect(env, RawInitFields(fs.rest, end, size), stop, tail))
  {
    PaddedEffect(env, fs.offset - at, RawInit(fs.typ), RawInitFields(fs.rest, end, size), off, start, stop, tail);
  }

  /** Padding, one program, then another. */
  lemma PaddedEffect(env: Sizes, gap: nat, a: IC.Init, b: IC.Init, off: nat, start: nat, end: nat, tail: IC.Writes)
    requires start == off + gap && end == start + IC.InitSpan(env, a)
    ensures IC.InitSpan(env, IC.Pass(gap, IC.Join(a, b))) == gap + IC.InitSpan(env, a) + IC.InitSpan(env, b)
    ensures IC.Effect(env, IC.Pass(gap, IC.Join(a, b)), off, tail) == IC.Effect(env, a, start, IC.Effect(env, b, end, tail))
  {
    IC.SpanJoin(env, a, b);
    IC.EffectJoin(env, a, b, start, end, tail);
  }

  /** The initialisation program of `layout_of`. */
  function InitLayoutOf(t: Type): IC.Init
    requires Ordered(t)
  {
    IC.Cleared(IC.Simplified(true, RawInit(t), IC.Nothing))
  }

  /** Simplified or not, the initialisation program of a type makes the same writes. */
  lemma InitLayoutIsExact(env: Sizes, t: Type)
    requires Ordered(t) && Described(env, t)
    ensures IC.Effect(env, InitLayoutOf(t), 0, IC.NoWrite) == InitVisits(t, 0, IC.NoWrite)
  {
    IC.SimplifiedEffect(env, RawInit(t));
    RawInitIsExact(env, t, 0, IC.NoWrite);
  }
}
