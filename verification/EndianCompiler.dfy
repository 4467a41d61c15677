/** `CompileEndianSwapVisitor`: from a type to a swap program. */
module EndianCompiler {
  import opened Tracing
  import opened Types
  import opened EndianCode

  // ----- what is emitted -----

  /** A skip is merged into the skip in front of it. */
  function AddSkip(c: Code, n: nat): Code {
    if c.Done? then Skip(n, Done)
    else if c.Skip? && c.next.Done? then Skip(c.n + n, Done)
    else c.(next := AddSkip(c.next, n))
  }

  /** The program `c` followed by what is emitted for a value of type `t` at index `idx`. */
  function Emitted(c: Code, t: Type, idx: nat): Code
    decreases t, 1
  {
    match t
    case NumericType(size) =>
      if size == 1 then AddSkip(c, 1)
      else if size == 2 then Append(c, Takes(idx, 2))
      else if size == 4 then Append(c, Swap(4, Done))
      else Append(c, Swap(8, Done))
    case ArrayType(dimension, elem) => Append(c, ArrayOp(dimension, elem, idx))
    case CompoundType(fields, _) => EmittedFields(c, fields, idx, idx)
    case _ => Append(c, Takes(idx, SIZE_OF_ENUM))
  }

  /** `n` bytes from `idx` on, back to front. */
  function Takes(idx: nat, n: nat): (c: Code)
    ensures Reach(c) == n
    decreases n
  {
    if n == 0 then Done else Take(idx + n - 1, Takes(idx, n - 1))
  }

  /** Fields that start before `idx`, where the last one ended, are passed over. */
  function EmittedFields(c: Code, fs: Fields, base: nat, idx: nat): Code
    decreases fs, 1
  {
    match fs
    case NoMore => c
    case FieldAt(_, offset, typ, rest) =>
      var start := base + offset;
      if start < idx then EmittedFields(c, rest, base, idx)
      else
        var d := if start > idx then AddSkip(c, start - idx) else c;
        EmittedFields(Emitted(d, typ, start), rest, base, start + Size(typ))
  }

  /** One operation for a whole array: arrays of arrays are one array, and arrays of bytes are skipped. */
  function ArrayOp(dimension: nat, elem: Type, idx: nat): Code
    decreases elem, 2
  {
    if elem.ArrayType? then Multiplied(dimension, ArrayOp(elem.dimension, elem.elem, idx))
    else Packed(dimension, Size(elem), Emitted(Done, elem, idx))
  }

  function Packed(dimension: nat, size: nat, body: Code): Code {
    if body.Skip? && body.next.Done? then Skip(Times(dimension, body.n), Done) else Array(dimension, size, body, Done)
  }

  function Multiplied(k: nat, op: Code): Code {
    if op.Array? then op.(count := Times(k, op.count)) else if op.Skip? then op.(n := Times(k, op.n)) else op
  }

  // ----- when the emitted program is right -----

  /** How far the program of a type gets. */
  function Advance(t: Type): nat
    decreases t
  {
    match t
    case NumericType(size) => if size == 1 || size == 2 || size == 4 then size else 8
    case ArrayType(dimension, elem) => Times(dimension, Advance(elem))
    case CompoundType(fields, _) => AdvanceFields(fields, 0)
    case _ => SIZE_OF_ENUM
  }

  function AdvanceFields(fs: Fields, at: nat): nat
    decreases fs
  {
    match fs
    case NoMore => 0
    case FieldAt(_, offset, typ, rest) =>
      if offset < at then AdvanceFields(rest, at)
      else offset - at + Advance(typ) + AdvanceFields(rest, offset + Size(typ))
  }

  /** Padding at the end of a structure is only found where nothing follows it. */
  predicate Tight(t: Type)
    decreases t
  {
    match t
    case ArrayType(dimension, elem) => Tight(elem) && (dimension <= 1 || Pad(elem) == 0)
    case CompoundType(fields, _) => TightFields(fields)
    case _ => true
  }

  predicate TightFields(fs: Fields)
    decreases fs
  {
    fs.FieldAt? ==> Tight(fs.typ) && (fs.rest.NoMore? || Pad(fs.typ) == 0) && TightFields(fs.rest)
  }

  // ----- lemmas -----

  lemma {:induction false} AddSkipReach(c: Code, n: nat)
    ensures Reach(AddSkip(c, n)) == Reach(c) + n
  {
    if !c.Done? {
      AddSkipReach(c.next, n);
    }
  }

  lemma {:induction false} AddSkipRuns(c: Code, n: nat, out: nat, end: nat, inp: nat, tail: Feed)
    requires end == out + Reach(c)
    ensures Run(AddSkip(c, n), out, inp, tail) == Run(c, out, inp, Same(end, n, tail))
    decreases c
  {
    if c.Skip? && c.next.Done? {
      SameTwice(out, c.n, n, tail);
    } else if !c.Done? {
      AddSkipRuns(c.next, n, out + StepReach(c), end, inp, tail);
      SameStep(c, AddSkip(c.next, n), out, inp, Run(c.next, out + StepReach(c), inp, Same(end, n, tail)));
    }
  }

  lemma {:induction false} TimesAssoc(a: nat, b: nat, c: nat)
    ensures Times(a, Times(b, c)) == Times(Times(a, b), c)
  {
    TimesIsProduct(a, Times(b, c));
    TimesIsProduct(b, c);
    TimesIsProduct(a, b);
    TimesIsProduct(Times(a, b), c);
    assert a * (b * c) == (a * b) * c;
  }

  lemma PackedReach(k: nat, size: nat, body: Code)
    ensures Reach(Packed(k, size, body)) == Times(k, Reach(body))
  {
  }

  /** An array of arrays is one array. */
  lemma {:induction false} ArrayOpFlattens(k: nat, m: nat, e: Type, idx: nat)
    ensures Multiplied(k, ArrayOp(m, e, idx)) == ArrayOp(Times(k, m), e, idx)
    decreases e
  {
    if e.ArrayType? {
      ArrayOpFlattens(m, e.dimension, e.elem, idx);
      ArrayOpFlattens(k, Times(m, e.dimension), e.elem, idx);
      ArrayOpFlattens(Times(k, m), e.dimension, e.elem, idx);
      TimesAssoc(k, m, e.dimension);
    } else {
      var body := Emitted(Done, e, idx);
      if body.Skip? && body.next.Done? {
        TimesAssoc(k, m, body.n);
      }
    }
  }

  // ----- how far the program gets -----

  lemma {:induction false} EmittedReach(c: Code, t: Type, idx: nat)
    requires Swappable(t)
    ensures Reach(Emitted(c, t, idx)) == Reach(c) + Advance(t)
    decreases t, 1
  {
    match t
    case NumericType(size) =>
      if size == 1 {
        AddSkipReach(c, 1);
      } else {
        ReachAppend(c, if size == 2 then Takes(idx, 2) else if size == 4 then Swap(4, Done) else Swap(8, Done));
      }
    case ArrayType(dimension, elem) =>
      ArrayOpReach(dimension, elem, idx);
      ReachAppend(c, ArrayOp(dimension, elem, idx));
    case CompoundType(fields, _) => EmittedFieldsReach(c, fields, idx, idx);
    case EnumType(_, _) =>
      ReachAppend(c, Takes(idx, 4));
    case _ =>
  }

  lemma {:induction false} EmittedFieldsReach(c: Code, fs: Fields, base: nat, idx: nat)
    requires SwappableFields(fs) && base <= idx
    ensures Reach(EmittedFields(c, fs, base, idx)) == Reach(c) + AdvanceFields(fs, idx - base)
    decreases fs, 1
  {
    match fs
    case NoMore =>
    case FieldAt(_, offset, typ, rest) =>
      var start := base + offset;
      if start < idx {
        EmittedFieldsReach(c, rest, base, idx);
      } else {
        var d := if start > idx then AddSkip(c, start - idx) else c;
        AddSkipReach(c, start - idx);
        EmittedReach(d, typ, start);
        EmittedFieldsReach(Emitted(d, typ, start), rest, base, start + Size(typ));
      }
  }

  lemma {:induction false} ArrayOpReach(k: nat, elem: Type, idx: nat)
    requires Swappable(elem)
    ensures Reach(ArrayOp(k, elem, idx)) == Times(k, Advance(elem))
    decreases elem, 2
  {
    if elem.ArrayType? {
      ArrayOpFlattens(k, elem.dimension, elem.elem, idx);
      ArrayOpReach(Times(k, elem.dimension), elem.elem, idx);
      TimesAssoc(k, elem.dimension, Advance(elem.elem));
    } else {
      EmittedReach(Done, elem, idx);
      PackedReach(k, Size(elem), Emitted(Done, elem, idx));
    }
  }

  lemma {:induction false} TimesGrows(k: nat, a: nat, b: nat)
    requires a <= b
    ensures Times(k, a) <= Times(k, b) && (Times(k, a) == Times(k, b) <==> k == 0 || a == b)
  {
    if k > 0 {
      TimesGrows(k - 1, a, b);
    }
  }

  /** The program gets to the end of the last leaf exactly when padding is only found where nothing follows it. */
  lemma {:induction false} TightIsExact(t: Type)
    requires Ordered(t) && Swappable(t)
    ensures Advance(t) <= End(t) <= Size(t)
    ensures Advance(t) == End(t) <==> Tight(t)
    decreases t
  {
    match t
    case ArrayType(k, elem) =>
      TightIsExact(elem);
      TimesGrows(k - 1, Advance(elem), Size(elem));
    case CompoundType(fields, size) =>
      if fields.FieldAt? {
        TightFieldsAreExact(fields, 0, size);
      }
    case _ =>
  }

  lemma {:induction false} TightFieldsAreExact(fs: Fields, at: nat, size: nat)
    requires fs.FieldAt? && OrderedFields(fs, at, size) && SwappableFields(fs)
    ensures at + AdvanceFields(fs, at) <= EndOf(fs) <= size
    ensures at + AdvanceFields(fs, at) == EndOf(fs) <==> TightFields(fs)
    decreases fs
  {
    TightIsExact(fs.typ);
    if fs.rest.FieldAt? {
      TightFieldsAreExact(fs.rest, fs.offset + Size(fs.typ), size);
    }
  }

  // ----- what the program does -----

  /** Where a tight program is, in the output and in the input. */
  lemma {:induction false} EmittedRuns(c: Code, t: Type, idx: nat, out: nat, end: nat, inp: nat, tail: Feed)
    requires Ordered(t) && Swappable(t) && Tight(t) && end == out + Reach(c) == idx + inp
    ensures Run(Emitted(c, t, idx), out, inp, tail) == Run(c, out, inp, Mirrored(t, end, tail))
    decreases t, 1
  {
    match t
    case NumericType(size) =>
      if size == 1 {
        AddSkipRuns(c, 1, out, end, inp, tail);
      } else {
        RunAppend(c, if size == 2 then Takes(idx, 2) else if size == 4 then Swap(4, Done) else Swap(8, Done), out, end, inp, tail);
        TakesBack(idx, 2, end, end, inp, tail);
      }
    case ArrayType(dimension, elem) =>
      ArrayOpRuns(dimension, elem, idx, end, inp, tail);
      RunAppend(c, ArrayOp(dimension, elem, idx), out, end, inp, tail);
    case CompoundType(fields, size) =>
      EmittedFieldsRun(c, fields, 0, size, idx, idx, out, end, inp, tail);
    case EnumType(_, _) =>
      RunAppend(c, Takes(idx, 4), out, end, inp, tail);
      TakesBack(idx, 4, end, end, inp, tail);
    case _ =>
  }

  lemma {:induction false} TakesBack(idx: nat, n: nat, out: nat, end: nat, inp: nat, tail: Feed)
    requires end == idx + inp
    ensures Run(Takes(idx, n), out, inp, tail) == Back(end, n, tail)
    decreases n
  {
    if n > 0 {
      TakesBack(idx, n - 1, out + 1, end, inp, tail);
    }
  }

  /** The first field and the others, when no padding is found in between. */
  lemma FieldsMirrored(fs: Fields, at: nat, base: nat, tail: Feed, gap: nat, from: nat, start: nat, next: nat)
    requires fs.FieldAt? && at + gap == fs.offset && TightFields(fs)
    requires from == base + at && start == base + fs.offset && next == fs.offset + Size(fs.typ)
    ensures MirroredFields(fs, at, base, tail) == Same(from, gap, Mirrored(fs.typ, start, MirroredFields(fs.rest, next, base, tail)))
  {
  }

  lemma {:induction false} EmittedFieldsRun(c: Code, fs: Fields, at: nat, size: nat, base: nat, idx: nat, out: nat, end: nat, inp: nat, tail: Feed)
    requires OrderedFields(fs, at, size) && SwappableFields(fs) && TightFields(fs)
    requires idx == base + at && end == out + Reach(c) == idx + inp
    ensures Run(EmittedFields(c, fs, base, idx), out, inp, tail) == Run(c, out, inp, MirroredFields(fs, at, base + inp, tail))
    decreases fs, 2
  {
    if fs.FieldAt? {
      var gap, next := fs.offset - at, fs.offset + Size(fs.typ);
      var e := FieldTurn(c, fs, at, size, base, idx, gap, base + next, out, end, inp, MirroredFields(fs.rest, next, base + inp, tail));
      FieldsMirrored(fs, at, base + inp, tail, gap, end, end + gap, next);
      RestRuns(e, fs, at, next, size, base, base + next, out, end + gap + Size(fs.typ), inp, tail, end + gap + End(fs.typ));
    }
  }

  /** The program with one field more, and what it runs. */
  lemma {:induction false} FieldTurn(c: Code, fs: Fields, at: nat, size: nat, base: nat, idx: nat, gap: nat, next: nat,
                                     out: nat, end: nat, inp: nat, later: Feed)
    returns (e: Code)
    requires fs.FieldAt? && OrderedFields(fs, at, size) && SwappableFields(fs) && TightFields(fs) && at + gap == fs.offset && idx == base + at
    requires next == base + fs.offset + Size(fs.typ) && end == out + Reach(c) == idx + inp
    ensures EmittedFields(c, fs, base, idx) == EmittedFields(e, fs.rest, base, next)
    ensures Reach(e) == Reach(c) + gap + End(fs.typ) && End(fs.typ) <= Size(fs.typ)
    ensures Run(e, out, inp, later) == Run(c, out, inp, Same(end, gap, Mirrored(fs.typ, end + gap, later)))
    decreases fs, 1
  {
    var d := if gap > 0 then AddSkip(c, gap) else c;
    e := Emitted(d, fs.typ, base + fs.offset);
    FieldRuns(c, d, e, fs.typ, gap, base + fs.offset, out, end, inp, later);
    FirstEmitted(c, d, e, fs, base, idx, gap, next);
  }

  /** The fields after the first, which got to `reached`: to its end, unless it was the last. */
  lemma {:induction false} RestRuns(e: Code, fs: Fields, at: nat, next: nat, size: nat, base: nat, idx: nat, out: nat, end: nat, inp: nat, tail: Feed, reached: nat)
    requires fs.FieldAt? && OrderedFields(fs, at, size) && SwappableFields(fs) && TightFields(fs) && next == fs.offset + Size(fs.typ)
    requires idx == base + next && end == idx + inp && reached == out + Reach(e) == end - Size(fs.typ) + End(fs.typ) && End(fs.typ) <= Size(fs.typ)
    ensures Run(EmittedFields(e, fs.rest, base, idx), out, inp, tail) == Run(e, out, inp, MirroredFields(fs.rest, next, base + inp, tail))
    decreases fs, 1
  {
    if fs.rest.FieldAt? {
      assert Pad(fs.typ) == 0;
      EmittedFieldsRun(e, fs.rest, next, size, base, idx, out, end, inp, tail);
    }
  }

  lemma FirstEmitted(c: Code, d: Code, e: Code, fs: Fields, base: nat, idx: nat, gap: nat, next: nat)
    requires fs.FieldAt? && idx + gap == base + fs.offset && next == base + fs.offset + Size(fs.typ)
    requires d == (if gap > 0 then AddSkip(c, gap) else c) && e == Emitted(d, fs.typ, base + fs.offset)
    ensures EmittedFields(c, fs, base, idx) == EmittedFields(e, fs.rest, base, next)
  {
  }

  lemma PassedOver(c: Code, fs: Fields, base: nat, idx: nat)
    requires fs.FieldAt? && base + fs.offset < idx
    ensures EmittedFields(c, fs, base, idx) == EmittedFields(c, fs.rest, base, idx)
  {
  }

  /** A gap, then a field. */
  lemma {:induction false} FieldRuns(c: Code, d: Code, e: Code, typ: Type, gap: nat, start: nat, out: nat, end: nat, inp: nat, later: Feed)
    requires Ordered(typ) && Swappable(typ) && Tight(typ) && end == out + Reach(c) && end + gap == start + inp
    requires d == (if gap > 0 then AddSkip(c, gap) else c) && e == Emitted(d, typ, start)
    ensures Reach(e) == Reach(c) + gap + End(typ) && End(typ) <= Size(typ)
    ensures Run(e, out, inp, later) == Run(c, out, inp, Same(end, gap, Mirrored(typ, end + gap, later)))
    decreases typ, 2
  {
    GapRuns(c, gap, out, end, inp, Mirrored(typ, end + gap, later));
    EmittedReach(d, typ, start);
    TightIsExact(typ);
    EmittedRuns(d, typ, start, out, end + gap, inp, later);
  }

  lemma GapRuns(c: Code, gap: nat, out: nat, end: nat, inp: nat, tail: Feed)
    requires end == out + Reach(c)
    ensures var d := if gap > 0 then AddSkip(c, gap) else c;
            Reach(d) == Reach(c) + gap && Run(d, out, inp, tail) == Run(c, out, inp, Same(end, gap, tail))
  {
    AddSkipReach(c, gap);
    AddSkipRuns(c, gap, out, end, inp, tail);
  }

  lemma {:induction false} ArrayOpRuns(k: nat, elem: Type, idx: nat, out: nat, inp: nat, tail: Feed)
    requires k > 0 && Ordered(elem) && Swappable(elem) && Tight(elem) && (k == 1 || Pad(elem) == 0) && out == idx + inp
    ensures Run(ArrayOp(k, elem, idx), out, inp, tail) == MirroredEach(elem, k, out, tail)
    decreases elem, 4
  {
    if elem.ArrayType? {
      var m, e := elem.dimension, elem.elem;
      TightIsExact(e);
      FlatPad(k, m, e);
      ArrayOpFlattens(k, m, e, idx);
      ArrayOpRuns(Times(k, m), e, idx, out, inp, tail);
      MirroredFlattens(k, m, e, out, tail);
    } else {
      var body := Emitted(Done, elem, idx);
      EmittedMirrors(elem, idx);
      EmittedReach(Done, elem, idx);
      TightIsExact(elem);
      EachRuns(elem, body, k, idx, out, inp, tail);
      PackedRuns(k, Size(elem), body, out, inp, tail);
    }
  }

  lemma {:induction false} EmittedMirrors(elem: Type, idx: nat)
    requires Ordered(elem) && Swappable(elem) && Tight(elem)
    ensures Mirrors(Emitted(Done, elem, idx), elem, idx)
    decreases elem, 3
  {
    forall inp: nat, tail: Feed ensures MirrorsAt(Emitted(Done, elem, idx), elem, idx, inp, tail) {
      EmittedAlone(elem, idx, inp, tail);
    }
  }

  lemma {:induction false} EmittedAlone(elem: Type, idx: nat, inp: nat, tail: Feed)
    requires Ordered(elem) && Swappable(elem) && Tight(elem)
    ensures MirrorsAt(Emitted(Done, elem, idx), elem, idx, inp, tail)
    decreases elem, 2
  {
    var at := idx + inp;
    EmittedRuns(Done, elem, idx, at, at, inp, tail);
    assert Run(Done, at, inp, Mirrored(elem, at, tail)) == Mirrored(elem, at, tail);
  }

  lemma FlatPad(k: nat, m: nat, e: Type)
    requires k > 0 && m > 0 && End(e) <= Size(e) && (m == 1 || Pad(e) == 0) && (k == 1 || Pad(ArrayType(m, e)) == 0)
    ensures Times(k, m) > 0 && (Times(k, m) == 1 || Pad(e) == 0)
  {
    TimesIsProduct(k, m);
    TimesStep(m, Size(e));
    assert k == 1 ==> k * m == m;
    assert k * m > 0;
  }

  lemma PackedRuns(k: nat, size: nat, body: Code, out: nat, inp: nat, tail: Feed)
    ensures Run(Packed(k, size, body), out, inp, tail) == RunEach(body, size, k, out, inp, tail)
  {
    if body.Skip? && body.next.Done? {
      EachSkips(body.n, size, k, out, inp, tail);
    }
  }

  /** The first element and the others, when no padding is found in between. */
  lemma EachMirrored(elem: Type, k: nat, off: nat, tail: Feed)
    requires k > 0 && (k == 1 || Pad(elem) == 0)
    ensures MirroredEach(elem, k, off, tail) == Mirrored(elem, off, MirroredEach(elem, k - 1, off + Size(elem), tail))
  {
  }

  /** Run anywhere, the block swaps an element. */
  ghost predicate Mirrors(body: Code, elem: Type, idx: nat) {
    forall inp: nat, tail: Feed :: MirrorsAt(body, elem, idx, inp, tail)
  }

  ghost predicate MirrorsAt(body: Code, elem: Type, idx: nat, inp: nat, tail: Feed) {
    Run(body, idx + inp, inp, tail) == Mirrored(elem, idx + inp, tail)
  }

  /** One element, then the others. */
  lemma OneRuns(body: Code, k: nat, n: nat, out: nat, out': nat, inp: nat, inp': nat, tail: Feed, later: Feed)
    requires k > 0 && inp' == inp + n && (k == 1 || out' == out + Reach(body)) && later == RunEach(body, n, k - 1, out', inp', tail)
    ensures RunEach(body, n, k, out, inp, tail) == Run(body, out, inp, later)
  {
    EachFirst(body, n, k, out, inp, tail);
    OthersRun(body, k - 1, n, out + Reach(body), out', inp', tail);
  }

  /** Where the others start does not matter if there are none. */
  lemma OthersRun(body: Code, k: nat, n: nat, at: nat, out: nat, inp: nat, tail: Feed)
    requires k == 0 || at == out
    ensures RunEach(body, n, k, at, inp, tail) == RunEach(body, n, k, out, inp, tail)
  {
  }

  lemma {:induction false} EachRuns(elem: Type, body: Code, k: nat, idx: nat, out: nat, inp: nat, tail: Feed)
    requires Mirrors(body, elem, idx) && out == idx + inp
    requires k <= 1 || (Pad(elem) == 0 && Reach(body) == Size(elem))
    ensures RunEach(body, Size(elem), k, out, inp, tail) == MirroredEach(elem, k, out, tail)
    decreases k
  {
    if k > 0 {
      var n := Size(elem);
      EachRuns(elem, body, k - 1, idx, out + n, inp + n, tail);
      var later := MirroredEach(elem, k - 1, out + n, tail);
      assert MirrorsAt(body, elem, idx, inp, later);
      EachMirrored(elem, k, out, tail);
      OneRuns(body, k, n, out, out + n, inp, inp + n, tail, later);
    }
  }

  lemma {:induction false} EachSkips(n: nat, size: nat, k: nat, out: nat, inp: nat, tail: Feed)
    ensures RunEach(Skip(n, Done), size, k, out, inp, tail) == Same(out, Times(k, n), tail)
    decreases k
  {
    if k > 0 {
      var m := Times(k - 1, n);
      EachSkips(n, size, k - 1, out + n, inp + size, tail);
      SkipEach(n, size, k, out, inp, tail);
      SameTwice(out, n, m, tail);
    }
  }

  lemma SkipEach(n: nat, size: nat, k: nat, out: nat, inp: nat, tail: Feed)
    requires k > 0
    ensures RunEach(Skip(n, Done), size, k, out, inp, tail) == Same(out, n, RunEach(Skip(n, Done), size, k - 1, out + n, inp + size, tail))
  {
    var body := Skip(n, Done);
    assert Reach(body) == n;
    var later := RunEach(body, size, k - 1, out + n, inp + size, tail);
    EachFirst(body, size, k, out, inp, tail);
    assert Run(body, out, inp, later) == Same(out, n, Run(Done, out + n, inp, later));
  }

  lemma EachFirst(body: Code, size: nat, k: nat, out: nat, inp: nat, tail: Feed)
    requires k > 0
    ensures RunEach(body, size, k, out, inp, tail) == Run(body, out, inp, RunEach(body, size, k - 1, out + Reach(body), inp + size, tail))
  {
  }

  /** An array of `k` arrays of `m` elements is an array of as many elements as there are in all. */
  lemma {:induction false} MirroredFlattens(k: nat, m: nat, e: Type, off: nat, tail: Feed)
    requires k > 0 && m > 0 && End(e) <= Size(e)
    ensures MirroredEach(ArrayType(m, e), k, off, tail) == MirroredEach(e, Times(k, m), off, tail)
    decreases k
  {
    if k > 1 {
      var t := ArrayType(m, e);
      MirroredFlattens(k - 1, m, e, off + Size(t), tail);
      TimesIsProduct(k - 1, m);
      MirroredSplits(e, m, Times(k - 1, m), off, tail);
      TimesStep(m, Size(e));
    }
  }

  lemma {:induction false} MirroredSplits(e: Type, m: nat, n: nat, off: nat, tail: Feed)
    requires m > 0 && n > 0 && End(e) <= Size(e)
    ensures MirroredEach(e, m + n, off, tail)
            == MirroredEach(e, m, off, Same(off + Times(m - 1, Size(e)) + End(e), Pad(e), MirroredEach(e, n, off + Times(m, Size(e)), tail)))
    decreases m
  {
    if m > 1 {
      MirroredSplits(e, m - 1, n, off + Size(e), tail);
    }
  }
}
