/**
 Values without containers.

 Such a value is dumped as the memory it occupies, without what is padding at its very end, and so it is loaded. `Typelib::load` also takes
 a buffer with the padding behind the last field of a structure; but padding at the end of that field's own type is not counted.
 */
module Images {
  import opened Bytecode
  import opened Tracing
  import opened Simplification
  import opened Octets
  import opened Types
  import opened Compiler
  import opened Places
  import opened Memory
  import opened Marshal
  import opened Unmarshal
  import opened Values
  import opened Marshalling
  import opened RoundTrip
  import B = Builder

  ghost predicate Boxless(parts: seq<Type>) {
    forall k :: 0 <= k < |parts| ==> !parts[k].ContainerType?
  }

  lemma BoxlessBoth(p: seq<Type>, q: seq<Type>)
    requires Boxless(p + q)
    ensures Boxless(p) && Boxless(q)
  {
    assert forall k :: 0 <= k < |p| ==> p[k] == (p + q)[k];
    assert forall k :: 0 <= k < |q| ==> q[k] == (p + q)[|p| + k];
  }

  // ----- the padding at the very end -----

  /** The padding at the end of `skip` bytes of padding and a value of type `t`. */
  ghost function Slack(t: Type, skip: nat): nat
    requires Ordered(t)
    decreases t
  {
    match t
    case OpaqueType(size) => skip + size
    case CompoundType(fields, size) => SlackFields(fields, 0, size, skip)
    case _ => 0
  }

  ghost function SlackFields(fs: Fields, at: nat, size: nat, skip: nat): nat
    requires OrderedFields(fs, at, size)
    decreases fs
  {
    match fs
    case NoMore => skip + (size - at)
    case FieldAt(_, offset, typ, rest) => SlackFields(rest, offset + Size(typ), size, Slack(typ, skip + (offset - at)))
  }

  lemma {:induction false} TrailIsSlack(t: Type, c: Code, skip: nat)
    requires Ordered(t)
    ensures Trail(Append(Types.Raw(t), c), skip) == Trail(c, Slack(t, skip))
    decreases t
  {
    match t
    case CompoundType(fields, size) => TrailIsSlackFields(fields, 0, size, c, skip);
    case _ =>
  }

  lemma {:induction false} TrailIsSlackFields(fs: Fields, at: nat, size: nat, c: Code, skip: nat)
    requires OrderedFields(fs, at, size)
    ensures Trail(Append(RawFields(fs, at, size), c), skip) == Trail(c, SlackFields(fs, at, size, skip))
    decreases fs
  {
    match fs
    case NoMore =>
    case FieldAt(_, offset, typ, rest) =>
      var more := RawFields(rest, offset + Size(typ), size);
      AppendTwice(Types.Raw(typ), more, c);
      TrailIsSlack(typ, Append(more, c), skip + (offset - at));
      TrailIsSlackFields(rest, offset + Size(typ), size, c, Slack(typ, skip + (offset - at)));
  }

  lemma {:induction false} AppendTwice(a: Code, b: Code, c: Code)
    ensures Append(Append(a, b), c) == Append(a, Append(b, c))
  {
    if !a.Done? {
      AppendTwice(a.next, b, c);
    }
  }

  lemma {:induction false} AppendDone(a: Code)
    ensures Append(a, Done) == a
  {
    if !a.Done? {
      AppendDone(a.next);
    }
  }

  // ----- the layout -----

  lemma {:induction false} BoxlessIsPlain(t: Type)
    requires Ordered(t) && Boxless(Parts(t))
    ensures Plain(Types.Raw(t))
    decreases t
  {
    assert Parts(t)[0] == t;
    match t
    case ArrayType(_, elem) =>
      BoxlessBoth([t], Parts(elem));
      BoxlessIsPlain(elem);
    case CompoundType(fields, size) =>
      BoxlessBoth([t], PartsOfFields(fields));
      BoxlessFieldsArePlain(fields, 0, size);
    case _ =>
  }

  lemma {:induction false} BoxlessFieldsArePlain(fs: Fields, at: nat, size: nat)
    requires OrderedFields(fs, at, size) && Boxless(PartsOfFields(fs))
    ensures Plain(RawFields(fs, at, size))
    decreases fs
  {
    if fs.FieldAt? {
      BoxlessBoth(Parts(fs.typ), PartsOfFields(fs.rest));
      BoxlessIsPlain(fs.typ);
      BoxlessFieldsArePlain(fs.rest, fs.offset + Size(fs.typ), size);
      PlainAppend(Types.Raw(fs.typ), RawFields(fs.rest, fs.offset + Size(fs.typ), size));
    }
  }

  lemma {:induction false} PlainAppend(a: Code, b: Code)
    requires Plain(a) && Plain(b)
    ensures Plain(Append(a, b))
  {
    if !a.Done? {
      PlainAppend(a.next, b);
    }
  }

  lemma {:induction false} BoxlessIsDescribed(env: Sizes, t: Type)
    requires Boxless(Parts(t))
    ensures Described(env, t)
    decreases t
  {
    assert Parts(t)[0] == t;
    match t
    case ArrayType(_, elem) =>
      BoxlessBoth([t], Parts(elem));
      BoxlessIsDescribed(env, elem);
    case CompoundType(fields, _) =>
      BoxlessBoth([t], PartsOfFields(fields));
      BoxlessFieldsAreDescribed(env, fields);
    case _ =>
  }

  lemma {:induction false} BoxlessFieldsAreDescribed(env: Sizes, fs: Fields)
    requires Boxless(PartsOfFields(fs))
    ensures DescribedFields(env, fs)
    decreases fs
  {
    if fs.FieldAt? {
      BoxlessBoth(Parts(fs.typ), PartsOfFields(fs.rest));
      BoxlessIsDescribed(env, fs.typ);
      BoxlessFieldsAreDescribed(env, fs.rest);
    }
  }

  /** One copy of `n` bytes, or nothing if the type is empty. */
  ghost predicate OneCopy(c: Code, n: nat, size: nat) {
    if size == 0 then c == Done else c == Memcpy(n, Done)
  }

  lemma PlainLayout(env: Sizes, c: Code, cut: nat, size: nat)
    requires Plain(c) && Span(env, c) == size && Trail(c, 0) == cut
    ensures cut <= size && OneCopy(Simplified(true, Top(true), c, Nothing), size - cut, size)
  {
    PlainMerges(env, Top(true), c, Nothing);
  }

  /** The layout of a type without containers is one copy of all but the padding at the very end, or nothing. */
  lemma BoxlessLayout(env: Sizes, t: Type)
    requires Ordered(t) && Boxless(Parts(t))
    ensures Slack(t, 0) <= Size(t) && OneCopy(LayoutOf(t, true, true), Size(t) - Slack(t, 0), Size(t))
  {
    var c := Types.Raw(t);
    BoxlessIsPlain(t);
    BoxlessIsDescribed(env, t);
    RawIsExact(env, t, 0, Nil);
    TrailIsSlack(t, Done, 0);
    AppendDone(c);
    PlainLayout(env, c, Slack(t, 0), Size(t));
  }

  lemma OneCopyVisits(env: Sizes, c: Code, n: nat, size: nat, off: nat)
    requires OneCopy(c, n, size) && n <= size
    ensures Trace(env, c, off, Nil) == Bytes(off, n, Nil) && Span(env, c) == n
  {
    if size > 0 {
      CopyTrace(env, n, off, Nil);
      assert Span(env, Done) == 0;
    }
  }

  lemma OneCopyRuns(env: Sizes, vec: Vectors, c: Code, n: nat, size: nat)
    requires OneCopy(c, n, size)
    ensures Fits(env, vec, c) && Backed(env, vec, c)
  {
  }

  // ----- dump and load -----

  lemma {:induction false} BoxlessIsRaw(empty: bool, t: Type, off: nat, mem: seq<Cell>)
    requires Ordered(t) && Boxless(Parts(t)) && IsValue(empty, t, off, mem) && off + Size(t) <= |mem|
    ensures AllRaw(mem, off, Size(t))
    decreases t, 0
  {
    assert Parts(t)[0] == t;
    match t
    case ArrayType(dimension, elem) =>
      BoxlessBoth([t], Parts(elem));
      BoxlessIsRawEach(empty, elem, dimension, off, mem);
    case CompoundType(fields, size) =>
      BoxlessBoth([t], PartsOfFields(fields));
      BoxlessIsRawFields(empty, fields, 0, size, off, mem);
    case _ =>
  }

  lemma {:induction false} BoxlessIsRawEach(empty: bool, elem: Type, k: nat, off: nat, mem: seq<Cell>)
    requires Ordered(elem) && Boxless(Parts(elem)) && AreValues(empty, elem, k, off, mem) && off + Times(k, Size(elem)) <= |mem|
    ensures AllRaw(mem, off, Times(k, Size(elem)))
    decreases elem, k + 1
  {
    if k > 0 {
      BoxlessIsRaw(empty, elem, off, mem);
      BoxlessIsRawEach(empty, elem, k - 1, off + Size(elem), mem);
    }
  }

  lemma {:induction false} BoxlessIsRawFields(empty: bool, fs: Fields, at: nat, size: nat, base: nat, mem: seq<Cell>)
    requires OrderedFields(fs, at, size) && Boxless(PartsOfFields(fs)) && HoldsFields(empty, fs, at, size, base, mem) && base + size <= |mem|
    ensures at <= size && AllRaw(mem, base + at, size - at)
    decreases fs, 0
  {
    if fs.FieldAt? {
      BoxlessBoth(Parts(fs.typ), PartsOfFields(fs.rest));
      BoxlessIsRawFields(empty, fs.rest, fs.offset + Size(fs.typ), size, base, mem);
      BoxlessIsRaw(empty, fs.typ, base + fs.offset, mem);
    }
  }

  /** What is dumped is the memory of the value. */
  lemma DumpIsImage(env: Sizes, vec: Vectors, t: Type, mem: seq<Cell>)
    requires Ordered(t) && Boxless(Parts(t)) && AllRaw(mem, 0, Size(t)) && Slack(t, 0) <= Size(t)
    requires Shaped(vec, Marshalled(env, t, true), mem)
    ensures Dumped(vec, Marshalled(env, t, true), mem) == Slice(mem, 0, Size(t) - Slack(t, 0))
  {
    BoxlessLayout(env, t);
    OneCopyDumps(env, vec, LayoutOf(t, true, true), Size(t) - Slack(t, 0), Size(t), 0, Marshalled(env, t, true), mem);
  }

  lemma OneCopyDumps(env: Sizes, vec: Vectors, c: Code, n: nat, size: nat, off: nat, visits: Atoms, mem: seq<Cell>)
    requires OneCopy(c, n, size) && n <= size && AllRaw(mem, off, size) && visits == Trace(env, c, off, Nil) && Shaped(vec, visits, mem)
    ensures Dumped(vec, visits, mem) == Slice(mem, off, n)
  {
    OneCopyVisits(env, c, n, size, off);
    CopyIsImage(vec, off, n, mem);
  }

  lemma CopyIsImage(vec: Vectors, off: nat, n: nat, mem: seq<Cell>)
    requires AllRaw(mem, off, n) && Shaped(vec, Bytes(off, n, Nil), mem)
    ensures Dumped(vec, Bytes(off, n, Nil), mem) == Slice(mem, off, n)
  {
    DumpedBytes(vec, off, n, Nil, mem);
    assert Slice(mem, off, n) + [] == Slice(mem, off, n);
  }

  lemma {:induction false} RawIsShaped(vec: Vectors, off: nat, n: nat, mem: seq<Cell>)
    requires AllRaw(mem, off, n)
    ensures Shaped(vec, Bytes(off, n, Nil), mem)
    decreases n
  {
    if n > 0 {
      RawIsShaped(vec, off + 1, n - 1, mem);
    }
  }

  /** The padding behind the last field of a structure. */
  function TrailingPadding(t: Type): nat {
    if t.CompoundType? && LastEnd(t.fields) <= t.size then t.size - LastEnd(t.fields) else 0
  }

  function LastEnd(fs: Fields): nat
    decreases fs
  {
    if fs.NoMore? then 0
    else
      var end := fs.offset + Size(fs.typ);
      if end > LastEnd(fs.rest) then end else LastEnd(fs.rest)
  }

  ghost function LastField(fs: Fields): Fields
    requires fs.FieldAt?
    decreases fs
  {
    if fs.rest.NoMore? then fs else LastField(fs.rest)
  }

  /** The field that ends last is the last one. */
  lemma {:induction false} LastFieldEnds(fs: Fields, at: nat, size: nat)
    requires fs.FieldAt? && OrderedFields(fs, at, size)
    ensures var last := LastField(fs); last.FieldAt? && at <= last.offset && LastEnd(fs) == last.offset + Size(last.typ) <= size
    decreases fs
  {
    if fs.rest.FieldAt? {
      LastFieldEnds(fs.rest, fs.offset + Size(fs.typ), size);
    } else {
      assert LastEnd(fs.rest) == 0;
    }
  }

  /** What may follow is what lies between the end of the last field and the end of the structure. */
  lemma PaddingExactly(t: Type)
    requires t.CompoundType? && t.fields.FieldAt? && Ordered(t)
    ensures var last := LastField(t.fields); last.FieldAt? && last.offset + Size(last.typ) + TrailingPadding(t) == Size(t)
  {
    LastFieldEnds(t.fields, 0, t.size);
  }

  /** The memory after the first `n` bytes of a buffer have been copied to its beginning. */
  ghost predicate Received(n: nat, buffer: seq<octet>, before: seq<Cell>, after: seq<Cell>) {
    && |after| == |before| && n <= |buffer| && n <= |after|
    && forall i :: 0 <= i < |after| ==> after[i] == if i < n then Cell.Raw(buffer[i]) else before[i]
  }

  /** The buffers that `load` takes for a value of `n` bytes, when `padding` more may follow. */
  ghost predicate Takes(buffer: seq<octet>, n: nat, padding: nat) {
    |buffer| == n || |buffer| == n + padding
  }

  lemma LoadCopies(env: Sizes, vec: Vectors, c: Code, n: nat, size: nat, mem: seq<Cell>, buffer: seq<octet>)
    requires OneCopy(c, n, size) && n <= size && AllRaw(mem, 0, size)
    ensures Fits(env, vec, c) && Backed(env, vec, c) && Span(env, c) <= |mem| && Shaped(vec, Trace(env, c, 0, Nil), mem)
    ensures var r := Load(vec, Trace(env, c, 0, Nil), mem, buffer);
            (r.Loaded? <==> n <= |buffer|) && (r.Loaded? ==> |r.left| == |buffer| - n && Received(n, buffer, mem, r.value))
  {
    OneCopyVisits(env, c, n, size, 0);
    OneCopyRuns(env, vec, c, n, size);
    RawIsShaped(vec, 0, n, mem);
    BytesReceived(vec, 0, n, mem, buffer);
  }

  lemma BytesReceived(vec: Vectors, off: nat, n: nat, mem: seq<Cell>, buffer: seq<octet>)
    requires off == 0 && n <= |mem|
    ensures var r := Load(vec, Bytes(off, n, Nil), mem, buffer);
            (r.Loaded? <==> n <= |buffer|) && (r.Loaded? ==> |r.left| == |buffer| - n && Received(n, buffer, mem, r.value))
  {
    LoadBytes(vec, off, n, Nil, mem, buffer);
    if n <= |buffer| {
      var after := Overwritten(mem, off, buffer[..n]);
      assert Load(vec, Nil, after, buffer[n..]) == Loaded(after, buffer[n..]);
    }
  }

  /**
   `Typelib::load` of a value without containers. It takes exactly the buffers that hold the value up to the padding at its very end, and those
   that are longer by the padding behind the last field; the memory then holds the buffer.
   */
  method LoadImage(env: Sizes, vec: Vectors, t: Type, zone: Zone, buffer: seq<octet>) returns (ok: bool)
    requires Ordered(t) && Boxless(Parts(t)) && AllRaw(zone.cells, 0, Size(t))
    modifies zone
    ensures Slack(t, 0) <= Size(t)
    ensures ok <==> AllPermitted(Leaves(t, false), false, false) && B.Safe(t, true) && Takes(buffer, Size(t) - Slack(t, 0), TrailingPadding(t))
    ensures ok ==> Received(Size(t) - Slack(t, 0), buffer, old(zone.cells), zone.cells)
  {
    var w;
    ghost var c, n;
    w, ok, c, n := CopyLayout(env, t);
    if ok {
      ok := LoadCopy(env, vec, zone, buffer, w, TrailingPadding(t), c, n, Size(t));
    }
  }

  /** The words of the layout, a single copy. */
  method CopyLayout(ghost env: Sizes, t: Type) returns (w: seq<nat>, ok: bool, ghost c: Code, ghost n: nat)
    requires Ordered(t) && Boxless(Parts(t))
    ensures ok <==> AllPermitted(Leaves(t, false), false, false) && B.Safe(t, true)
    ensures Slack(t, 0) <= Size(t) && n == Size(t) - Slack(t, 0) && OneCopy(c, n, Size(t)) && (ok ==> w == Words(c))
  {
    BoxlessLayout(env, t);
    var layout;
    layout, ok := B.LayoutOf(t, false, false, true, true);
    w, c, n := layout.ops, LayoutOf(t, true, true), Size(t) - Slack(t, 0);
  }

  /** The same through the words of a single copy. */
  method LoadCopy(env: Sizes, vec: Vectors, zone: Zone, buffer: seq<octet>, w: seq<nat>, padding: nat, ghost c: Code, ghost n: nat, ghost size: nat) returns (ok: bool)
    requires w == Words(c) && OneCopy(c, n, size) && n <= size && AllRaw(zone.cells, 0, size)
    modifies zone
    ensures ok <==> Takes(buffer, n, padding)
    ensures ok ==> Received(n, buffer, old(zone.cells), zone.cells)
  {
    ReadsWords(w, 0, c);
    LoadCopies(env, vec, c, n, size, zone.cells, buffer);
    ok := LoadBuffer(env, vec, zone, buffer, w, padding, c);
  }

  /** The memory of the value itself is taken exactly when there is no padding at its very end, or all of it is behind the last field. */
  method LoadWhole(env: Sizes, vec: Vectors, t: Type, zone: Zone, buffer: seq<octet>) returns (ok: bool)
    requires Ordered(t) && Boxless(Parts(t)) && AllRaw(zone.cells, 0, Size(t)) && |buffer| == Size(t)
    requires AllPermitted(Leaves(t, false), false, false) && B.Safe(t, true)
    modifies zone
    ensures ok <==> Slack(t, 0) == 0 || Slack(t, 0) == TrailingPadding(t)
    ensures ok ==> Slack(t, 0) <= Size(t) && Received(Size(t) - Slack(t, 0), buffer, old(zone.cells), zone.cells)
  {
    ok := LoadImage(env, vec, t, zone, buffer);
  }

  /** A structure around a structure of five bytes and three of padding: its memory cannot be loaded. */
  function Wrapped(): Type {
    CompoundType(FieldAt("in", 0, CompoundType(FieldAt("x", 0, NumericType(4), FieldAt("y", 4, NumericType(1), NoMore)), 8), NoMore), 8)
  }

  method WholeIsRefused(env: Sizes, vec: Vectors, zone: Zone, buffer: seq<octet>) returns (ok: bool)
    requires |buffer| == 8 && AllRaw(zone.cells, 0, 8)
    modifies zone
    ensures Size(Wrapped()) == 8 && !ok
  {
    var t := Wrapped();
    WrappedFacts();
    ok := LoadImage(env, vec, t, zone, buffer);
  }

  lemma WrappedFacts()
    ensures var t := Wrapped(); Ordered(t) && Boxless(Parts(t)) && Size(t) == 8 && Slack(t, 0) == 3 && TrailingPadding(t) == 0
  {
    var x, y := NumericType(4), NumericType(1);
    var last := FieldAt("y", 4, y, NoMore);
    var inner := CompoundType(FieldAt("x", 0, x, last), 8);
    assert PartsOfFields(last) == [y] + [];
    assert PartsOfFields(inner.fields) == [x] + PartsOfFields(last);
    assert SlackFields(last, 4, 8, 0) == 3;
    assert SlackFields(inner.fields, 0, 8, 0) == 3;
  }
}
