/**
 `Typelib::copy` on values with containers: `ValueOps::copy` over the merged layout of a type, and
 `Vector::copy` for each container, which resizes the destination and copies the elements, in bulk
 or through the layout of their own type.
 */
module Duplication {
  import opened Bytecode
  import opened Tracing
  import opened Simplification
  import opened Types
  import opened Memory
  import opened Values
  import opened Marshalling
  import opened Comparison
  import opened Sameness
  import opened Unmarshal
  import opened Compiler
  import B = Builder

  // ----- what a copy leaves in the destination -----

  /** Memory `mem` after copying the locations of a trace from `src`; `n` bounds the nesting of containers. */
  function Duplicated(n: nat, env: Sizes, vec: Vectors, kinds: Kinds, t: Atoms, mem: seq<Cell>, src: seq<Cell>): (r: seq<Cell>)
    ensures |r| == |mem|
    decreases n, 2, t
  {
    if t.Nil? then mem
    else Duplicated(n, env, vec, kinds, t.rest, DuplicatedAt(n, env, vec, kinds, t, mem, src), src)
  }

  /** After the first location. */
  function DuplicatedAt(n: nat, env: Sizes, vec: Vectors, kinds: Kinds, t: Atoms, mem: seq<Cell>, src: seq<Cell>): (r: seq<Cell>)
    requires !t.Nil?
    ensures |r| == |mem|
    decreases n, 1
  {
    if t.at >= |mem| || t.at >= |src| then mem
    else if t.Byte? then mem[t.at := src[t.at]]
    else mem[t.at := DuplicatedObject(n, env, vec, kinds, t.handle, mem[t.at], src[t.at])]
  }

  /** `Vector::copy`. */
  function DuplicatedObject(n: nat, env: Sizes, vec: Vectors, kinds: Kinds, h: nat, d: Cell, s: Cell): Cell
    decreases n, 0
  {
    if n > 0 && d.Head? && s.Head? && h in vec && h in kinds && Ordered(kinds[h]) then
      var into := Resized(vec[h], d.elems, |s.elems|);
      Head(seq(|s.elems|, i requires 0 <= i < |s.elems| => DuplicatedElement(n - 1, env, vec, kinds, h, into[i], s.elems[i])))
    else d
  }

  /** All the bytes of an element that is plain bytes; else what the layout of its type names. */
  function DuplicatedElement(n: nat, env: Sizes, vec: Vectors, kinds: Kinds, h: nat, d: seq<Cell>, s: seq<Cell>): seq<Cell>
    requires h in vec && h in kinds && Ordered(kinds[h])
    decreases n, 3
  {
    if IsMemcpy(vec[h].layout) then s else Duplicated(n, env, vec, kinds, Marshalled(env, kinds[h], true), d, s)
  }

  // ----- the locations of values -----

  /** The elements are values of the type. */
  ghost predicate Elements(t: Type, elems: seq<seq<Cell>>) {
    forall i :: 0 <= i < |elems| ==> |elems[i]| == Size(t) && IsValue(false, t, 0, elems[i])
  }

  /** What the model of a container handle must be. */
  ghost predicate Listed(n: nat, env: Sizes, vec: Vectors, kinds: Kinds, h: nat) {
    && n > 0 && h > END && h in env && h in vec && h in kinds
    && var e := kinds[h];
       && Ordered(e) && Dimensioned(e) && Size(e) > 0 && Depth(e) < n && Coherent(env, vec, kinds, e) && Modelled(env, vec, e)
       && vec[h] == Vector(Size(e), Words(LayoutOf(e, true, true)), Blank(env, e))
  }

  /** A handle that a layout can have in it: the elements of its vectors have a layout themselves. */
  ghost predicate Catalogued(n: nat, env: Sizes, vec: Vectors, kinds: Kinds, h: nat) {
    Listed(n, env, vec, kinds, h) && Accepts(kinds[h], false, false) && B.Safe(kinds[h], true)
  }

  /** On the trace, both memories have bytes where bytes are visited, and containers of values of the right type where containers are. */
  ghost predicate Tidy(n: nat, env: Sizes, vec: Vectors, kinds: Kinds, t: Atoms, d: seq<Cell>, s: seq<Cell>) {
    !t.Nil? ==>
      && t.at < |d| && t.at < |s| && Tidy(n, env, vec, kinds, t.rest, d, s)
      && (t.Box? ==> && Listed(n, env, vec, kinds, t.handle) && t.elem == Visits(kinds[t.handle], 0, Nil)
                     && d[t.at].Head? && Elements(kinds[t.handle], d[t.at].elems)
                     && s[t.at].Head? && Elements(kinds[t.handle], s[t.at].elems))
  }

  lemma {:induction false} BytesTidy(n: nat, env: Sizes, vec: Vectors, kinds: Kinds, off: nat, k: nat, tail: Atoms, d: seq<Cell>, s: seq<Cell>)
    requires AllRaw(d, off, k) && AllRaw(s, off, k) && Tidy(n, env, vec, kinds, tail, d, s)
    ensures Tidy(n, env, vec, kinds, Bytes(off, k, tail), d, s)
    decreases k
  {
    if k > 0 {
      BytesTidy(n, env, vec, kinds, off + 1, k - 1, tail, d, s);
    }
  }

  lemma {:induction false} ValueTidy(n: nat, env: Sizes, vec: Vectors, kinds: Kinds, t: Type, off: nat, tail: Atoms, d: seq<Cell>, s: seq<Cell>)
    requires Ordered(t) && Coherent(env, vec, kinds, t) && Modelled(env, vec, t) && Depth(t) <= n
    requires IsValue(false, t, off, d) && IsValue(false, t, off, s) && Tidy(n, env, vec, kinds, tail, d, s)
    ensures Tidy(n, env, vec, kinds, Visits(t, off, tail), d, s)
    decreases t, 0
  {
    match t
    case ArrayType(dimension, elem) => ValuesTidy(n, env, vec, kinds, elem, dimension, off, tail, d, s);
    case CompoundType(fields, size) => FieldsTidy(n, env, vec, kinds, fields, 0, size, off, tail, d, s);
    case ContainerType(_, _, _) =>
    case OpaqueType(_) =>
    case _ => BytesTidy(n, env, vec, kinds, off, Size(t), tail, d, s);
  }

  lemma {:induction false} ValuesTidy(n: nat, env: Sizes, vec: Vectors, kinds: Kinds, elem: Type, k: nat, off: nat, tail: Atoms, d: seq<Cell>, s: seq<Cell>)
    requires Ordered(elem) && Coherent(env, vec, kinds, elem) && Modelled(env, vec, elem) && Depth(elem) <= n
    requires AreValues(false, elem, k, off, d) && AreValues(false, elem, k, off, s) && Tidy(n, env, vec, kinds, tail, d, s)
    ensures Tidy(n, env, vec, kinds, VisitsEach(elem, k, off, tail), d, s)
    decreases elem, k + 1
  {
    if k > 0 {
      ValuesTidy(n, env, vec, kinds, elem, k - 1, off + Size(elem), tail, d, s);
      ValueTidy(n, env, vec, kinds, elem, off, VisitsEach(elem, k - 1, off + Size(elem), tail), d, s);
    }
  }

  lemma {:induction false} FieldsTidy(n: nat, env: Sizes, vec: Vectors, kinds: Kinds, fs: Fields, at: nat, size: nat, base: nat, tail: Atoms, d: seq<Cell>, s: seq<Cell>)
    requires OrderedFields(fs, at, size) && CoherentFields(env, vec, kinds, fs) && ModelledFields(env, vec, fs) && DepthFields(fs) <= n
    requires HoldsFields(false, fs, at, size, base, d) && HoldsFields(false, fs, at, size, base, s) && Tidy(n, env, vec, kinds, tail, d, s)
    ensures Tidy(n, env, vec, kinds, VisitsFields(fs, base, tail), d, s)
    decreases fs, 0
  {
    if fs.FieldAt? {
      FieldsTidy(n, env, vec, kinds, fs.rest, fs.offset + Size(fs.typ), size, base, tail, d, s);
      ValueTidy(n, env, vec, kinds, fs.typ, base + fs.offset, VisitsFields(fs.rest, base, tail), d, s);
    }
  }

  // ----- the copy agrees with the source -----

  lemma {:induction false} TidyBelow(n: nat, env: Sizes, vec: Vectors, kinds: Kinds, t: Atoms, lo: nat, hi: nat, d: seq<Cell>, s: seq<Cell>, at: nat, c: Cell)
    requires Tidy(n, env, vec, kinds, t, d, s) && Within(t, lo, hi) && at < lo && at < |d|
    ensures Tidy(n, env, vec, kinds, t, d[at := c], s)
  {
    if !t.Nil? {
      TidyBelow(n, env, vec, kinds, t.rest, t.at + 1, hi, d, s, at, c);
    }
  }

  lemma {:induction false} DuplicatedAround(n: nat, env: Sizes, vec: Vectors, kinds: Kinds, t: Atoms, lo: nat, hi: nat, mem: seq<Cell>, src: seq<Cell>)
    requires Within(t, lo, hi)
    ensures forall i :: 0 <= i < |mem| && (i < lo || hi <= i) ==> Duplicated(n, env, vec, kinds, t, mem, src)[i] == mem[i]
    decreases t
  {
    if !t.Nil? {
      DuplicatedAround(n, env, vec, kinds, t.rest, t.at + 1, hi, DuplicatedAt(n, env, vec, kinds, t, mem, src), src);
    }
  }

  lemma {:induction false} SameSelf(n: nat, env: Sizes, vec: Vectors, kinds: Kinds, t: Atoms, mem: seq<Cell>)
    requires Tidy(n, env, vec, kinds, t, mem, mem)
    ensures Same(t, mem, mem)
    decreases n, t
  {
    if !t.Nil? {
      SameSelf(n, env, vec, kinds, t.rest, mem);
      if t.Box? {
        var e, elems := kinds[t.handle], mem[t.at].elems;
        forall i | 0 <= i < |elems| ensures Same(t.elem, elems[i], elems[i]) {
          ValueTidy(n - 1, env, vec, kinds, e, 0, Nil, elems[i], elems[i]);
          SameSelf(n - 1, env, vec, kinds, t.elem, elems[i]);
        }
      }
    }
  }

  /** The layout covers the leaves of the type, and ends before the padding at its end. */
  lemma LayoutReach(env: Sizes, vec: Vectors, t: Type, remove: bool) returns (hi: nat)
    requires Ordered(t) && Modelled(env, vec, t)
    ensures Trail(Types.Raw(t), 0) <= Size(t) && hi == Size(t) - Trail(Types.Raw(t), 0)
    ensures Covers(Marshalled(env, t, remove), Visits(t, 0, Nil)) && Within(Marshalled(env, t, remove), 0, hi) && Within(Visits(t, 0, Nil), 0, hi)
  {
    ModelledIsDescribed(env, vec, t);
    var layoutVisits, typeVisits := MergedLayoutCovers(env, t, remove);
    hi := Size(t) - Trail(Types.Raw(t), 0);
    CoversWithin(Marshalled(env, t, remove), Visits(t, 0, Nil), 0, hi);
  }

  /** Copying a value makes it compare equal to the source, whatever the destination held. */
  lemma {:induction false} CopyCompares(n: nat, env: Sizes, vec: Vectors, kinds: Kinds, t: Type, remove: bool, d: seq<Cell>, s: seq<Cell>)
    requires Ordered(t) && Coherent(env, vec, kinds, t) && Modelled(env, vec, t) && Depth(t) <= n
    requires |d| == |s| == Size(t) && IsValue(false, t, 0, d) && IsValue(false, t, 0, s)
    ensures Trail(Types.Raw(t), 0) <= Size(t)
    ensures var r := Duplicated(n, env, vec, kinds, Marshalled(env, t, remove), d, s);
            && Same(Visits(t, 0, Nil), r, s)
            && forall i :: Size(t) - Trail(Types.Raw(t), 0) <= i < |d| ==> r[i] == d[i]
    decreases n, 2
  {
    var hi := LayoutReach(env, vec, t, remove);
    var merged, raw := Marshalled(env, t, remove), Visits(t, 0, Nil);
    ValueTidy(n, env, vec, kinds, t, 0, Nil, d, s);
    DuplicatedAround(n, env, vec, kinds, merged, 0, hi, d, s);
    TraceCopies(n, env, vec, kinds, merged, raw, 0, hi, d, s);
  }

  lemma {:induction false} TraceCopies(n: nat, env: Sizes, vec: Vectors, kinds: Kinds, t: Atoms, raw: Atoms, lo: nat, hi: nat, d: seq<Cell>, s: seq<Cell>)
    requires Within(t, lo, hi) && Within(raw, lo, hi) && Covers(t, raw) && Tidy(n, env, vec, kinds, raw, d, s) && hi <= |d| && hi <= |s|
    ensures Same(raw, Duplicated(n, env, vec, kinds, t, d, s), s)
    decreases n, 1, t
  {
    if !t.Nil? {
      var m := DuplicatedAt(n, env, vec, kinds, t, d, s);
      var r := Duplicated(n, env, vec, kinds, t.rest, m, s);
      DuplicatedAround(n, env, vec, kinds, t.rest, t.at + 1, hi, m, s);
      assert r[t.at] == m[t.at];
      if t.Byte? && Covers(t.rest, raw) {
        CoversWithin(t.rest, raw, t.at + 1, hi);
        TidyBelow(n, env, vec, kinds, raw, t.at + 1, hi, d, s, t.at, m[t.at]);
        TraceCopies(n, env, vec, kinds, t.rest, raw, t.at + 1, hi, m, s);
      } else {
        TidyBelow(n, env, vec, kinds, raw.rest, t.at + 1, hi, d, s, t.at, m[t.at]);
        TraceCopies(n, env, vec, kinds, t.rest, raw.rest, t.at + 1, hi, m, s);
        if t.Box? {
          ObjectCopies(n, env, vec, kinds, t.handle, d[t.at], s[t.at]);
        }
      }
    }
  }

  lemma {:induction false} ObjectCopies(n: nat, env: Sizes, vec: Vectors, kinds: Kinds, h: nat, d: Cell, s: Cell)
    requires Listed(n, env, vec, kinds, h) && d.Head? && s.Head? && Elements(kinds[h], d.elems) && Elements(kinds[h], s.elems)
    ensures var r := DuplicatedObject(n, env, vec, kinds, h, d, s); r.Head? && SameEach(Visits(kinds[h], 0, Nil), r.elems, s.elems)
    decreases n, 0
  {
    var e, into := kinds[h], Resized(vec[h], d.elems, |s.elems|);
    var elem := Visits(e, 0, Nil);
    var r := DuplicatedObject(n, env, vec, kinds, h, d, s).elems;
    BlankIsEmpty(env, vec, e);
    EmptyIsValue(e, 0, vec[h].blank);
    forall i | 0 <= i < |s.elems| ensures Same(elem, r[i], s.elems[i]) {
      assert r[i] == DuplicatedElement(n - 1, env, vec, kinds, h, into[i], s.elems[i]);
      if IsMemcpy(vec[h].layout) {
        ValueTidy(n - 1, env, vec, kinds, e, 0, Nil, s.elems[i], s.elems[i]);
        SameSelf(n - 1, env, vec, kinds, elem, s.elems[i]);
      } else {
        CopyCompares(n - 1, env, vec, kinds, e, true, into[i], s.elems[i]);
      }
    }
  }

  // ----- single operations -----

  /** `memcpy` of `k` bytes from the same place of `src`. */
  function Moved(mem: seq<Cell>, src: seq<Cell>, off: nat, k: nat): (r: seq<Cell>)
    ensures |r| == |mem|
  {
    seq(|mem|, i requires 0 <= i < |mem| => if off <= i < off + k && i < |src| then src[i] else mem[i])
  }

  lemma MovedFirst(mem: seq<Cell>, src: seq<Cell>, off: nat, k: nat)
    requires k > 0
    ensures Moved(mem, src, off, k) == Moved(if off < |mem| && off < |src| then mem[off := src[off]] else mem, src, off + 1, k - 1)
  {
  }

  lemma {:induction false} DuplicatedBytes(n: nat, env: Sizes, vec: Vectors, kinds: Kinds, off: nat, k: nat, tail: Atoms, mem: seq<Cell>, src: seq<Cell>)
    ensures Duplicated(n, env, vec, kinds, Bytes(off, k, tail), mem, src) == Duplicated(n, env, vec, kinds, tail, Moved(mem, src, off, k), src)
    decreases k
  {
    if k == 0 {
      assert Moved(mem, src, off, k) == mem;
    } else {
      MovedFirst(mem, src, off, k);
      DuplicatedBytes(n, env, vec, kinds, off + 1, k - 1, tail, if off < |mem| && off < |src| then mem[off := src[off]] else mem, src);
    }
  }

  lemma {:induction false} DuplicatedThen(n: nat, env: Sizes, vec: Vectors, kinds: Kinds, a: Atoms, b: Atoms, mem: seq<Cell>, src: seq<Cell>)
    ensures Duplicated(n, env, vec, kinds, Then(a, b), mem, src) == Duplicated(n, env, vec, kinds, b, Duplicated(n, env, vec, kinds, a, mem, src), src)
    decreases a
  {
    if !a.Nil? {
      assert DuplicatedAt(n, env, vec, kinds, Then(a, b), mem, src) == DuplicatedAt(n, env, vec, kinds, a, mem, src);
      DuplicatedThen(n, env, vec, kinds, a.rest, b, DuplicatedAt(n, env, vec, kinds, a, mem, src), src);
    }
  }

  /** The first of several blocks, then the others. */
  lemma DuplicatedRepeated(n: nat, env: Sizes, vec: Vectors, kinds: Kinds, b: Code, k: nat, off: nat, tail: Atoms, mem: seq<Cell>, src: seq<Cell>)
    requires k > 0
    ensures Duplicated(n, env, vec, kinds, Repeated(env, b, k, off, tail), mem, src)
            == Duplicated(n, env, vec, kinds, Repeated(env, b, k - 1, off + Span(env, b), tail),
                          Duplicated(n, env, vec, kinds, Trace(env, b, off, Nil), mem, src), src)
  {
    var more := Repeated(env, b, k - 1, off + Span(env, b), tail);
    TraceThen(env, b, off, Nil, more);
    DuplicatedThen(n, env, vec, kinds, Trace(env, b, off, Nil), more, mem, src);
  }

  // ----- the interpreter -----

  /** Every container of the program is one of `kinds`, nested less than `n` deep. */
  ghost predicate AllCatalogued(n: nat, env: Sizes, vec: Vectors, kinds: Kinds, c: Code) {
    match c
    case Done => true
    case Memcpy(_, next) => AllCatalogued(n, env, vec, kinds, next)
    case Skip(_, next) => AllCatalogued(n, env, vec, kinds, next)
    case Array(_, b, next) => AllCatalogued(n, env, vec, kinds, b) && AllCatalogued(n, env, vec, kinds, next)
    case Container(h, _, next) => Catalogued(n, env, vec, kinds, h) && AllCatalogued(n, env, vec, kinds, next)
  }

  method CopyFrom(ghost n: nat, env: Sizes, vec: Vectors, kinds: Kinds, zone: Zone, src: seq<Cell>, off0: nat, w: seq<nat>, begin: nat, ghost c: Code)
    returns (off: nat, it: nat, ok: bool)
    requires Reads(w, begin, c) && AllCatalogued(n, env, vec, kinds, c)
    modifies zone
    ensures ok <==> Completes(c)
    ensures ok ==> zone.cells == Duplicated(n, env, vec, kinds, Trace(env, c, off0, Nil), old(zone.cells), src)
    ensures ok ==> off == off0 + Span(env, c) && it == begin + Len(c)
    decreases n, 0, |w| - begin, 2
  {
    ghost var goal := Duplicated(n, env, vec, kinds, Trace(env, c, off0, Nil), zone.cells, src);
    ghost var rest := c;
    off, it, ok := off0, begin, true;
    ReadsStops(w, begin, c);
    while it != |w| && w[it] != END
      invariant begin <= it <= |w| && it + Len(rest) == begin + Len(c) && off + Span(env, rest) == off0 + Span(env, c)
      invariant Reads(w, it, rest) && AllCatalogued(n, env, vec, kinds, rest) && Completes(c) == Completes(rest)
      invariant Duplicated(n, env, vec, kinds, Trace(env, rest, off, Nil), zone.cells, src) == goal
      decreases |w| - it
    {
      ReadsNext(w, it, rest);
      off, it, ok := CopyNext(n, env, vec, kinds, zone, src, off, w, it, rest, goal);
      if !ok {
        return;
      }
      rest := rest.next;
    }
  }

  /** One turn of the loop, on the operation at `start`. */
  method CopyNext(ghost n: nat, env: Sizes, vec: Vectors, kinds: Kinds, zone: Zone, src: seq<Cell>, off0: nat, w: seq<nat>, start: nat,
                  ghost c: Code, ghost goal: seq<Cell>)
    returns (off: nat, it: nat, ok: bool)
    requires !c.Done? && Reads(w, start, c) && AllCatalogued(n, env, vec, kinds, c)
    requires Duplicated(n, env, vec, kinds, Trace(env, c, off0, Nil), zone.cells, src) == goal
    modifies zone
    ensures ok <==> HeadCompletes(c)
    ensures ok ==> off == off0 + HeadSpan(env, c) && it == start + HeadLen(c)
    ensures ok ==> Duplicated(n, env, vec, kinds, Trace(env, c.next, off, Nil), zone.cells, src) == goal
    decreases n, 0, |w| - start, 1
  {
    off, it, ok := off0, start + 1, true;
    ghost var next := off0 + HeadSpan(env, c);
    ghost var tail := Trace(env, c.next, next, Nil);
    if w[start] == MEMCPY {
      var size := w[it];
      DuplicatedBytes(n, env, vec, kinds, off, size, tail, zone.cells, src);
      zone.cells := Moved(zone.cells, src, off, size);
      off := off + size;
    } else if w[start] == SKIP {
      off := off + w[it];
    } else if w[start] == ARRAY {
      off, it, ok := CopyArray(n, env, vec, kinds, zone, src, off, w, start, c, next, tail, goal);
    } else {
      var h := w[it];
      ReadsHandle(w, start, c);
      if off < |zone.cells| && off < |src| {
        var r := CopyObject(n, env, vec, kinds, h, zone.cells[off], src[off]);
        zone.cells := zone.cells[off := r];
      }
      it := SkipBlock(w, it, c.body);
      off := off + env[h];
    }
    it := it + 1;
  }

  method CopyArray(ghost n: nat, env: Sizes, vec: Vectors, kinds: Kinds, zone: Zone, src: seq<Cell>, off0: nat, w: seq<nat>, start: nat,
                   ghost c: Code, ghost end: nat, ghost tail: Atoms, ghost goal: seq<Cell>)
    returns (off: nat, it: nat, ok: bool)
    requires c.Array? && Reads(w, start, c) && AllCatalogued(n, env, vec, kinds, c.body) && end == off0 + Times(c.count, Span(env, c.body))
    requires Duplicated(n, env, vec, kinds, Repeated(env, c.body, c.count, off0, tail), zone.cells, src) == goal
    modifies zone
    ensures ok <==> HeadCompletes(c)
    ensures ok ==> off == end && it == start + 2 + Len(c.body) && Duplicated(n, env, vec, kinds, tail, zone.cells, src) == goal
    decreases n, 0, |w| - start, 0
  {
    var count, element := w[start + 1], start + 2;
    ReadsStops(w, element, c.body);
    if count == 0 {
      if !c.body.Done? {
        ReadsNext(w, element, c.body);
      }
      off, it, ok := off0, element, w[element] == END;
    } else {
      off, it, ok := CopyRepeated(n, env, vec, kinds, zone, src, off0, w, element, count, c.body, end, tail, goal);
    }
  }

  method CopyRepeated(ghost n: nat, env: Sizes, vec: Vectors, kinds: Kinds, zone: Zone, src: seq<Cell>, off0: nat, w: seq<nat>, element: nat,
                      count: nat, ghost b: Code, ghost end: nat, ghost tail: Atoms, ghost goal: seq<Cell>)
    returns (off: nat, it: nat, ok: bool)
    requires Reads(w, element, b) && element + Len(b) < |w| && AllCatalogued(n, env, vec, kinds, b) && count > 0
    requires end == off0 + Times(count, Span(env, b))
    requires Duplicated(n, env, vec, kinds, Repeated(env, b, count, off0, tail), zone.cells, src) == goal
    modifies zone
    ensures ok <==> Completes(b)
    ensures ok ==> off == end && it == element + Len(b) && Duplicated(n, env, vec, kinds, tail, zone.cells, src) == goal
    decreases n, 0, |w| - element, 3
  {
    off, it, ok := off0, element, true;
    var i := 0;
    ghost var left, span := count, Span(env, b);
    ReadsStops(w, element, b);
    while i < count
      invariant 0 <= i <= count && left == count - i
      invariant i > 0 ==> it == element + Len(b) && Completes(b)
      invariant off + Times(left, span) == end
      invariant Duplicated(n, env, vec, kinds, Repeated(env, b, left, off, tail), zone.cells, src) == goal
    {
      TimesStep(left, span);
      DuplicatedRepeated(n, env, vec, kinds, b, left, off, tail, zone.cells, src);
      off, it, ok := CopyFrom(n, env, vec, kinds, zone, src, off, w, element, b);
      if !ok {
        return;
      }
      i, left := i + 1, left - 1;
    }
    ok := it != |w| && w[it] == END;
  }

  /** `Vector::copy`: the destination is resized, then the elements are copied, all at once or one by one. */
  method CopyObject(ghost n: nat, env: Sizes, vec: Vectors, kinds: Kinds, h: nat, d: Cell, s: Cell) returns (r: Cell)
    requires Catalogued(n, env, vec, kinds, h)
    ensures r == DuplicatedObject(n, env, vec, kinds, h, d, s)
    decreases n - 1, 3
  {
    if !d.Head? || !s.Head? {
      return d;
    }
    var into := Resized(vec[h], d.elems, |s.elems|);
    var elems := [];
    if IsMemcpy(vec[h].layout) {
      elems := s.elems;
    } else {
      LayoutCompletes(kinds[h], true, true);
      for i := 0 to |s.elems|
        invariant |elems| == i
        invariant forall j :: 0 <= j < i ==> elems[j] == DuplicatedElement(n - 1, env, vec, kinds, h, into[j], s.elems[j])
      {
        var element := new Zone(into[i]);
        var ok := CopyValue(n - 1, env, vec, kinds, kinds[h], element, s.elems[i]);
        elems := elems + [element.cells];
      }
    }
    r := Head(elems);
    assert r == DuplicatedObject(n, env, vec, kinds, h, d, s) by {
      assert elems == seq(|s.elems|, i requires 0 <= i < |s.elems| => DuplicatedElement(n - 1, env, vec, kinds, h, into[i], s.elems[i]));
    }
  }

  /** Over the words of the merged layout. */
  method CopyWords(ghost n: nat, env: Sizes, vec: Vectors, kinds: Kinds, ghost t: Type, w: seq<nat>, zone: Zone, src: seq<Cell>) returns (ok: bool)
    requires Ordered(t) && Coherent(env, vec, kinds, t) && Modelled(env, vec, t) && Depth(t) <= n && Accepts(t, false, false)
    requires w == Words(LayoutOf(t, true, true))
    modifies zone
    ensures ok <==> Completes(LayoutOf(t, true, true))
    ensures ok ==> zone.cells == Duplicated(n, env, vec, kinds, Marshalled(env, t, true), old(zone.cells), src)
    decreases n, 1
  {
    LayoutCopies(n, env, vec, kinds, t);
    var off, it;
    off, it, ok := CopyFrom(n, env, vec, kinds, zone, src, 0, w, 0, LayoutOf(t, true, true));
  }

  /** `Typelib::copy` of a value, through the merged layout of its type; fails exactly where there is none, and at an empty array. */
  method CopyValue(ghost n: nat, env: Sizes, vec: Vectors, kinds: Kinds, t: Type, zone: Zone, src: seq<Cell>) returns (ok: bool)
    requires Ordered(t) && Coherent(env, vec, kinds, t) && Modelled(env, vec, t) && Depth(t) <= n
    modifies zone
    ensures ok <==> Accepts(t, false, false) && B.Safe(t, true) && Completes(LayoutOf(t, true, true))
    ensures ok ==> zone.cells == Duplicated(n, env, vec, kinds, Marshalled(env, t, true), old(zone.cells), src)
    ensures ok && |old(zone.cells)| == |src| == Size(t) && IsValue(false, t, 0, old(zone.cells)) && IsValue(false, t, 0, src) ==>
              Same(Visits(t, 0, Nil), zone.cells, src) && SameValue(t, 0, zone.cells, src)
    decreases n, 2
  {
    var layout;
    layout, ok := B.LayoutOf(t, false, false, true, true);
    if ok {
      if |zone.cells| == |src| == Size(t) && IsValue(false, t, 0, zone.cells) && IsValue(false, t, 0, src) {
        CopyCompares(n, env, vec, kinds, t, true, zone.cells, src);
      }
      ok := CopyWords(n, env, vec, kinds, t, layout.ops, zone, src);
      SameExactly(t, 0, Nil, zone.cells, src);
    }
  }

  // ----- the layouts of types run -----

  lemma {:induction false} CataloguedAppend(n: nat, env: Sizes, vec: Vectors, kinds: Kinds, a: Code, b: Code)
    requires AllCatalogued(n, env, vec, kinds, a) && AllCatalogued(n, env, vec, kinds, b)
    ensures AllCatalogued(n, env, vec, kinds, Append(a, b))
  {
    if !a.Done? {
      CataloguedAppend(n, env, vec, kinds, a.next, b);
    }
  }

  lemma {:induction false} RawIsCatalogued(n: nat, env: Sizes, vec: Vectors, kinds: Kinds, t: Type)
    requires Ordered(t) && Coherent(env, vec, kinds, t) && Modelled(env, vec, t) && Depth(t) <= n && Accepts(t, false, false)
    ensures AllCatalogued(n, env, vec, kinds, Types.Raw(t))
    decreases t
  {
    match t
    case ArrayType(_, elem) => RawIsCatalogued(n, env, vec, kinds, elem);
    case CompoundType(fields, size) => RawFieldsAreCatalogued(n, env, vec, kinds, fields, 0, size);
    case _ =>
  }

  lemma {:induction false} RawFieldsAreCatalogued(n: nat, env: Sizes, vec: Vectors, kinds: Kinds, fs: Fields, at: nat, size: nat)
    requires OrderedFields(fs, at, size) && CoherentFields(env, vec, kinds, fs) && ModelledFields(env, vec, fs) && DepthFields(fs) <= n && AcceptsFields(fs, false, false)
    ensures AllCatalogued(n, env, vec, kinds, RawFields(fs, at, size))
    decreases fs
  {
    if fs.FieldAt? {
      var end := fs.offset + Size(fs.typ);
      RawIsCatalogued(n, env, vec, kinds, fs.typ);
      RawFieldsAreCatalogued(n, env, vec, kinds, fs.rest, end, size);
      CataloguedAppend(n, env, vec, kinds, Types.Raw(fs.typ), RawFields(fs.rest, end, size));
    }
  }

  lemma {:induction false} SimplifiedIsCatalogued(n: nat, env: Sizes, vec: Vectors, kinds: Kinds, merge: bool, edge: Edge, c: Code, p: Pending)
    requires AllCatalogued(n, env, vec, kinds, c) && Valid(merge, p)
    ensures AllCatalogued(n, env, vec, kinds, Simplified(merge, edge, c, p))
    decreases c
  {
    if !c.Done? {
      if c.Array? {
        SimplifiedIsCatalogued(n, env, vec, kinds, merge, Block, c.body, Nothing);
      }
      var t := After(merge, c, p);
      assert AllCatalogued(n, env, vec, kinds, t.keep);
      SimplifiedIsCatalogued(n, env, vec, kinds, merge, edge, c.next, t.pending);
      CataloguedAppend(n, env, vec, kinds, Written(p, t), Simplified(merge, edge, c.next, t.pending));
    }
  }

  lemma LayoutCopies(n: nat, env: Sizes, vec: Vectors, kinds: Kinds, t: Type)
    requires Ordered(t) && Coherent(env, vec, kinds, t) && Modelled(env, vec, t) && Depth(t) <= n && Accepts(t, false, false)
    ensures var c := LayoutOf(t, true, true); Reads(Words(c), 0, c) && AllCatalogued(n, env, vec, kinds, c)
  {
    var c := LayoutOf(t, true, true);
    RawIsCatalogued(n, env, vec, kinds, t);
    SimplifiedIsCatalogued(n, env, vec, kinds, true, Top(true), Types.Raw(t), Nothing);
    ReadsWords(Words(c), 0, c);
  }
}
