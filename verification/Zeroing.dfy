/**
 `ValueOps::zero`: unlike the other interpreters it also acts on padding, which it clears along with the data,
 and it empties containers.
 */
module Zeroing {
  import opened Bytecode
  import opened Tracing
  import opened Simplification
  import opened Types
  import opened Places
  import opened Compiler
  import opened Memory
  import opened Values
  import opened Marshalling
  import opened Comparison
  import opened Unmarshal
  import opened Leftovers
  import B = Builder

  // ----- what zeroing leaves in memory -----

  /** Memory after clearing the locations of a trace: bytes are 0, containers empty. */
  function Wiped(t: Atoms, mem: seq<Cell>): (r: seq<Cell>)
    ensures |r| == |mem|
    decreases t
  {
    if t.Nil? then mem else Wiped(t.rest, WipedAt(t, mem))
  }

  /** After the first location; `Vector::clear` finds a vector there. */
  function WipedAt(t: Atoms, mem: seq<Cell>): (r: seq<Cell>)
    requires !t.Nil?
    ensures |r| == |mem|
  {
    if t.at >= |mem| then mem
    else if t.Byte? then mem[t.at := Cell.Raw(0)]
    else if mem[t.at].Head? then mem[t.at := Head([])]
    else mem
  }

  /** All that a program names, padding included: bytes and containers, whose elements do not matter; then `tail`. */
  function Reached(env: Sizes, c: Code, off: nat, tail: Atoms): Atoms
    decreases c, 0
  {
    match c
    case Done => tail
    case Memcpy(n, next) => Bytes(off, n, Reached(env, next, off + n, tail))
    case Skip(n, next) => Bytes(off, n, Reached(env, next, off + n, tail))
    case Array(k, b, next) => ReachedEach(env, b, k, off, Reached(env, next, off + Times(k, Span(env, b)), tail))
    case Container(h, _, next) => Box(off, h, Nil, Reached(env, next, off + SizeOf(env, h), tail))
  }

  function ReachedEach(env: Sizes, b: Code, k: nat, off: nat, tail: Atoms): Atoms
    decreases b, k + 1
  {
    if k == 0 then tail else Reached(env, b, off, ReachedEach(env, b, k - 1, off + Span(env, b), tail))
  }

  lemma {:induction false} ReachedThen(env: Sizes, c: Code, off: nat, s: Atoms, t: Atoms)
    ensures Reached(env, c, off, Then(s, t)) == Then(Reached(env, c, off, s), t)
    decreases c, 0
  {
    match c
    case Done =>
    case Memcpy(n, next) =>
      ReachedThen(env, next, off + n, s, t);
      BytesThen(off, n, Reached(env, next, off + n, s), t);
    case Skip(n, next) =>
      ReachedThen(env, next, off + n, s, t);
      BytesThen(off, n, Reached(env, next, off + n, s), t);
    case Array(k, b, next) =>
      var mid := off + Times(k, Span(env, b));
      ReachedThen(env, next, mid, s, t);
      ReachedEachThen(env, b, k, off, Reached(env, next, mid, s), t);
    case Container(h, _, next) =>
      ReachedThen(env, next, off + SizeOf(env, h), s, t);
  }

  lemma {:induction false} ReachedEachThen(env: Sizes, b: Code, k: nat, off: nat, s: Atoms, t: Atoms)
    ensures ReachedEach(env, b, k, off, Then(s, t)) == Then(ReachedEach(env, b, k, off, s), t)
    decreases b, k + 1
  {
    if k > 0 {
      ReachedEachThen(env, b, k - 1, off + Span(env, b), s, t);
      ReachedThen(env, b, off, ReachedEach(env, b, k - 1, off + Span(env, b), s), t);
    }
  }

  /** `memset` of `n` bytes. */
  function Cleared(mem: seq<Cell>, off: nat, n: nat): (r: seq<Cell>)
    ensures |r| == |mem|
  {
    seq(|mem|, i requires 0 <= i < |mem| => if off <= i < off + n then Cell.Raw(0) else mem[i])
  }

  lemma {:induction false} WipedBytes(off: nat, n: nat, tail: Atoms, mem: seq<Cell>)
    ensures Wiped(Bytes(off, n, tail), mem) == Wiped(tail, Cleared(mem, off, n))
    decreases n
  {
    if n == 0 {
      assert Cleared(mem, off, n) == mem;
    } else {
      var m := if off < |mem| then mem[off := Cell.Raw(0)] else mem;
      WipedBytes(off + 1, n - 1, tail, m);
      assert Cleared(m, off + 1, n - 1) == Cleared(mem, off, n);
    }
  }

  lemma {:induction false} WipedThen(a: Atoms, b: Atoms, mem: seq<Cell>)
    ensures Wiped(Then(a, b), mem) == Wiped(b, Wiped(a, mem))
    decreases a
  {
    if !a.Nil? {
      assert WipedAt(Then(a, b), mem) == WipedAt(a, mem);
      WipedThen(a.rest, b, WipedAt(a, mem));
    }
  }

  /** The first of several blocks, then the others. */
  lemma WipedEach(env: Sizes, b: Code, k: nat, off: nat, tail: Atoms, mem: seq<Cell>)
    requires k > 0
    ensures Wiped(ReachedEach(env, b, k, off, tail), mem)
            == Wiped(ReachedEach(env, b, k - 1, off + Span(env, b), tail), Wiped(Reached(env, b, off, Nil), mem))
  {
    var more := ReachedEach(env, b, k - 1, off + Span(env, b), tail);
    ReachedThen(env, b, off, Nil, more);
    WipedThen(Reached(env, b, off, Nil), more, mem);
  }

  // ----- the interpreter -----

  method ZeroFrom(env: Sizes, zone: Zone, off0: nat, w: seq<nat>, begin: nat, ghost c: Code) returns (off: nat, it: nat, ok: bool)
    requires Reads(w, begin, c)
    modifies zone
    ensures ok <==> Completes(c)
    ensures ok ==> zone.cells == Wiped(Reached(env, c, off0, Nil), old(zone.cells))
    ensures ok ==> off == off0 + Span(env, c) && it == begin + Len(c)
    decreases |w| - begin, 2
  {
    ghost var goal := Wiped(Reached(env, c, off0, Nil), zone.cells);
    ghost var rest := c;
    off, it, ok := off0, begin, true;
    ReadsStops(w, begin, c);
    while it != |w| && w[it] != END
      invariant begin <= it <= |w| && it + Len(rest) == begin + Len(c) && off + Span(env, rest) == off0 + Span(env, c)
      invariant Reads(w, it, rest) && Completes(c) == Completes(rest)
      invariant Wiped(Reached(env, rest, off, Nil), zone.cells) == goal
      decreases |w| - it
    {
      ReadsNext(w, it, rest);
      off, it, ok := ZeroNext(env, zone, off, w, it, rest, goal);
      if !ok {
        return;
      }
      rest := rest.next;
    }
  }

  /** One turn of the loop, on the operation at `start`. */
  method ZeroNext(env: Sizes, zone: Zone, off0: nat, w: seq<nat>, start: nat, ghost c: Code, ghost goal: seq<Cell>)
    returns (off: nat, it: nat, ok: bool)
    requires !c.Done? && Reads(w, start, c) && Wiped(Reached(env, c, off0, Nil), zone.cells) == goal
    modifies zone
    ensures ok <==> HeadCompletes(c)
    ensures ok ==> off == off0 + HeadSpan(env, c) && it == start + HeadLen(c)
    ensures ok ==> Wiped(Reached(env, c.next, off, Nil), zone.cells) == goal
    decreases |w| - start, 1
  {
    off, it, ok := off0, start + 1, true;
    ghost var next := off0 + HeadSpan(env, c);
    ghost var tail := Reached(env, c.next, next, Nil);
    if w[start] == MEMCPY || w[start] == SKIP {
      var size := w[it];
      WipedBytes(off, size, tail, zone.cells);
      zone.cells := Cleared(zone.cells, off, size);
      off := off + size;
    } else if w[start] == ARRAY {
      off, it, ok := ZeroArray(env, zone, off, w, start, c, next, tail, goal);
    } else {
      var h := w[it];
      if off < |zone.cells| && zone.cells[off].Head? {
        zone.cells := zone.cells[off := Head([])];
      }
      it := SkipBlock(w, it + 1, c.body);
      off := off + SizeOf(env, h);
    }
    it := it + 1;
  }

  method ZeroArray(env: Sizes, zone: Zone, off0: nat, w: seq<nat>, start: nat, ghost c: Code, ghost end: nat, ghost tail: Atoms, ghost goal: seq<Cell>)
    returns (off: nat, it: nat, ok: bool)
    requires c.Array? && Reads(w, start, c) && end == off0 + Times(c.count, Span(env, c.body))
    requires Wiped(ReachedEach(env, c.body, c.count, off0, tail), zone.cells) == goal
    modifies zone
    ensures ok <==> HeadCompletes(c)
    ensures ok ==> off == end && it == start + 2 + Len(c.body) && Wiped(tail, zone.cells) == goal
    decreases |w| - start, 0
  {
    var count, element := w[start + 1], start + 2;
    ReadsStops(w, element, c.body);
    if count == 0 {
      if !c.body.Done? {
        ReadsNext(w, element, c.body);
      }
      off, it, ok := off0, element, w[element] == END;
    } else {
      off, it, ok := ZeroRepeated(env, zone, off0, w, element, count, c.body, end, tail, goal);
    }
  }

  method ZeroRepeated(env: Sizes, zone: Zone, off0: nat, w: seq<nat>, element: nat, count: nat, ghost b: Code,
                      ghost end: nat, ghost tail: Atoms, ghost goal: seq<Cell>)
    returns (off: nat, it: nat, ok: bool)
    requires Reads(w, element, b) && element + Len(b) < |w| && count > 0 && end == off0 + Times(count, Span(env, b))
    requires Wiped(ReachedEach(env, b, count, off0, tail), zone.cells) == goal
    modifies zone
    ensures ok <==> Completes(b)
    ensures ok ==> off == end && it == element + Len(b) && Wiped(tail, zone.cells) == goal
    decreases |w| - element, 3
  {
    off, it, ok := off0, element, true;
    var i := 0;
    ghost var left, span := count, Span(env, b);
    ReadsStops(w, element, b);
    while i < count
      invariant 0 <= i <= count && left == count - i
      invariant i > 0 ==> it == element + Len(b) && Completes(b)
      invariant off + Times(left, span) == end
      invariant Wiped(ReachedEach(env, b, left, off, tail), zone.cells) == goal
    {
      TimesStep(left, span);
      WipedEach(env, b, left, off, tail, zone.cells);
      off, it, ok := ZeroFrom(env, zone, off, w, element, b);
      if !ok {
        return;
      }
      i, left := i + 1, left - 1;
    }
    ok := it != |w| && w[it] == END;
  }

  // ----- a zeroed value -----

  /** On every location of a trace: bytes are 0 and containers empty. */
  ghost predicate AllZero(t: Atoms, mem: seq<Cell>) {
    !t.Nil? ==> t.at < |mem| && mem[t.at] == (if t.Byte? then Cell.Raw(0) else Head([])) && AllZero(t.rest, mem)
  }

  /** `r` is `m` with some byte visits left out, whatever the elements of containers. */
  ghost predicate Over(m: Atoms, r: Atoms)
    decreases m
  {
    match m
    case Nil => r.Nil?
    case Byte(at, rest) => Over(rest, r) || (r.Byte? && r.at == at && Over(rest, r.rest))
    case Box(at, _, _, rest) => r.Box? && r.at == at && Over(rest, r.rest)
  }

  lemma {:induction false} BytesOver(off: nat, n: nat, m: Atoms, r: Atoms)
    requires Over(m, r)
    ensures Over(Bytes(off, n, m), Bytes(off, n, r)) && Over(Bytes(off, n, m), r)
    decreases n
  {
    if n > 0 {
      BytesOver(off + 1, n - 1, m, r);
    }
  }

  /** What zeroing reaches includes all that the other interpreters visit. */
  lemma {:induction false} ReachedOver(env: Sizes, c: Code, off: nat, m: Atoms, r: Atoms)
    requires Over(m, r)
    ensures Over(Reached(env, c, off, m), Trace(env, c, off, r))
    decreases c, 0
  {
    match c
    case Done =>
    case Memcpy(n, next) =>
      ReachedOver(env, next, off + n, m, r);
      BytesOver(off, n, Reached(env, next, off + n, m), Trace(env, next, off + n, r));
    case Skip(n, next) =>
      ReachedOver(env, next, off + n, m, r);
      BytesOver(off, n, Reached(env, next, off + n, m), Trace(env, next, off + n, r));
    case Array(k, b, next) =>
      var mid := off + Times(k, Span(env, b));
      ReachedOver(env, next, mid, m, r);
      EachOver(env, b, k, off, Reached(env, next, mid, m), Trace(env, next, mid, r));
    case Container(h, _, next) =>
      ReachedOver(env, next, off + SizeOf(env, h), m, r);
  }

  lemma {:induction false} EachOver(env: Sizes, b: Code, k: nat, off: nat, m: Atoms, r: Atoms)
    requires Over(m, r)
    ensures Over(ReachedEach(env, b, k, off, m), Repeated(env, b, k, off, r))
    decreases b, k + 1
  {
    if k > 0 {
      var mid := off + Span(env, b);
      EachOver(env, b, k - 1, mid, m, r);
      ReachedOver(env, b, off, ReachedEach(env, b, k - 1, mid, m), Repeated(env, b, k - 1, mid, r));
    }
  }

  lemma {:induction false} ReachedWithin(env: Sizes, c: Code, off: nat, tail: Atoms, hi: nat)
    requires Known(env, c) && Within(tail, off + Span(env, c), hi) && off + Span(env, c) <= hi
    ensures Within(Reached(env, c, off, tail), off, hi)
    decreases c, 0
  {
    match c
    case Done =>
    case Memcpy(n, next) =>
      ReachedWithin(env, next, off + n, tail, hi);
      BytesWithin(off, n, Reached(env, next, off + n, tail), hi);
    case Skip(n, next) =>
      ReachedWithin(env, next, off + n, tail, hi);
      BytesWithin(off, n, Reached(env, next, off + n, tail), hi);
    case Array(k, b, next) =>
      var mid := off + Times(k, Span(env, b));
      ReachedWithin(env, next, mid, tail, hi);
      EachWithin(env, b, k, off, Reached(env, next, mid, tail), hi);
    case Container(h, _, next) =>
      var mid := off + SizeOf(env, h);
      ReachedWithin(env, next, mid, tail, hi);
      WithinLater(Reached(env, next, mid, tail), off + 1, mid, hi);
  }

  lemma {:induction false} EachWithin(env: Sizes, b: Code, k: nat, off: nat, tail: Atoms, hi: nat)
    requires Known(env, b)
    requires var end := off + Times(k, Span(env, b)); Within(tail, end, hi) && end <= hi
    ensures Within(ReachedEach(env, b, k, off, tail), off, hi)
    decreases b, k + 1
  {
    if k > 0 {
      var mid := off + Span(env, b);
      EachWithin(env, b, k - 1, mid, tail, hi);
      ReachedWithin(env, b, off, ReachedEach(env, b, k - 1, mid, tail), hi);
    }
  }

  /** There is a container wherever the trace has one. */
  ghost predicate Live(t: Atoms, mem: seq<Cell>) {
    !t.Nil? ==> (t.Box? ==> t.at < |mem| && mem[t.at].Head?) && Live(t.rest, mem)
  }

  lemma {:induction false} ShapedLive(vec: Vectors, m: Atoms, r: Atoms, mem: seq<Cell>)
    requires Over(m, r) && Shaped(vec, r, mem)
    ensures Live(m, mem)
    decreases m
  {
    if !m.Nil? {
      if m.Byte? && Over(m.rest, r) {
        ShapedLive(vec, m.rest, r, mem);
      } else {
        ShapedLive(vec, m.rest, r.rest, mem);
      }
    }
  }

  lemma {:induction false} LiveBelow(t: Atoms, lo: nat, hi: nat, mem: seq<Cell>, at: nat, c: Cell)
    requires Live(t, mem) && Within(t, lo, hi) && at < lo && at < |mem|
    ensures Live(t, mem[at := c])
  {
    if !t.Nil? {
      LiveBelow(t.rest, t.at + 1, hi, mem, at, c);
    }
  }

  lemma {:induction false} WipedAround(t: Atoms, lo: nat, hi: nat, mem: seq<Cell>)
    requires Within(t, lo, hi)
    ensures forall i :: 0 <= i < |mem| && (i < lo || hi <= i) ==> Wiped(t, mem)[i] == mem[i]
    ensures forall i :: 0 <= i < |mem| && mem[i].Raw? ==> Wiped(t, mem)[i].Raw?
    decreases t
  {
    if !t.Nil? {
      WipedAround(t.rest, t.at + 1, hi, WipedAt(t, mem));
    }
  }

  lemma {:induction false} WipedIsZero(t: Atoms, lo: nat, hi: nat, mem: seq<Cell>)
    requires Within(t, lo, hi) && hi <= |mem| && Live(t, mem)
    ensures AllZero(t, Wiped(t, mem))
    decreases t
  {
    if !t.Nil? {
      var m := WipedAt(t, mem);
      assert m == mem[t.at := m[t.at]];
      LiveBelow(t.rest, t.at + 1, hi, mem, t.at, m[t.at]);
      WipedIsZero(t.rest, t.at + 1, hi, m);
      WipedAround(t.rest, t.at + 1, hi, m);
    }
  }

  lemma {:induction false} ZeroOver(m: Atoms, r: Atoms, mem: seq<Cell>)
    requires Over(m, r) && AllZero(m, mem)
    ensures AllZero(r, mem)
    decreases m
  {
    if !m.Nil? {
      if m.Byte? && Over(m.rest, r) {
        ZeroOver(m.rest, r, mem);
      } else {
        ZeroOver(m.rest, r.rest, mem);
      }
    }
  }

  lemma {:induction false} CoversOver(m: Atoms, r: Atoms)
    requires Covers(m, r)
    ensures Over(m, r)
    decreases m
  {
    if !m.Nil? {
      if m.Byte? && Covers(m.rest, r) {
        CoversOver(m.rest, r);
      } else {
        CoversOver(m.rest, r.rest);
      }
    }
  }

  // ----- it is a value without elements -----

  lemma {:induction false} ZeroBytes(off: nat, n: nat, tail: Atoms, mem: seq<Cell>)
    requires AllZero(Bytes(off, n, tail), mem)
    ensures AllZero(tail, mem)
    decreases n
  {
    if n > 0 {
      ZeroBytes(off + 1, n - 1, tail, mem);
    }
  }

  /** Bytes have stayed bytes. */
  ghost predicate StillRaw(a: seq<Cell>, b: seq<Cell>) {
    |a| == |b| && forall i :: 0 <= i < |a| && a[i].Raw? ==> b[i].Raw?
  }

  lemma {:induction false} ZeroIsValue(t: Type, off: nat, tail: Atoms, a: seq<Cell>, b: seq<Cell>)
    requires IsValue(false, t, off, a) && StillRaw(a, b) && AllZero(Visits(t, off, tail), b)
    ensures IsValue(true, t, off, b) && AllZero(tail, b)
    decreases t, 0
  {
    match t
    case ArrayType(dimension, elem) => ZeroAreValues(elem, dimension, off, tail, a, b);
    case CompoundType(fields, size) => ZeroHoldsFields(fields, 0, size, off, tail, a, b);
    case ContainerType(_, _, _) =>
    case OpaqueType(_) =>
    case _ => ZeroBytes(off, Size(t), tail, b);
  }

  lemma {:induction false} ZeroAreValues(elem: Type, k: nat, off: nat, tail: Atoms, a: seq<Cell>, b: seq<Cell>)
    requires AreValues(false, elem, k, off, a) && StillRaw(a, b) && AllZero(VisitsEach(elem, k, off, tail), b)
    ensures AreValues(true, elem, k, off, b) && AllZero(tail, b)
    decreases elem, k + 1
  {
    if k > 0 {
      ZeroIsValue(elem, off, VisitsEach(elem, k - 1, off + Size(elem), tail), a, b);
      ZeroAreValues(elem, k - 1, off + Size(elem), tail, a, b);
    }
  }

  lemma {:induction false} ZeroHoldsFields(fs: Fields, at: nat, size: nat, base: nat, tail: Atoms, a: seq<Cell>, b: seq<Cell>)
    requires HoldsFields(false, fs, at, size, base, a) && StillRaw(a, b) && AllZero(VisitsFields(fs, base, tail), b)
    ensures HoldsFields(true, fs, at, size, base, b) && AllZero(tail, b)
    decreases fs, 0
  {
    if fs.FieldAt? {
      ZeroIsValue(fs.typ, base + fs.offset, VisitsFields(fs.rest, base, tail), a, b);
      ZeroHoldsFields(fs.rest, fs.offset + Size(fs.typ), size, base, tail, a, b);
    }
  }

  // ----- the same, place by place -----

  ghost predicate IsZero(i: nat, mem: seq<Cell>) {
    i < |mem| && mem[i] == Cell.Raw(0)
  }

  /** Every byte of a number, an enumeration or a pointer is 0; a container is empty; an opaque is not looked at. */
  ghost predicate Blank(p: Spot, mem: seq<Cell>) {
    if p.typ.OpaqueType? then true
    else if p.typ.ContainerType? then p.at < |mem| && mem[p.at] == Head([])
    else forall i: nat :: p.at <= i < p.at + Size(p.typ) ==> IsZero(i, mem)
  }

  ghost predicate AllBlank(places: seq<Spot>, mem: seq<Cell>) {
    forall k :: 0 <= k < |places| ==> Blank(places[k], mem)
  }

  lemma BlankBoth(p: seq<Spot>, q: seq<Spot>, mem: seq<Cell>)
    ensures AllBlank(p + q, mem) <==> AllBlank(p, mem) && AllBlank(q, mem)
  {
    if AllBlank(p + q, mem) {
      assert forall k :: 0 <= k < |p| ==> p[k] == (p + q)[k];
      assert forall k :: 0 <= k < |q| ==> q[k] == (p + q)[|p| + k];
    }
  }

  lemma {:induction false} ZeroBytesExactly(off: nat, n: nat, tail: Atoms, mem: seq<Cell>)
    ensures AllZero(Bytes(off, n, tail), mem) <==> (forall i: nat :: off <= i < off + n ==> IsZero(i, mem)) && AllZero(tail, mem)
    decreases n
  {
    if n > 0 {
      ZeroBytesExactly(off + 1, n - 1, tail, mem);
      assert (forall i: nat :: off <= i < off + n ==> IsZero(i, mem))
        <==> IsZero(off, mem) && forall i: nat :: off + 1 <= i < off + n ==> IsZero(i, mem);
    }
  }

  lemma {:induction false} ZeroExactly(t: Type, off: nat, tail: Atoms, mem: seq<Cell>)
    ensures AllZero(Visits(t, off, tail), mem) <==> AllBlank(PlacesOf(t, off), mem) && AllZero(tail, mem)
    decreases t, 0
  {
    match t
    case ArrayType(dimension, elem) => ZeroEachExactly(elem, dimension, off, tail, mem);
    case CompoundType(fields, _) => ZeroFieldsExactly(fields, off, tail, mem);
    case _ =>
      var p := Spot(off, t);
      assert PlacesOf(t, off) == [p];
      assert AllBlank([p], mem) <==> Blank([p][0], mem);
      if !t.ContainerType? && !t.OpaqueType? {
        ZeroBytesExactly(off, Size(t), tail, mem);
      }
  }

  lemma {:induction false} ZeroEachExactly(elem: Type, k: nat, off: nat, tail: Atoms, mem: seq<Cell>)
    ensures AllZero(VisitsEach(elem, k, off, tail), mem) <==> AllBlank(PlacesOfEach(elem, k, off), mem) && AllZero(tail, mem)
    decreases elem, k + 1
  {
    if k > 0 {
      ZeroEachExactly(elem, k - 1, off + Size(elem), tail, mem);
      ZeroExactly(elem, off, VisitsEach(elem, k - 1, off + Size(elem), tail), mem);
      BlankBoth(PlacesOf(elem, off), PlacesOfEach(elem, k - 1, off + Size(elem)), mem);
    }
  }

  lemma {:induction false} ZeroFieldsExactly(fs: Fields, base: nat, tail: Atoms, mem: seq<Cell>)
    ensures AllZero(VisitsFields(fs, base, tail), mem) <==> AllBlank(PlacesOfFields(fs, base), mem) && AllZero(tail, mem)
    decreases fs, 0
  {
    if fs.FieldAt? {
      ZeroFieldsExactly(fs.rest, base, tail, mem);
      ZeroExactly(fs.typ, base + fs.offset, VisitsFields(fs.rest, base, tail), mem);
      BlankBoth(PlacesOf(fs.typ, base + fs.offset), PlacesOfFields(fs.rest, base), mem);
    }
  }

  /** What zeroing through the merged layout leaves of a value: no data, no elements, and the padding at its end as it was. */
  lemma ZeroIsExact(env: Sizes, vec: Vectors, t: Type, mem: seq<Cell>)
    requires Ordered(t) && Modelled(env, vec, t) && |mem| == Size(t) && IsValue(false, t, 0, mem)
    ensures Trail(Types.Raw(t), 0) <= Size(t)
    ensures var r := Wiped(Reached(env, LayoutOf(t, true, true), 0, Nil), mem);
            && AllZero(Visits(t, 0, Nil), r) && IsValue(true, t, 0, r)
            && forall i :: Size(t) - Trail(Types.Raw(t), 0) <= i < |mem| ==> r[i] == mem[i]
  {
    var c := LayoutOf(t, true, true);
    var reached, visits, hi := Reached(env, c, 0, Nil), Marshalled(env, t, true), Span(env, c);
    ModelledIsDescribed(env, vec, t);
    LayoutRuns(env, vec, t, true, false, mem);
    BackedKnown(env, vec, c);
    LayoutSpan(env, t, true, true);
    ReachedWithin(env, c, 0, Nil, hi);
    ReachedOver(env, c, 0, Nil, Nil);
    ShapedLive(vec, reached, visits, mem);
    WipedIsZero(reached, 0, hi, mem);
    WipedAround(reached, 0, hi, mem);
    var r := Wiped(reached, mem);
    ZeroOver(reached, visits, r);
    var layoutVisits, typeVisits := MergedLayoutCovers(env, t, true);
    CoversOver(visits, Visits(t, 0, Nil));
    ZeroOver(visits, Visits(t, 0, Nil), r);
    ZeroIsValue(t, 0, Nil, mem, r);
  }

  /** `Typelib::zero` of a value: every number, enumeration and container of it is cleared. */
  method ZeroValue(env: Sizes, ghost vec: Vectors, t: Type, zone: Zone) returns (ok: bool)
    requires Ordered(t) && Modelled(env, vec, t)
    modifies zone
    ensures ok <==> Accepts(t, false, false) && B.Safe(t, true) && Completes(LayoutOf(t, true, true))
    ensures ok ==> zone.cells == Wiped(Reached(env, LayoutOf(t, true, true), 0, Nil), old(zone.cells))
    ensures ok && |old(zone.cells)| == Size(t) && IsValue(false, t, 0, old(zone.cells)) ==>
              AllZero(Visits(t, 0, Nil), zone.cells) && AllBlank(PlacesOf(t, 0), zone.cells) && IsValue(true, t, 0, zone.cells)
  {
    var layout;
    layout, ok := B.LayoutOf(t, false, false, true, true);
    if ok {
      ghost var c := LayoutOf(t, true, true);
      if |zone.cells| == Size(t) && IsValue(false, t, 0, zone.cells) {
        ZeroIsExact(env, vec, t, zone.cells);
      }
      ReadsWords(layout.ops, 0, c);
      var off, it;
      off, it, ok := ZeroFrom(env, zone, 0, layout.ops, 0, c);
      ZeroExactly(t, 0, Nil, zone.cells);
    }
  }
}
