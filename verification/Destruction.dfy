/**
 `Typelib::destroy` on values with containers: `ValueOps::destroy` over the merged layout of a type, and
 `Vector::destroy` for each container, which destroys its elements unless they are plain bytes.

 What is destroyed is recorded as the list of container handles, in the order in which their
 objects go.
 */
module Destruction {
  import opened Bytecode
  import opened Tracing
  import opened Simplification
  import opened Seqs
  import opened Types
  import opened Memory
  import opened Values
  import opened Marshalling
  import opened Comparison
  import opened Duplication
  import opened Compiler
  import B = Builder

  // ----- every container object of a value -----

  /** The containers of a value, each after those in its elements. */
  function Objects(t: Atoms, mem: seq<Cell>): seq<nat>
    decreases t, 0
  {
    match t
    case Nil => []
    case Byte(_, rest) => Objects(rest, mem)
    case Box(at, h, elem, rest) =>
      (if at < |mem| && mem[at].Head? then ObjectsEach(elem, mem[at].elems) else []) + [h] + Objects(rest, mem)
  }

  function ObjectsEach(elem: Atoms, elems: seq<seq<Cell>>): seq<nat>
    decreases elem, 1, |elems|
  {
    if elems == [] then [] else Objects(elem, elems[0]) + ObjectsEach(elem, elems[1..])
  }

  /** The same by the type alone: the containers in the elements of a container, one element after the other, then the container itself. */
  ghost function ObjectsIn(t: Type, off: nat, mem: seq<Cell>): seq<nat>
    decreases t, 0
  {
    match t
    case ArrayType(dimension, elem) => ObjectsInEach(elem, dimension, off, mem)
    case CompoundType(fields, _) => ObjectsInFields(fields, off, mem)
    case ContainerType(handle, _, elem) =>
      (if off < |mem| && mem[off].Head? then ObjectsInElements(elem, mem[off].elems) else []) + [handle]
    case _ => []
  }

  ghost function ObjectsInElements(elem: Type, elems: seq<seq<Cell>>): seq<nat>
    decreases elem, 1, |elems|
  {
    if elems == [] then [] else ObjectsIn(elem, 0, elems[0]) + ObjectsInElements(elem, elems[1..])
  }

  ghost function ObjectsInEach(elem: Type, k: nat, off: nat, mem: seq<Cell>): seq<nat>
    decreases elem, k + 1
  {
    if k == 0 then [] else ObjectsIn(elem, off, mem) + ObjectsInEach(elem, k - 1, off + Size(elem), mem)
  }

  ghost function ObjectsInFields(fs: Fields, base: nat, mem: seq<Cell>): seq<nat>
    decreases fs, 0
  {
    if fs.FieldAt? then ObjectsIn(fs.typ, base + fs.offset, mem) + ObjectsInFields(fs.rest, base, mem) else []
  }

  lemma {:induction false} ObjectsBytes(off: nat, n: nat, tail: Atoms, mem: seq<Cell>)
    ensures Objects(Bytes(off, n, tail), mem) == Objects(tail, mem)
    decreases n
  {
    if n > 0 {
      ObjectsBytes(off + 1, n - 1, tail, mem);
    }
  }

  lemma {:induction false} ObjectsExactly(t: Type, off: nat, tail: Atoms, mem: seq<Cell>)
    ensures Objects(Visits(t, off, tail), mem) == ObjectsIn(t, off, mem) + Objects(tail, mem)
    decreases t, 0
  {
    match t
    case ArrayType(dimension, elem) => ObjectsEachExactly(elem, dimension, off, tail, mem);
    case CompoundType(fields, _) => ObjectsFieldsExactly(fields, off, tail, mem);
    case ContainerType(_, _, elem) =>
      if off < |mem| && mem[off].Head? {
        ObjectsElementsExactly(elem, mem[off].elems);
      }
    case OpaqueType(_) =>
    case _ => ObjectsBytes(off, Size(t), tail, mem);
  }

  lemma {:induction false} ObjectsElementsExactly(elem: Type, elems: seq<seq<Cell>>)
    ensures ObjectsEach(Visits(elem, 0, Nil), elems) == ObjectsInElements(elem, elems)
    decreases elem, 1, |elems|
  {
    if elems != [] {
      ObjectsExactly(elem, 0, Nil, elems[0]);
      ObjectsElementsExactly(elem, elems[1..]);
    }
  }

  lemma {:induction false} ObjectsEachExactly(elem: Type, k: nat, off: nat, tail: Atoms, mem: seq<Cell>)
    ensures Objects(VisitsEach(elem, k, off, tail), mem) == ObjectsInEach(elem, k, off, mem) + Objects(tail, mem)
    decreases elem, k + 1
  {
    if k > 0 {
      ObjectsEachExactly(elem, k - 1, off + Size(elem), tail, mem);
      ObjectsExactly(elem, off, VisitsEach(elem, k - 1, off + Size(elem), tail), mem);
    }
  }

  lemma {:induction false} ObjectsFieldsExactly(fs: Fields, base: nat, tail: Atoms, mem: seq<Cell>)
    ensures Objects(VisitsFields(fs, base, tail), mem) == ObjectsInFields(fs, base, mem) + Objects(tail, mem)
    decreases fs, 0
  {
    if fs.FieldAt? {
      ObjectsFieldsExactly(fs.rest, base, tail, mem);
      ObjectsExactly(fs.typ, base + fs.offset, VisitsFields(fs.rest, base, tail), mem);
    }
  }

  // ----- what the code destroys -----

  /** Along a trace; `n` bounds the nesting of containers. */
  function Freed(n: nat, env: Sizes, vec: Vectors, kinds: Kinds, t: Atoms, mem: seq<Cell>): seq<nat>
    decreases n, 2, t
  {
    match t
    case Nil => []
    case Byte(_, rest) => Freed(n, env, vec, kinds, rest, mem)
    case Box(at, h, _, rest) =>
      (if at < |mem| then FreedObject(n, env, vec, kinds, h, mem[at]) else [h]) + Freed(n, env, vec, kinds, rest, mem)
  }

  /** `Vector::destroy`: the elements from the first on, then the object. */
  function FreedObject(n: nat, env: Sizes, vec: Vectors, kinds: Kinds, h: nat, c: Cell): seq<nat>
    decreases n, 0
  {
    if n > 0 && c.Head? && h in vec && h in kinds && Ordered(kinds[h]) && !IsMemcpy(vec[h].layout) then
      FreedEach(n - 1, env, vec, kinds, kinds[h], c.elems) + [h]
    else [h]
  }

  function FreedEach(n: nat, env: Sizes, vec: Vectors, kinds: Kinds, t: Type, elems: seq<seq<Cell>>): seq<nat>
    requires Ordered(t)
    decreases n, 3, |elems|
  {
    if elems == [] then []
    else Freed(n, env, vec, kinds, Marshalled(env, t, true), elems[0]) + FreedEach(n, env, vec, kinds, t, elems[1..])
  }

  // ----- they are the same -----

  lemma {:induction false} NoObjects(t: Atoms, mem: seq<Cell>)
    requires NoBox(t)
    ensures Objects(t, mem) == []
  {
    if !t.Nil? {
      NoObjects(t.rest, mem);
    }
  }

  lemma {:induction false} NoObjectsEach(elem: Atoms, elems: seq<seq<Cell>>)
    requires NoBox(elem)
    ensures ObjectsEach(elem, elems) == []
    decreases |elems|
  {
    if elems != [] {
      NoObjects(elem, elems[0]);
      NoObjectsEach(elem, elems[1..]);
    }
  }

  lemma {:induction false} MemcpyHasNoBox(t: Atoms, raw: Atoms)
    requires NoBox(t) && Covers(t, raw)
    ensures NoBox(raw)
    decreases t
  {
    if t.Byte? {
      if Covers(t.rest, raw) {
        MemcpyHasNoBox(t.rest, raw);
      } else {
        MemcpyHasNoBox(t.rest, raw.rest);
      }
    }
  }

  lemma MemcpyIsLone(c: Code)
    requires IsMemcpy(Words(c))
    ensures c.Memcpy? && c.next.Done?
  {
    if c.Memcpy? {
      assert Len(c) == 2 + Len(c.next);
    }
  }

  /** A type whose merged layout is one MEMCPY has no container. */
  lemma BulkHasNoBox(env: Sizes, vec: Vectors, t: Type)
    requires Ordered(t) && Modelled(env, vec, t) && IsMemcpy(Words(LayoutOf(t, true, true)))
    ensures NoBox(Visits(t, 0, Nil))
  {
    var c := LayoutOf(t, true, true);
    ModelledIsDescribed(env, vec, t);
    var layoutVisits, typeVisits := MergedLayoutCovers(env, t, true);
    MemcpyIsLone(c);
    BytesNoBox(0, c.n, Nil);
    MemcpyHasNoBox(Marshalled(env, t, true), Visits(t, 0, Nil));
  }

  /** Destroying a value through its layout destroys every container in it, at any depth, once each and innermost first. */
  lemma {:induction false} DestroyIsComplete(n: nat, env: Sizes, vec: Vectors, kinds: Kinds, t: Type, mem: seq<Cell>)
    requires Ordered(t) && Coherent(env, vec, kinds, t) && Modelled(env, vec, t) && Depth(t) <= n
    requires IsValue(false, t, 0, mem)
    ensures Freed(n, env, vec, kinds, Marshalled(env, t, true), mem) == Objects(Visits(t, 0, Nil), mem)
    decreases n, 3
  {
    ModelledIsDescribed(env, vec, t);
    var layoutVisits, typeVisits := MergedLayoutCovers(env, t, true);
    ValueTidy(n, env, vec, kinds, t, 0, Nil, mem, mem);
    TraceFrees(n, env, vec, kinds, Marshalled(env, t, true), Visits(t, 0, Nil), mem);
  }

  lemma {:induction false} TraceFrees(n: nat, env: Sizes, vec: Vectors, kinds: Kinds, t: Atoms, raw: Atoms, mem: seq<Cell>)
    requires Covers(t, raw) && Tidy(n, env, vec, kinds, raw, mem, mem)
    ensures Freed(n, env, vec, kinds, t, mem) == Objects(raw, mem)
    decreases n, 2, t
  {
    match t
    case Nil =>
    case Byte(_, rest) =>
      if Covers(rest, raw) {
        TraceFrees(n, env, vec, kinds, rest, raw, mem);
      } else {
        TraceFrees(n, env, vec, kinds, rest, raw.rest, mem);
      }
    case Box(at, h, _, rest) =>
      TraceFrees(n, env, vec, kinds, rest, raw.rest, mem);
      if IsMemcpy(vec[h].layout) {
        BulkHasNoBox(env, vec, kinds[h]);
        NoObjectsEach(raw.elem, mem[at].elems);
        assert [] + [h] == [h];
      } else {
        EachFrees(n - 1, env, vec, kinds, kinds[h], mem[at].elems);
      }
  }

  lemma {:induction false} EachFrees(n: nat, env: Sizes, vec: Vectors, kinds: Kinds, t: Type, elems: seq<seq<Cell>>)
    requires Ordered(t) && Coherent(env, vec, kinds, t) && Modelled(env, vec, t) && Depth(t) <= n && Elements(t, elems)
    ensures FreedEach(n, env, vec, kinds, t, elems) == ObjectsEach(Visits(t, 0, Nil), elems)
    decreases n, 4, |elems|
  {
    if elems != [] {
      DestroyIsComplete(n, env, vec, kinds, t, elems[0]);
      EachFrees(n, env, vec, kinds, t, elems[1..]);
    }
  }

  // ----- the interpreter -----

  lemma {:induction false} FreedBytes(n: nat, env: Sizes, vec: Vectors, kinds: Kinds, off: nat, k: nat, tail: Atoms, mem: seq<Cell>)
    ensures Freed(n, env, vec, kinds, Bytes(off, k, tail), mem) == Freed(n, env, vec, kinds, tail, mem)
    decreases k
  {
    if k > 0 {
      FreedBytes(n, env, vec, kinds, off + 1, k - 1, tail, mem);
    }
  }

  lemma {:induction false} FreedThen(n: nat, env: Sizes, vec: Vectors, kinds: Kinds, a: Atoms, b: Atoms, mem: seq<Cell>)
    ensures Freed(n, env, vec, kinds, Then(a, b), mem) == Freed(n, env, vec, kinds, a, mem) + Freed(n, env, vec, kinds, b, mem)
    decreases a
  {
    match a
    case Nil => assert [] + Freed(n, env, vec, kinds, b, mem) == Freed(n, env, vec, kinds, b, mem);
    case Byte(_, rest) => FreedThen(n, env, vec, kinds, rest, b, mem);
    case Box(at, h, _, rest) =>
      FreedThen(n, env, vec, kinds, rest, b, mem);
      Regroup(if at < |mem| then FreedObject(n, env, vec, kinds, h, mem[at]) else [h], Freed(n, env, vec, kinds, rest, mem), Freed(n, env, vec, kinds, b, mem));
  }

  /** The log once the visits `t` are done too. */
  ghost function Final(n: nat, env: Sizes, vec: Vectors, kinds: Kinds, t: Atoms, mem: seq<Cell>, log: seq<nat>): seq<nat> {
    log + Freed(n, env, vec, kinds, t, mem)
  }

  lemma FinalNone(n: nat, env: Sizes, vec: Vectors, kinds: Kinds, mem: seq<Cell>, log: seq<nat>)
    ensures Final(n, env, vec, kinds, Nil, mem, log) == log
  {
    assert Freed(n, env, vec, kinds, Nil, mem) == [] && log + [] == log;
  }

  lemma FinalThen(n: nat, env: Sizes, vec: Vectors, kinds: Kinds, a: Atoms, b: Atoms, both: Atoms, mem: seq<Cell>, log: seq<nat>)
    requires both == Then(a, b)
    ensures Final(n, env, vec, kinds, both, mem, log) == Final(n, env, vec, kinds, b, mem, log + Freed(n, env, vec, kinds, a, mem))
  {
    FreedThen(n, env, vec, kinds, a, b, mem);
    Regroup(log, Freed(n, env, vec, kinds, a, mem), Freed(n, env, vec, kinds, b, mem));
  }

  lemma RepeatedThen(env: Sizes, b: Code, k: nat, off: nat, mid: nat, tail: Atoms)
    requires k > 0 && mid == off + Span(env, b)
    ensures Repeated(env, b, k, off, tail) == Then(Trace(env, b, off, Nil), Repeated(env, b, k - 1, mid, tail))
  {
    TraceThen(env, b, off, Nil, Repeated(env, b, k - 1, mid, tail));
  }

  lemma FinalRepeated(n: nat, env: Sizes, vec: Vectors, kinds: Kinds, b: Code, k: nat, off: nat, mid: nat, tail: Atoms, mem: seq<Cell>, log: seq<nat>)
    requires k > 0 && mid == off + Span(env, b)
    ensures Final(n, env, vec, kinds, Repeated(env, b, k, off, tail), mem, log)
            == Final(n, env, vec, kinds, Repeated(env, b, k - 1, mid, tail), mem, log + Freed(n, env, vec, kinds, Trace(env, b, off, Nil), mem))
  {
    RepeatedThen(env, b, k, off, mid, tail);
    FinalThen(n, env, vec, kinds, Trace(env, b, off, Nil), Repeated(env, b, k - 1, mid, tail), Repeated(env, b, k, off, tail), mem, log);
  }

  method DestroyFrom(ghost n: nat, env: Sizes, vec: Vectors, kinds: Kinds, mem: seq<Cell>, off0: nat, w: seq<nat>, begin: nat, log0: seq<nat>, ghost c: Code)
    returns (off: nat, it: nat, ok: bool, log: seq<nat>)
    requires Reads(w, begin, c) && AllCatalogued(n, env, vec, kinds, c)
    ensures ok <==> Completes(c)
    ensures ok ==> log == log0 + Freed(n, env, vec, kinds, Trace(env, c, off0, Nil), mem)
    ensures ok ==> off == off0 + Span(env, c) && it == begin + Len(c)
    decreases n, 0, |w| - begin, 2
  {
    ghost var goal := Final(n, env, vec, kinds, Trace(env, c, off0, Nil), mem, log0);
    ghost var rest := c;
    off, it, ok, log := off0, begin, true, log0;
    ReadsStops(w, begin, c);
    while it != |w| && w[it] != END
      invariant begin <= it <= |w| && it + Len(rest) == begin + Len(c) && off + Span(env, rest) == off0 + Span(env, c)
      invariant Reads(w, it, rest) && AllCatalogued(n, env, vec, kinds, rest) && Completes(c) == Completes(rest)
      invariant Final(n, env, vec, kinds, Trace(env, rest, off, Nil), mem, log) == goal
      decreases |w| - it
    {
      ReadsNext(w, it, rest);
      off, it, ok, log := DestroyNext(n, env, vec, kinds, mem, off, w, it, log, rest, goal);
      if !ok {
        return;
      }
      rest := rest.next;
    }
    FinalNone(n, env, vec, kinds, mem, log);
  }

  /** One turn of the loop, on the operation at `start`. */
  method DestroyNext(ghost n: nat, env: Sizes, vec: Vectors, kinds: Kinds, mem: seq<Cell>, off0: nat, w: seq<nat>, start: nat, log0: seq<nat>,
                     ghost c: Code, ghost goal: seq<nat>)
    returns (off: nat, it: nat, ok: bool, log: seq<nat>)
    requires !c.Done? && Reads(w, start, c) && AllCatalogued(n, env, vec, kinds, c)
    requires Final(n, env, vec, kinds, Trace(env, c, off0, Nil), mem, log0) == goal
    ensures ok <==> HeadCompletes(c)
    ensures ok ==> off == off0 + HeadSpan(env, c) && it == start + HeadLen(c)
    ensures ok ==> Final(n, env, vec, kinds, Trace(env, c.next, off, Nil), mem, log) == goal
    decreases n, 0, |w| - start, 1
  {
    off, it, ok, log := off0, start + 1, true, log0;
    ghost var next := off0 + HeadSpan(env, c);
    ghost var tail := Trace(env, c.next, next, Nil);
    if w[start] == MEMCPY || w[start] == SKIP {
      FreedBytes(n, env, vec, kinds, off, w[it], tail, mem);
      off := off + w[it];
    } else if w[start] == ARRAY {
      off, it, ok, log := DestroyArray(n, env, vec, kinds, mem, off, w, start, log, c, next, tail, goal);
    } else {
      off, it, log := DestroyContainer(n, env, vec, kinds, mem, off, w, start, log, c, tail, goal);
    }
    it := it + 1;
  }

  method DestroyContainer(ghost n: nat, env: Sizes, vec: Vectors, kinds: Kinds, mem: seq<Cell>, off0: nat, w: seq<nat>, start: nat, log0: seq<nat>,
                          ghost c: Code, ghost tail: Atoms, ghost goal: seq<nat>)
    returns (off: nat, it: nat, log: seq<nat>)
    requires c.Container? && Reads(w, start, c) && Catalogued(n, env, vec, kinds, c.handle)
    requires Final(n, env, vec, kinds, Box(off0, c.handle, Trace(env, c.body, 0, Nil), tail), mem, log0) == goal
    ensures off == off0 + env[c.handle] && it == start + 2 + Len(c.body)
    ensures Final(n, env, vec, kinds, tail, mem, log) == goal
    decreases n, 0, |w| - start, 0
  {
    var h := w[start + 1];
    ReadsHandle(w, start, c);
    var freed := [h];
    if off0 < |mem| {
      freed := DestroyObject(n, env, vec, kinds, h, mem[off0]);
    }
    Regroup(log0, freed, Freed(n, env, vec, kinds, tail, mem));
    log := log0 + freed;
    it := SkipBlock(w, start + 1, c.body);
    off := off0 + env[h];
  }

  method DestroyArray(ghost n: nat, env: Sizes, vec: Vectors, kinds: Kinds, mem: seq<Cell>, off0: nat, w: seq<nat>, start: nat, log0: seq<nat>,
                      ghost c: Code, ghost end: nat, ghost tail: Atoms, ghost goal: seq<nat>)
    returns (off: nat, it: nat, ok: bool, log: seq<nat>)
    requires c.Array? && Reads(w, start, c) && AllCatalogued(n, env, vec, kinds, c.body) && end == off0 + Times(c.count, Span(env, c.body))
    requires Final(n, env, vec, kinds, Repeated(env, c.body, c.count, off0, tail), mem, log0) == goal
    ensures ok <==> HeadCompletes(c)
    ensures ok ==> off == end && it == start + 2 + Len(c.body) && Final(n, env, vec, kinds, tail, mem, log) == goal
    decreases n, 0, |w| - start, 0
  {
    ghost var b := c.body;
    var count, element := w[start + 1], start + 2;
    ReadsStops(w, element, b);
    off, it, ok, log := DestroyRepeated(n, env, vec, kinds, mem, off0, w, element, count, log0, b, end, tail, goal);
    if ok {
      if count == 0 && !b.Done? {
        ReadsNext(w, element, b);
      }
      ok := it != |w| && w[it] == END;
    }
  }

  /** The block at `element`, `count` times. */
  method DestroyRepeated(ghost n: nat, env: Sizes, vec: Vectors, kinds: Kinds, mem: seq<Cell>, off0: nat, w: seq<nat>, element: nat, count: nat, log0: seq<nat>,
                         ghost b: Code, ghost end: nat, ghost tail: Atoms, ghost goal: seq<nat>)
    returns (off: nat, it: nat, ok: bool, log: seq<nat>)
    requires Reads(w, element, b) && AllCatalogued(n, env, vec, kinds, b) && end == off0 + Times(count, Span(env, b))
    requires Final(n, env, vec, kinds, Repeated(env, b, count, off0, tail), mem, log0) == goal
    ensures ok <==> count == 0 || Completes(b)
    ensures ok ==> off == end && it == (if count > 0 then element + Len(b) else element) && Final(n, env, vec, kinds, tail, mem, log) == goal
    decreases n, 0, |w| - element, 4
  {
    ghost var span, left := Span(env, b), count;
    off, it, ok, log := off0, element, true, log0;
    var i := 0;
    while i < count
      invariant 0 <= i <= count && left == count - i && ok
      invariant it == if i > 0 then element + Len(b) else element
      invariant (i > 0 ==> Completes(b)) && off + Times(left, span) == end
      invariant Final(n, env, vec, kinds, Repeated(env, b, left, off, tail), mem, log) == goal
    {
      TimesStep(left, span);
      off, it, ok, log := DestroyOnce(n, env, vec, kinds, mem, off, w, element, log, b, left, tail, goal);
      if !ok {
        return;
      }
      i, left := i + 1, left - 1;
    }
  }

  method DestroyOnce(ghost n: nat, env: Sizes, vec: Vectors, kinds: Kinds, mem: seq<Cell>, off0: nat, w: seq<nat>, element: nat, log0: seq<nat>,
                     ghost b: Code, ghost left: nat, ghost tail: Atoms, ghost goal: seq<nat>)
    returns (off: nat, it: nat, ok: bool, log: seq<nat>)
    requires Reads(w, element, b) && AllCatalogued(n, env, vec, kinds, b) && left > 0
    requires Final(n, env, vec, kinds, Repeated(env, b, left, off0, tail), mem, log0) == goal
    ensures ok <==> Completes(b)
    ensures ok ==> off == off0 + Span(env, b) && it == element + Len(b)
    ensures ok ==> Final(n, env, vec, kinds, Repeated(env, b, left - 1, off, tail), mem, log) == goal
    decreases n, 0, |w| - element, 3
  {
    FinalRepeated(n, env, vec, kinds, b, left, off0, off0 + Span(env, b), tail, mem, log0);
    off, it, ok, log := DestroyFrom(n, env, vec, kinds, mem, off0, w, element, log0, b);
  }

  method DestroyObject(ghost n: nat, env: Sizes, vec: Vectors, kinds: Kinds, h: nat, c: Cell) returns (freed: seq<nat>)
    requires Catalogued(n, env, vec, kinds, h)
    ensures freed == FreedObject(n, env, vec, kinds, h, c)
    decreases n - 1, 3
  {
    freed := [];
    if c.Head? && !IsMemcpy(vec[h].layout) {
      ghost var goal := FreedEach(n - 1, env, vec, kinds, kinds[h], c.elems);
      assert c.elems[0..] == c.elems;
      LayoutCompletes(kinds[h], true, true);
      for i := 0 to |c.elems|
        invariant freed + FreedEach(n - 1, env, vec, kinds, kinds[h], c.elems[i..]) == goal
      {
        var more, ok := DestroyValue(n - 1, env, vec, kinds, kinds[h], c.elems[i]);
        assert c.elems[i..][0] == c.elems[i] && c.elems[i..][1..] == c.elems[i + 1..];
        Regroup(freed, more, FreedEach(n - 1, env, vec, kinds, kinds[h], c.elems[i + 1..]));
        freed := freed + more;
      }
      assert c.elems[|c.elems|..] == [] && freed + [] == freed;
    }
    freed := freed + [h];
  }

  /** Over the words of the merged layout. */
  method DestroyWords(ghost n: nat, env: Sizes, vec: Vectors, kinds: Kinds, ghost t: Type, w: seq<nat>, mem: seq<Cell>) returns (freed: seq<nat>, ok: bool)
    requires Ordered(t) && Coherent(env, vec, kinds, t) && Modelled(env, vec, t) && Depth(t) <= n && Accepts(t, false, false)
    requires w == Words(LayoutOf(t, true, true))
    ensures ok <==> Completes(LayoutOf(t, true, true))
    ensures ok ==> freed == Freed(n, env, vec, kinds, Marshalled(env, t, true), mem)
    decreases n, 1
  {
    ghost var c := LayoutOf(t, true, true);
    LayoutCopies(n, env, vec, kinds, t);
    var off, it;
    off, it, ok, freed := DestroyFrom(n, env, vec, kinds, mem, 0, w, 0, [], c);
    assert [] + Freed(n, env, vec, kinds, Trace(env, c, 0, Nil), mem) == Freed(n, env, vec, kinds, Trace(env, c, 0, Nil), mem);
  }

  /** `Typelib::destroy` of a value, through the merged layout of its type; fails exactly where there is none, and at an empty array. */
  method DestroyValue(ghost n: nat, env: Sizes, vec: Vectors, kinds: Kinds, t: Type, mem: seq<Cell>) returns (freed: seq<nat>, ok: bool)
    requires Ordered(t) && Coherent(env, vec, kinds, t) && Modelled(env, vec, t) && Depth(t) <= n
    ensures ok <==> Accepts(t, false, false) && B.Safe(t, true) && Completes(LayoutOf(t, true, true))
    ensures ok ==> freed == Freed(n, env, vec, kinds, Marshalled(env, t, true), mem)
    ensures ok && IsValue(false, t, 0, mem) ==> freed == Objects(Visits(t, 0, Nil), mem) == ObjectsIn(t, 0, mem)
    decreases n, 2
  {
    freed := [];
    var layout;
    layout, ok := B.LayoutOf(t, false, false, true, true);
    if ok {
      if IsValue(false, t, 0, mem) {
        DestroyIsComplete(n, env, vec, kinds, t, mem);
        ObjectsExactly(t, 0, Nil, mem);
      }
      freed, ok := DestroyWords(n, env, vec, kinds, t, layout.ops, mem);
    }
  }
}
