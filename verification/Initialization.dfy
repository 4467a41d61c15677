/** `Typelib::init`: the init program of a type, from the layout of the type to the memory it leaves. */
module Initialization {
  import opened Tracing
  import opened Types
  import opened Compiler
  import opened InitCode
  import opened Values
  import opened Defaults
  import opened Places
  import opened InitPlaces
  import opened Initializer
  import opened Comparison
  import opened Unmarshal
  import B = Builder

  // ----- the init programs of types run to their end -----

  lemma {:induction false} RunsJoin(a: Init, b: Init)
    ensures Runs(Join(a, b)) <==> Runs(a) && Runs(b)
  {
    if !a.Stop? {
      RunsJoin(a.next, b);
    }
  }

  lemma {:induction false} RawInitRuns(t: Type)
    requires Ordered(t) && Dimensioned(t)
    ensures Runs(RawInit(t))
    decreases t
  {
    match t
    case ArrayType(_, elem) => RawInitRuns(elem);
    case CompoundType(fields, size) => RawInitFieldsRun(fields, 0, size);
    case _ =>
  }

  lemma {:induction false} RawInitFieldsRun(fs: Fields, at: nat, size: nat)
    requires OrderedFields(fs, at, size) && DimensionedFields(fs)
    ensures Runs(RawInitFields(fs, at, size))
    decreases fs
  {
    if fs.FieldAt? {
      var end := fs.offset + Size(fs.typ);
      RawInitRuns(fs.typ);
      RawInitFieldsRun(fs.rest, end, size);
      RunsJoin(RawInit(fs.typ), RawInitFields(fs.rest, end, size));
    }
  }

  /** Simplifying keeps programs running to their end. */
  lemma {:induction false} SimplifiedRuns(top: bool, c: Init, p: Pending)
    requires Runs(c) && Valid(p)
    ensures Runs(Simplified(top, c, p))
    decreases c
  {
    if !c.Stop? {
      if c.Repeat? && c.count > 0 {
        SimplifiedRuns(false, c.body, Nothing);
      }
      var t := After(c, p);
      assert Runs(t.written);
      SimplifiedRuns(top, c.next, t.pending);
      RunsJoin(t.written, Simplified(top, c.next, t.pending));
    }
  }

  /** Types without empty arrays are initialised to the end. */
  lemma InitLayoutRuns(t: Type)
    requires Ordered(t) && Dimensioned(t)
    ensures Runs(InitLayoutOf(t))
  {
    RawInitRuns(t);
    SimplifiedRuns(true, RawInit(t), Nothing);
  }

  // ----- and stay inside the type -----

  lemma {:induction false} TopSpan(env: Sizes, c: Init, p: Pending)
    requires Valid(p)
    ensures InitSpan(env, Simplified(true, c, p)) <= Extent(p) + InitSpan(env, c)
    decreases c
  {
    if !c.Stop? {
      var t := After(c, p);
      StepAccounts(env, c, p, 0, NoWrite);
      StepEffect(env, true, c, p, 0, InitSpan(env, t.written), NoWrite);
      TopSpan(env, c.next, t.pending);
    }
  }

  lemma InitLayoutSpan(env: Sizes, t: Type)
    requires Ordered(t) && Described(env, t)
    ensures InitSpan(env, InitLayoutOf(t)) <= Size(t)
  {
    TopSpan(env, RawInit(t), Nothing);
    RawInitIsExact(env, t, 0, NoWrite);
  }

  /**
   `Typelib::init`, through the layout of the type; fails exactly where there is none, and at an empty array. Enumerations then
   hold their first value, containers are empty and nothing else has changed, so that raw memory becomes a value. The same is
   said byte by byte of every place of the type: byte `i` of an enumeration is digit `i` of its first value to the base 256.
   */
  method InitValue(env: Sizes, t: Type, zone: Zone) returns (ok: bool)
    requires Ordered(t) && Described(env, t) && Size(t) <= |zone.cells|
    modifies zone
    ensures ok <==> Accepts(t, false, false) && B.Safe(t, true) && Runs(InitLayoutOf(t))
    ensures ok ==> Steps(t, 0, old(zone.cells), zone.cells)
    ensures ok ==> AllSetUp(PlacesOf(t, 0), zone.cells) && Untouched(PlacesOf(t, 0), 0, Size(t), old(zone.cells), zone.cells)
    ensures ok && AllRaw(old(zone.cells), 0, Size(t)) ==> IsValue(true, t, 0, zone.cells)
  {
    var layout;
    layout, ok := B.LayoutOf(t, false, false, true, true);
    if ok {
      ghost var c, mem := InitLayoutOf(t), zone.cells;
      ReadsInitWords(layout.initOps, 0, c);
      InitLayoutSpan(env, t);
      InitIsExact(env, t, mem);
      var off, it;
      off, it, ok := InitFrom(env, zone, 0, layout.initOps, 0, c);
      if ok {
        InitialisedPlaces(t, 0, mem, zone.cells);
      }
      if ok && AllRaw(mem, 0, Size(t)) {
        InitialisedIsEmpty(env, t, 0, mem, zone.cells);
      }
    }
  }
}
