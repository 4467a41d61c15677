/** From a type to a marshalled value and back: the layout, the dump, the load and the comparison, in one run. */
module EndToEnd {
  import opened Bytecode
  import opened Tracing
  import opened Simplification
  import opened Octets
  import opened Types
  import opened Compiler
  import opened Memory
  import opened RoundTrip
  import opened Marshal
  import opened Unmarshal
  import opened Values
  import opened Marshalling
  import opened Comparison
  import opened Sameness
  import opened Initializer
  import opened Initialization
  import opened Places
  import opened Images
  import B = Builder

  // ----- what a load leaves is still a value of the layout -----

  lemma {:induction false} DecodedBound(s: seq<octet>)
    ensures Decoded(s) < Power256(|s|)
  {
    if s != [] {
      DecodedBound(s[1..]);
    }
  }

  lemma CountBound(s: seq<octet>)
    requires |s| == 8
    ensures Decoded(s) < COUNT_LIMIT
  {
    DecodedBound(s);
    CountLimit();
  }

  /** A load does not touch anything before the first location. */
  lemma {:induction false} LoadBelow(vec: Vectors, t: Atoms, lo: nat, into: seq<Cell>, s: seq<octet>)
    requires Sound(vec, t, lo)
    ensures var r := Load(vec, t, into, s); r.Loaded? ==> forall i :: 0 <= i < lo && i < |into| ==> r.value[i] == into[i]
    decreases t
  {
    match t
    case Nil =>
    case Byte(at, rest) =>
      if s != [] && at < |into| {
        LoadBelow(vec, rest, at + 1, into[at := Raw(s[0])], s[1..]);
      }
    case Box(at, h, elem, rest) =>
      if |s| >= 8 && at < |into| && into[at].Head? && h in vec {
        var n := Decoded(s[..8]);
        if n == 0 {
          LoadBelow(vec, rest, at + 1, into, s[8..]);
        } else {
          var r := LoadEach(vec, elem, Resized(vec[h], into[at].elems, n), s[8..]);
          if r.Loaded? {
            LoadBelow(vec, rest, at + 1, into[at := Head(r.value)], r.left);
          }
        }
      }
  }

  lemma {:induction false} LoadShaped(vec: Vectors, t: Atoms, lo: nat, into: seq<Cell>, s: seq<octet>)
    requires Shaped(vec, t, into) && Sound(vec, t, lo)
    ensures var r := Load(vec, t, into, s); r.Loaded? ==> Shaped(vec, t, r.value)
    decreases t, 1
  {
    match t
    case Nil =>
    case Byte(at, rest) =>
      if s != [] {
        var m := into[at := Raw(s[0])];
        UpdateBelow(vec, rest, at + 1, into, into, at, Raw(s[0]));
        LoadShaped(vec, rest, at + 1, m, s[1..]);
        LoadBelow(vec, rest, at + 1, m, s[1..]);
      }
    case Box(at, h, elem, rest) =>
      if |s| >= 8 {
        BoxShaped(vec, t, lo, into, s);
      }
  }

  lemma {:induction false} BoxShaped(vec: Vectors, t: Atoms, lo: nat, into: seq<Cell>, s: seq<octet>)
    requires t.Box? && Shaped(vec, t, into) && Sound(vec, t, lo) && |s| >= 8
    ensures var r := Load(vec, t, into, s); r.Loaded? ==> Shaped(vec, t, r.value)
    decreases t, 0
  {
    var n, at, h := Decoded(s[..8]), t.at, t.handle;
    if n == 0 {
      LoadShaped(vec, t.rest, at + 1, into, s[8..]);
      LoadBelow(vec, t.rest, at + 1, into, s[8..]);
    } else {
      CountBound(s[..8]);
      var targets := Resized(vec[h], into[at].elems, n);
      ResizedShaped(vec, h, t.elem, into[at].elems, n);
      EachShaped(vec, h, t.elem, targets, s[8..]);
      var r := LoadEach(vec, t.elem, targets, s[8..]);
      if r.Loaded? {
        UpdateBelow(vec, t.rest, at + 1, into, into, at, Head(r.value));
        LoadShaped(vec, t.rest, at + 1, into[at := Head(r.value)], r.left);
        LoadBelow(vec, t.rest, at + 1, into[at := Head(r.value)], r.left);
      }
    }
  }

  lemma {:induction false} EachShaped(vec: Vectors, h: nat, elem: Atoms, targets: seq<seq<Cell>>, s: seq<octet>)
    requires h in vec && ShapedEach(vec, h, elem, targets) && Sound(vec, elem, 0)
    ensures var r := LoadEach(vec, elem, targets, s); r.Loaded? ==> ShapedEach(vec, h, elem, r.value)
    decreases elem, 2, |targets|
  {
    if targets != [] {
      LoadShaped(vec, elem, 0, targets[0], s);
      var first := Load(vec, elem, targets[0], s);
      if first.Loaded? {
        EachShaped(vec, h, elem, targets[1..], first.left);
      }
    }
  }

  lemma {:induction false} ShapedCovered(vec: Vectors, merged: Atoms, raw: Atoms, mem: seq<Cell>)
    requires Covers(merged, raw) && Shaped(vec, merged, mem)
    ensures Shaped(vec, raw, mem)
    decreases merged
  {
    match merged
    case Nil =>
    case Byte(_, rest) =>
      if Covers(rest, raw) {
        ShapedCovered(vec, rest, raw, mem);
      } else {
        ShapedCovered(vec, rest, raw.rest, mem);
      }
    case Box(at, h, elem, rest) =>
      forall i | 0 <= i < |mem[at].elems| ensures Shaped(vec, raw.elem, mem[at].elems[i]) {
        ShapedCovered(vec, elem, raw.elem, mem[at].elems[i]);
      }
      ShapedCovered(vec, rest, raw.rest, mem);
  }

  // ----- the run -----

  /** Everything the run needs to know of the type: it has a layout, and its containers are vectors. */
  ghost predicate Supported(env: Sizes, vec: Vectors, kinds: Kinds, t: Type) {
    && Ordered(t) && Dimensioned(t) && NoEmptyElement(t) && Accepts(t, false, false)
    && Coherent(env, vec, kinds, t) && Modelled(env, vec, t)
  }

  /** What the layout of the type dumps, with the layout itself. */
  method DumpValue(env: Sizes, vec: Vectors, ghost kinds: Kinds, t: Type, mem: seq<Cell>) returns (w: seq<nat>, bytes: seq<octet>)
    requires Supported(env, vec, kinds, t) && |mem| == Size(t) && IsValue(false, t, 0, mem)
    ensures w == Words(Types.LayoutOf(t, true, true))
    ensures Shaped(vec, Marshalled(env, t, true), mem) && bytes == Dumped(vec, Marshalled(env, t, true), mem)
    ensures Boxless(Parts(t)) ==> Slack(t, 0) <= Size(t) && AllRaw(mem, 0, Size(t)) && bytes == Slice(mem, 0, Size(t) - Slack(t, 0))
  {
    ghost var c := Types.LayoutOf(t, true, true);
    Prepared(env, vec, kinds, t, false, mem);
    var layout, ok := B.LayoutOf(t, false, false, true, true);
    w := layout.ops;
    ReadsWords(w, 0, c);
    var stream := new OutputStream(Unbounded);
    var off, it;
    off, it, ok := Dump(env, vec, mem, 0, stream, w, 0, c);
    bytes := stream.buffer;
    assert [] + bytes == bytes;
    if Boxless(Parts(t)) {
      BoxlessIsRaw(false, t, 0, mem);
      BoxlessLayout(env, t);
      DumpIsImage(env, vec, t, mem);
    }
  }

  lemma LoadsSame(env: Sizes, vec: Vectors, kinds: Kinds, t: Type, mem: seq<Cell>, into: seq<Cell>, d: seq<octet>)
    requires Supported(env, vec, kinds, t) && IsValue(false, t, 0, mem) && IsValue(true, t, 0, into)
    requires Shaped(vec, Marshalled(env, t, true), mem) && d == Dumped(vec, Marshalled(env, t, true), mem)
    ensures var r := Load(vec, Marshalled(env, t, true), into, d);
            && r.Loaded? && r.left == [] && |r.value| == |into| && Same(Visits(t, 0, Nil), r.value, mem)
            && Shaped(vec, Visits(t, 0, Nil), r.value) && Shaped(vec, Visits(t, 0, Nil), mem)
  {
    ghost var visits := Marshalled(env, t, true);
    Prepared(env, vec, kinds, t, false, mem);
    Prepared(env, vec, kinds, t, true, into);
    RoundTripOfType(env, vec, t, true, mem, into, []);
    assert d + [] == d;
    LoadShaped(vec, visits, 0, into, d);
    LoadLength(vec, visits, into, d);
    Comparable(env, vec, t, Load(vec, visits, into, d).value, mem);
  }

  lemma {:induction false} LoadLength(vec: Vectors, t: Atoms, into: seq<Cell>, s: seq<octet>)
    ensures var r := Load(vec, t, into, s); r.Loaded? ==> |r.value| == |into|
    decreases t
  {
    match t
    case Nil =>
    case Byte(at, rest) =>
      if s != [] && at < |into| {
        LoadLength(vec, rest, into[at := Raw(s[0])], s[1..]);
      }
    case Box(at, h, elem, rest) =>
      if |s| >= 8 && at < |into| && into[at].Head? && h in vec {
        var n := Decoded(s[..8]);
        if n == 0 {
          LoadLength(vec, rest, into, s[8..]);
        } else {
          var r := LoadEach(vec, elem, Resized(vec[h], into[at].elems, n), s[8..]);
          if r.Loaded? {
            LoadLength(vec, rest, into[at := Head(r.value)], r.left);
          }
        }
      }
  }

  /** Dumping a value of any type and loading the bytes into a value without elements gives a value that compares equal. */
  method DumpLoadInto(ghost n: nat, env: Sizes, vec: Vectors, kinds: Kinds, t: Type, mem: seq<Cell>, zone: Zone) returns (ok: bool)
    requires Supported(env, vec, kinds, t) && Depth(t) <= n
    requires |mem| == |zone.cells| == Size(t) && IsValue(false, t, 0, mem) && IsValue(true, t, 0, zone.cells)
    modifies zone
    ensures ok
    ensures Same(Visits(t, 0, Nil), zone.cells, mem) && SameValue(t, 0, zone.cells, mem)
  {
    var w, bytes := DumpValue(env, vec, kinds, t, mem);
    ghost var c := Types.LayoutOf(t, true, true);
    Prepared(env, vec, kinds, t, true, zone.cells);
    LoadsSame(env, vec, kinds, t, mem, zone.cells, bytes);
    ReadsWords(w, 0, c);
    ok := LoadBuffer(env, vec, zone, bytes, w, TrailingPadding(t), c);
    if ok {
      ComparesWell(env, vec, kinds, t);
      var same;
      same, ok := Compare(n, env, vec, kinds, t, zone.cells, mem);
      ok := ok && same;
      SameExactly(t, 0, Nil, zone.cells, mem);
    }
  }

  /**
   The same into raw memory, which is initialised first: layout, init, dump, load and compare, one after the other, on
   any value of any supported type.
   */
  method DumpLoadCompare(ghost n: nat, env: Sizes, vec: Vectors, kinds: Kinds, t: Type, mem: seq<Cell>, zone: Zone) returns (ok: bool)
    requires Supported(env, vec, kinds, t) && Depth(t) <= n
    requires |mem| == |zone.cells| == Size(t) && IsValue(false, t, 0, mem) && AllRaw(zone.cells, 0, Size(t))
    modifies zone
    ensures ok
    ensures Same(Visits(t, 0, Nil), zone.cells, mem) && SameValue(t, 0, zone.cells, mem)
  {
    InitialisesWell(env, vec, kinds, t);
    ok := InitValue(env, t, zone);
    if ok {
      ok := DumpLoadInto(n, env, vec, kinds, t, mem, zone);
    }
  }

  lemma InitialisesWell(env: Sizes, vec: Vectors, kinds: Kinds, t: Type)
    requires Supported(env, vec, kinds, t)
    ensures Described(env, t) && B.Safe(t, true) && Runs(InitLayoutOf(t))
  {
    ModelledIsDescribed(env, vec, t);
    B.LayoutIsSafe(env, t, true);
    InitLayoutRuns(t);
  }

  /** The layout that compare uses exists too, and runs to its end. */
  lemma ComparesWell(env: Sizes, vec: Vectors, kinds: Kinds, t: Type)
    requires Supported(env, vec, kinds, t)
    ensures Accepts(t, true, false) && B.Safe(t, false) && Completes(Types.LayoutOf(t, false, true))
  {
    ModelledIsDescribed(env, vec, t);
    LayoutCompletes(t, false, true);
    AcceptsMore(t, true, false);
    B.LayoutIsSafe(env, t, false);
  }

  lemma Prepared(env: Sizes, vec: Vectors, kinds: Kinds, t: Type, blank: bool, mem: seq<Cell>)
    requires Supported(env, vec, kinds, t) && IsValue(blank, t, 0, mem)
    ensures B.Safe(t, true)
    ensures var c := Types.LayoutOf(t, true, true);
            && Fits(env, vec, c) && Backed(env, vec, c) && Span(env, c) <= Size(t) && Sound(vec, Marshalled(env, t, true), 0)
            && Marshalled(env, t, true) == Trace(env, c, 0, Nil) && Shaped(vec, Marshalled(env, t, true), mem)
  {
    ModelledIsDescribed(env, vec, t);
    B.LayoutIsSafe(env, t, true);
    LayoutRuns(env, vec, t, true, blank, mem);
    MergedTrace(env, Types.Raw(t), true);
    RawIsExact(env, t, 0, Nil);
  }

  lemma Comparable(env: Sizes, vec: Vectors, t: Type, a: seq<Cell>, b: seq<Cell>)
    requires Ordered(t) && Modelled(env, vec, t) && Shaped(vec, Marshalled(env, t, true), a) && Shaped(vec, Marshalled(env, t, true), b)
    ensures Shaped(vec, Visits(t, 0, Nil), a) && Shaped(vec, Visits(t, 0, Nil), b)
  {
    ModelledIsDescribed(env, vec, t);
    var layoutVisits, typeVisits := MergedLayoutCovers(env, t, true);
    ShapedCovered(vec, Marshalled(env, t, true), Visits(t, 0, Nil), a);
    ShapedCovered(vec, Marshalled(env, t, true), Visits(t, 0, Nil), b);
  }
}
