/** What swapping the byte order leaves, place by place, and which types it is refused for, part by part. */
module SwapPlaces {
  import opened Octets
  import opened Types
  import opened Places
  import opened EndianCode
  import opened EndianSwap
  import opened EndianRun
  import opened EndianTheorems

  // ----- what is accepted -----

  /** A structure, an array, an enumeration or a number of a usual width. */
  ghost predicate Usual(t: Type) {
    && !t.ContainerType? && !t.PointerType? && !t.OpaqueType?
    && (t.NumericType? ==> t.size == 1 || t.size == 2 || t.size == 4 || t.size == 8)
  }

  ghost predicate AllUsual(parts: seq<Type>) {
    forall k :: 0 <= k < |parts| ==> Usual(parts[k])
  }

  lemma UsualBoth(p: seq<Type>, q: seq<Type>)
    ensures AllUsual(p + q) <==> AllUsual(p) && AllUsual(q)
  {
    if AllUsual(p + q) {
      assert forall k :: 0 <= k < |p| ==> p[k] == (p + q)[k];
      assert forall k :: 0 <= k < |q| ==> q[k] == (p + q)[|p| + k];
    }
  }

  lemma {:induction false} SupportedExactly(t: Type)
    requires Ordered(t)
    ensures Supported(t) <==> AllUsual(Parts(t))
    decreases t
  {
    assert AllUsual([t]) <==> Usual(t) by {
      assert [t][0] == t;
    }
    match t
    case ArrayType(_, elem) =>
      SupportedExactly(elem);
      UsualBoth([t], Parts(elem));
    case ContainerType(_, _, elem) =>
      UsualBoth([t], Parts(elem));
    case CompoundType(fields, size) =>
      SupportedFieldsExactly(fields, 0, size);
      UsualBoth([t], PartsOfFields(fields));
    case _ =>
  }

  lemma {:induction false} SupportedFieldsExactly(fs: Fields, at: nat, size: nat)
    requires OrderedFields(fs, at, size)
    ensures SupportedFields(fs, at) <==> AllUsual(PartsOfFields(fs))
    decreases fs
  {
    if fs.FieldAt? {
      SupportedExactly(fs.typ);
      SupportedFieldsExactly(fs.rest, fs.offset + Size(fs.typ), size);
      UsualBoth(Parts(fs.typ), PartsOfFields(fs.rest));
    }
  }

  // ----- what becomes of the bytes -----

  /** The number of bytes that are turned round: four in an enumeration, all of them in a number. */
  ghost function Turned(p: Spot): nat {
    if p.typ.EnumType? then 4 else Size(p.typ)
  }

  /** Byte `i` of the output, if it belongs to the place, is the byte of the input as far from the other end of the place. */
  ghost predicate TurnedByte(p: Spot, input: seq<octet>, output: seq<octet>, i: nat)
    requires p.at + Turned(p) <= |input| && p.at + Turned(p) <= |output|
  {
    p.at <= i < p.at + Turned(p) ==> output[i] == input[p.at + Turned(p) - 1 - (i - p.at)]
  }

  ghost predicate TurnedRound(p: Spot, input: seq<octet>, output: seq<octet>) {
    && p.at + Turned(p) <= |input| && p.at + Turned(p) <= |output|
    && forall i: nat :: TurnedByte(p, input, output, i)
  }

  ghost predicate Outside(places: seq<Spot>, i: nat) {
    forall k :: 0 <= k < |places| ==> !(places[k].at <= i < places[k].at + Turned(places[k]))
  }

  /** Every place is turned round, and the bytes up to `end` that belong to none are the same. */
  ghost predicate AllTurned(places: seq<Spot>, end: nat, input: seq<octet>, output: seq<octet>) {
    && (forall k :: 0 <= k < |places| ==> TurnedRound(places[k], input, output))
    && end <= |input| && end <= |output| && forall i: nat :: i < end && Outside(places, i) ==> output[i] == input[i]
  }

  /** The same places, as the list of leaves that the visitor goes through; then `rest`. */
  ghost function Chained(places: seq<Spot>, rest: Leaves): Leaves {
    if places == [] then rest else Leaf(places[0].at, Turned(places[0]), Chained(places[1..], rest))
  }

  lemma {:induction false} ChainedBoth(p: seq<Spot>, q: seq<Spot>, rest: Leaves)
    ensures Chained(p + q, rest) == Chained(p, Chained(q, rest))
  {
    if p == [] {
      assert p + q == q;
    } else {
      assert (p + q)[1..] == p[1..] + q;
      ChainedBoth(p[1..], q, rest);
    }
  }

  lemma {:induction false} LeavesArePlaces(t: Type, off: nat, rest: Leaves)
    ensures LeavesOf(t, off, rest) == Chained(PlacesOf(t, off), rest)
    decreases t, 0
  {
    match t
    case ArrayType(dimension, elem) => LeavesArePlacesEach(elem, dimension, off, rest);
    case CompoundType(fields, _) => LeavesArePlacesFields(fields, off, rest);
    case _ =>
      var places := PlacesOf(t, off);
      assert places == [Spot(off, t)] && places[1..] == [];
      assert Chained(places[1..], rest) == rest;
  }

  lemma {:induction false} LeavesArePlacesEach(elem: Type, k: nat, off: nat, rest: Leaves)
    ensures LeavesEach(elem, k, off, rest) == Chained(PlacesOfEach(elem, k, off), rest)
    decreases elem, k + 1
  {
    if k > 0 {
      var p, q := PlacesOf(elem, off), PlacesOfEach(elem, k - 1, off + Size(elem));
      LeavesArePlacesEach(elem, k - 1, off + Size(elem), rest);
      LeavesArePlaces(elem, off, Chained(q, rest));
      ChainedBoth(p, q, rest);
    }
  }

  lemma {:induction false} LeavesArePlacesFields(fs: Fields, base: nat, rest: Leaves)
    ensures LeavesFields(fs, base, rest) == Chained(PlacesOfFields(fs, base), rest)
    decreases fs, 0
  {
    if fs.FieldAt? {
      var p, q := PlacesOf(fs.typ, base + fs.offset), PlacesOfFields(fs.rest, base);
      LeavesArePlacesFields(fs.rest, base, rest);
      LeavesArePlaces(fs.typ, base + fs.offset, Chained(q, rest));
      ChainedBoth(p, q, rest);
    }
  }

  ghost predicate SameBeside(p: Spot, a: seq<octet>, b: seq<octet>, i: nat)
    requires |a| == |b|
  {
    i < |a| && !(p.at <= i < p.at + Turned(p)) ==> a[i] == b[i]
  }

  /** `m` is `mem` with one place turned round. */
  ghost predicate OneTurned(p: Spot, mem: seq<octet>, m: seq<octet>) {
    |m| == |mem| && TurnedRound(p, mem, m) && forall i: nat :: SameBeside(p, m, mem, i)
  }

  lemma BackToFront(mem: seq<octet>, at: nat, end: nat, s: seq<octet>, i: nat)
    requires at <= end <= |mem| && s == Reversed(mem[at..end]) && i < |s|
    ensures s[i] == mem[end - 1 - i]
  {
    var t := mem[at..end];
    assert s[i] == t[|t| - 1 - i];
  }

  lemma AllBackToFront(mem: seq<octet>, at: nat, end: nat, s: seq<octet>)
    requires at <= end <= |mem| && s == Reversed(mem[at..end])
    ensures forall i: nat :: i < |s| ==> s[i] == mem[end - 1 - i]
  {
    forall i: nat | i < |s| ensures s[i] == mem[end - 1 - i] {
      BackToFront(mem, at, end, s, i);
    }
  }

  lemma OverTurns(p: Spot, end: nat, mem: seq<octet>, s: seq<octet>, m: seq<octet>)
    requires end == p.at + Turned(p) <= |mem| && |s| == Turned(p) && m == Over(mem, p.at, s)
    requires forall i: nat :: i < |s| ==> s[i] == mem[end - 1 - i]
    ensures OneTurned(p, mem, m)
  {
    forall i: nat ensures TurnedByte(p, mem, m, i) && SameBeside(p, m, mem, i) {
      if p.at <= i < end {
        var j: nat := i - p.at;
        assert m[i] == s[j] == mem[end - 1 - j];
      }
    }
  }

  lemma OnePlace(p: Spot, end: nat, mem: seq<octet>) returns (m: seq<octet>)
    requires end == p.at + Turned(p) <= |mem|
    ensures m == Over(mem, p.at, Reversed(mem[p.at..end])) && OneTurned(p, mem, m)
  {
    var s := Reversed(mem[p.at..end]);
    AllBackToFront(mem, p.at, end, s);
    m := Over(mem, p.at, s);
    OverTurns(p, end, mem, s, m);
  }

  /** The first place of the chain, and what is left to do. */
  lemma ChainStep(places: seq<Spot>, lo: nat, hi: nat, mem: seq<octet>, fin: seq<octet>) returns (end: nat, m: seq<octet>)
    requires places != [] && Spaced(Chained(places, NoLeaf), lo, hi) && hi <= |mem| && fin == InPlace(Chained(places, NoLeaf), mem)
    ensures lo <= places[0].at && end == places[0].at + Turned(places[0]) <= hi && OneTurned(places[0], mem, m)
    ensures Spaced(Chained(places[1..], NoLeaf), end, hi) && fin == InPlace(Chained(places[1..], NoLeaf), m)
  {
    var ls, p := Chained(places, NoLeaf), places[0];
    end := ls.at + ls.n;
    SpacedEnd(ls.rest, end, hi);
    m := OnePlace(p, end, mem);
    FirstInPlace(ls, mem, m);
  }

  /** Turning round the places one after the other, in place. */
  lemma {:induction false} ChainTurns(places: seq<Spot>, lo: nat, hi: nat, mem: seq<octet>, fin: seq<octet>, k: nat)
    requires Spaced(Chained(places, NoLeaf), lo, hi) && hi <= |mem| && fin == InPlace(Chained(places, NoLeaf), mem) && k < |places|
    ensures lo <= places[k].at && places[k].at + Turned(places[k]) <= hi && TurnedRound(places[k], mem, fin)
    decreases |places|
  {
    var end, m := ChainStep(places, lo, hi, mem, fin);
    if k == 0 {
      InPlaceAround(Chained(places[1..], NoLeaf), end, hi, m);
      SettledPlace(places[0], end, mem, m, fin);
    } else {
      ChainTurns(places[1..], end, hi, m, fin, k - 1);
      LaterTurned(places[k], places[0], end, mem, m, fin);
    }
  }

  lemma {:induction false} ChainKeeps(places: seq<Spot>, lo: nat, hi: nat, mem: seq<octet>, fin: seq<octet>, i: nat)
    requires Spaced(Chained(places, NoLeaf), lo, hi) && hi <= |mem| && fin == InPlace(Chained(places, NoLeaf), mem)
    requires i < |mem| && Outside(places, i)
    ensures fin[i] == mem[i]
    decreases |places|
  {
    if places != [] {
      var end, m := ChainStep(places, lo, hi, mem, fin);
      assert SameBeside(places[0], m, mem, i);
      assert forall k :: 0 <= k < |places[1..]| ==> places[1..][k] == places[k + 1];
      ChainKeeps(places[1..], end, hi, m, fin, i);
    }
  }

  lemma LaterTurned(p: Spot, first: Spot, end: nat, mem: seq<octet>, m: seq<octet>, fin: seq<octet>)
    requires OneTurned(first, mem, m) && end == first.at + Turned(first) <= p.at && TurnedRound(p, m, fin)
    ensures TurnedRound(p, mem, fin)
  {
    forall i: nat ensures TurnedByte(p, mem, fin, i) {
      assert TurnedByte(p, m, fin, i);
      if p.at <= i < p.at + Turned(p) {
        assert SameBeside(first, m, mem, p.at + Turned(p) - 1 - (i - p.at));
      }
    }
  }

  lemma PlacesSpaced(t: Type)
    requires Swappable(t) && Ordered(t)
    ensures Spaced(Chained(PlacesOf(t, 0), NoLeaf), 0, End(t)) && LeavesOf(t, 0, NoLeaf) == Chained(PlacesOf(t, 0), NoLeaf)
  {
    MirroredFeeds(t, 0, End(t), NoLeaf, End(t), Stop);
    LeavesArePlaces(t, 0, NoLeaf);
  }

  /** What agrees with the swapped value up to the last leaf has every place turned round, and every other byte as it was. */
  lemma SettledTurns(t: Type, input: seq<octet>, before: seq<octet>, output: seq<octet>)
    requires Swappable(t) && Ordered(t) && End(t) <= |input| && Settles(before, output, Swapped(t, input), 0, End(t))
    ensures AllTurned(PlacesOf(t, 0), End(t), input, output)
  {
    var places := PlacesOf(t, 0);
    PlacesSpaced(t);
    forall k | 0 <= k < |places| ensures TurnedRound(places[k], input, output) {
      ChainTurns(places, 0, End(t), input, Swapped(t, input), k);
      SettledPlace(places[k], End(t), input, Swapped(t, input), output);
    }
    forall i: nat | i < End(t) && Outside(places, i) ensures output[i] == input[i] {
      ChainKeeps(places, 0, End(t), input, Swapped(t, input), i);
      assert SameAt(output, Swapped(t, input), 0, End(t), i);
    }
  }

  lemma SettledPlace(p: Spot, end: nat, input: seq<octet>, m: seq<octet>, output: seq<octet>)
    requires TurnedRound(p, input, m) && Alike(output, m, 0, end) && p.at + Turned(p) <= end
    ensures TurnedRound(p, input, output)
  {
    forall i: nat ensures TurnedByte(p, input, output, i) {
      assert TurnedByte(p, input, m, i) && SameAt(output, m, 0, end, i);
    }
  }
}
