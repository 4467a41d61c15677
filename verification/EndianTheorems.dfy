/** The compiled swap against the leaf by leaf swap. */
module EndianTheorems {
  import opened Octets
  import opened Types
  import opened EndianCode
  import opened EndianCompiler
  import opened EndianRun

  /** The value that the leaf by leaf visitor leaves in place. */
  function Swapped(t: Type, mem: seq<octet>): seq<octet> {
    InPlace(LeavesOf(t, 0, NoLeaf), mem)
  }

  /** What running the compiled program of a type makes of the output. */
  function Compiled(t: Type, bytes: seq<octet>, input: seq<octet>): Poured {
    Pour(Run(Emitted(Done, t, 0), 0, 0, Stop), 0, bytes, input)
  }

  /** The compiled swap gives the value of the visitor on every byte up to the last leaf, and touches no other. */
  lemma CompiledIsRight(t: Type, bytes: seq<octet>, input: seq<octet>)
    requires Swappable(t) && Ordered(t) && Tight(t) && End(t) <= |bytes| && End(t) <= |input|
    ensures var r := Compiled(t, bytes, input); r.Poured? && Settles(bytes, r.bytes, Swapped(t, input), 0, End(t))
  {
    var ls, hi := LeavesOf(t, 0, NoLeaf), End(t);
    EmittedAlone(t, 0, 0, Stop);
    MirroredFeeds(t, 0, hi, NoLeaf, hi, Stop);
    FeedFills(ls, 0, hi, bytes, input);
    forall i ensures SameAt(input, input, 0, hi, i) {
    }
    var b, fin := FilledSettles(ls, 0, hi, bytes, input, input);
  }

  ghost predicate Untouched(a: seq<octet>, b: seq<octet>, lo: nat) {
    |a| == |b| && forall i :: SameAt(a, b, lo, |b|, i)
  }

  /** Pouring touches as many bytes as it is fed. */
  lemma {:induction false} PourTouches(feed: Feed, o: nat, end: nat, bytes: seq<octet>, input: seq<octet>)
    requires end == o + Length(feed)
    ensures var r := Pour(feed, o, bytes, input); r.Poured? ==> Untouched(r.bytes, bytes, end)
    decreases feed
  {
    if feed.From? && o < |bytes| && feed.src < |input| {
      var b := bytes[o := input[feed.src]];
      PourTouches(feed.rest, o + 1, end, b, input);
      var r := Pour(feed.rest, o + 1, b, input);
      if r.Poured? {
        forall i ensures SameAt(r.bytes, bytes, end, |bytes|, i) {
          assert SameAt(r.bytes, b, end, |b|, i);
        }
      }
    }
  }

  /**
   It is right only there: with padding inside the value, the program stops before the end of the last
   leaf, so the last byte keeps whatever the output held.
   */
  lemma LooseFallsShort(t: Type, bytes: seq<octet>, input: seq<octet>)
    requires Swappable(t) && Ordered(t) && !Tight(t) && End(t) <= |bytes|
    ensures End(t) > 0
    ensures var r := Compiled(t, bytes, input); r.Poured? ==> r.bytes[End(t) - 1] == bytes[End(t) - 1]
  {
    var c := Emitted(Done, t, 0);
    TightIsExact(t);
    EmittedReach(Done, t, 0);
    RunThen(c, 0, 0, Stop, Stop);
    PourTouches(Run(c, 0, 0, Stop), 0, Reach(c), bytes, input);
    var r := Compiled(t, bytes, input);
    if r.Poured? {
      assert SameAt(r.bytes, bytes, Reach(c), |bytes|, End(t) - 1);
    }
  }

  /** Whatever the output held and whatever the value, the program gives the swapped value. */
  ghost predicate AlwaysRight(t: Type) {
    forall bytes: seq<octet>, input: seq<octet> ::
      End(t) <= |bytes| && End(t) <= |input| ==> IsRight(t, bytes, input, Compiled(t, bytes, input))
  }

  ghost predicate IsRight(t: Type, bytes: seq<octet>, input: seq<octet>, r: Poured) {
    r.Poured? && Settles(bytes, r.bytes, Swapped(t, input), 0, End(t))
  }

  function Filled(n: nat, b: octet): (r: seq<octet>)
    ensures |r| == n && forall i :: 0 <= i < n ==> r[i] == b
  {
    seq(n, i => b)
  }

  /** The compiled swap refines the leaf by leaf one exactly on the types without padding inside. */
  lemma RightExactlyWhenTight(t: Type)
    requires Swappable(t) && Ordered(t)
    ensures AlwaysRight(t) <==> Tight(t)
  {
    if Tight(t) {
      forall bytes: seq<octet>, input: seq<octet> | End(t) <= |bytes| && End(t) <= |input|
        ensures IsRight(t, bytes, input, Compiled(t, bytes, input))
      {
        CompiledIsRight(t, bytes, input);
      }
    } else {
      OneIsWrong(t, Filled(End(t), 0), Filled(End(t), 1), Filled(End(t), 0));
    }
  }

  /** Two outputs that differ in the last byte cannot both come out right. */
  lemma OneIsWrong(t: Type, a: seq<octet>, b: seq<octet>, input: seq<octet>)
    requires Swappable(t) && Ordered(t) && !Tight(t) && |a| == |b| == |input| == End(t)
    requires forall i :: 0 <= i < |a| ==> a[i] != b[i]
    ensures !IsRight(t, a, input, Compiled(t, a, input)) || !IsRight(t, b, input, Compiled(t, b, input))
  {
    LooseFallsShort(t, a, input);
    var r, s, m, last := Compiled(t, a, input), Compiled(t, b, input), Swapped(t, input), End(t) - 1;
    LooseFallsShort(t, b, input);
    assert IsRight(t, a, input, r) ==> SameAt(r.bytes, m, 0, End(t), last);
    assert IsRight(t, b, input, s) ==> SameAt(s.bytes, m, 0, End(t), last);
  }

  // ----- twice is nothing -----

  lemma ReversedTwice(s: seq<octet>)
    ensures Reversed(Reversed(s)) == s
  {
  }

  lemma {:induction false} InPlaceTwice(ls: Leaves, lo: nat, hi: nat, orig: seq<octet>, fin: seq<octet>, cur: seq<octet>, r: seq<octet>)
    requires Spaced(ls, lo, hi) && hi <= |orig| == |cur| && fin == InPlace(ls, orig) && r == InPlace(ls, cur)
    requires Alike(cur, fin, lo, hi)
    ensures Alike(r, orig, lo, hi)
    decreases ls
  {
    if ls.Leaf? {
      var at, end := ls.at, ls.at + ls.n;
      SpacedEnd(ls.rest, end, hi);
      var orig2, cur2 := Over(orig, at, Reversed(orig[at..end])), Over(cur, at, Reversed(cur[at..end]));
      FirstInPlace(ls, orig, orig2);
      FirstInPlace(ls, cur, cur2);
      StartAlike(ls.rest, end, hi, orig2, fin);
      StartAlike(ls.rest, end, hi, cur2, r);
      LeafTwice(orig, orig2, cur, cur2, fin, lo, at, end, hi);
      InPlaceTwice(ls.rest, end, hi, orig2, fin, cur2, r);
      RestTwice(orig, orig2, cur2, r, lo, at, end, hi);
    }
  }

  lemma LeafTwice(orig: seq<octet>, orig2: seq<octet>, cur: seq<octet>, cur2: seq<octet>, fin: seq<octet>, lo: nat, at: nat, end: nat, hi: nat)
    requires lo <= at <= end <= hi <= |orig| == |cur| == |fin|
    requires orig2 == Over(orig, at, Reversed(orig[at..end])) && cur2 == Over(cur, at, Reversed(cur[at..end]))
    requires Alike(cur, fin, lo, hi) && Alike(fin, orig2, 0, end)
    ensures Alike(cur2, fin, end, hi) && Alike(cur2, orig, lo, end)
  {
    forall i ensures SameAt(cur2, fin, end, hi, i) {
      assert SameAt(cur, fin, lo, hi, i);
    }
    forall i ensures SameAt(cur, orig2, lo, end, i) {
      assert SameAt(cur, fin, lo, hi, i) && SameAt(fin, orig2, 0, end, i);
    }
    LeafBack(orig, orig2, cur, lo, at, end);
    forall i ensures SameAt(cur2, orig, lo, end, i) {
      assert SameAt(cur, orig2, lo, end, i);
    }
  }

  /** Reversing a reversed leaf gives it back. */
  lemma LeafBack(orig: seq<octet>, orig2: seq<octet>, cur: seq<octet>, lo: nat, at: nat, end: nat)
    requires lo <= at <= end <= |orig| && orig2 == Over(orig, at, Reversed(orig[at..end])) && Alike(cur, orig2, lo, end)
    ensures Reversed(cur[at..end]) == orig[at..end]
  {
    var back := Reversed(orig[at..end]);
    forall i | 0 <= i < end - at ensures cur[at..end][i] == back[i] {
      assert SameAt(cur, orig2, lo, end, at + i);
    }
    assert cur[at..end] == back;
    ReversedTwice(orig[at..end]);
  }

  lemma RestTwice(orig: seq<octet>, orig2: seq<octet>, cur2: seq<octet>, r: seq<octet>, lo: nat, at: nat, end: nat, hi: nat)
    requires lo <= at <= end <= hi <= |orig| == |cur2| == |r| && orig2 == Over(orig, at, Reversed(orig[at..end]))
    requires Alike(cur2, orig, lo, end) && Alike(r, orig2, end, hi) && Alike(r, cur2, 0, end)
    ensures Alike(r, orig, lo, hi)
  {
    forall i ensures SameAt(r, orig, lo, hi, i) {
      assert SameAt(cur2, orig, lo, end, i) && SameAt(r, orig2, end, hi, i) && SameAt(r, cur2, 0, end, i);
    }
  }

  /** Swapping what a swap gave, with either swap, gives the input back on every byte of the value. */
  lemma CompiledTwice(t: Type, bytes: seq<octet>, bytes': seq<octet>, input: seq<octet>)
    requires Swappable(t) && Ordered(t) && Tight(t) && End(t) <= |bytes| == |input| && End(t) <= |bytes'|
    ensures var r := Compiled(t, bytes, input);
            && r.Poured?
            && var s := Compiled(t, bytes', r.bytes);
               s.Poured? && Alike(s.bytes, input, 0, End(t))
  {
    var ls, hi := LeavesOf(t, 0, NoLeaf), End(t);
    CompiledIsRight(t, bytes, input);
    var b := Compiled(t, bytes, input).bytes;
    CompiledIsRight(t, bytes', b);
    MirroredFeeds(t, 0, hi, NoLeaf, hi, Stop);
    InPlaceTwice(ls, 0, hi, input, Swapped(t, input), b, Swapped(t, b));
    var b' := Compiled(t, bytes', b).bytes;
    forall i ensures SameAt(b', input, 0, hi, i) {
      assert SameAt(b', Swapped(t, b), 0, hi, i) && SameAt(InPlace(ls, b), input, 0, hi, i);
    }
  }
}
