/** Running a swap program, and what it makes of a value. */
module EndianRun {
  import opened Tracing
  import opened Octets
  import opened Types
  import opened EndianCode
  import opened EndianCompiler

  // ----- filling the output -----

  datatype Poured = Spilled | Poured(bytes: seq<octet>)

  /** The output from position `o` on filled from the input; `Spilled` if either is too short. */
  function Pour(feed: Feed, o: nat, bytes: seq<octet>, input: seq<octet>): (r: Poured)
    ensures r.Poured? ==> |r.bytes| == |bytes|
    decreases feed
  {
    match feed
    case Stop => Poured(bytes)
    case From(src, rest) =>
      if o < |bytes| && src < |input| then Pour(rest, o + 1, bytes[o := input[src]], input) else Spilled
  }

  function Then(a: Feed, b: Feed): Feed {
    match a
    case Stop => b
    case From(src, rest) => From(src, Then(rest, b))
  }

  function Length(f: Feed): nat {
    if f.Stop? then 0 else 1 + Length(f.rest)
  }

  lemma {:induction false} PourThen(a: Feed, b: Feed, o: nat, bytes: seq<octet>, input: seq<octet>)
    ensures Pour(Then(a, b), o, bytes, input)
            == var r := Pour(a, o, bytes, input); if r.Spilled? then Spilled else Pour(b, o + Length(a), r.bytes, input)
    decreases a
  {
    if a.From? && o < |bytes| && a.src < |input| {
      PourThen(a.rest, b, o + 1, bytes[o := input[a.src]], input);
    }
  }

  lemma {:induction false} SameThen(off: nat, n: nat, s: Feed, t: Feed)
    ensures Same(off, n, Then(s, t)) == Then(Same(off, n, s), t) && Length(Same(off, n, s)) == n + Length(s)
    decreases n
  {
    if n > 0 {
      SameThen(off + 1, n - 1, s, t);
    }
  }

  lemma {:induction false} BackThen(off: nat, n: nat, s: Feed, t: Feed)
    ensures Back(off, n, Then(s, t)) == Then(Back(off, n, s), t) && Length(Back(off, n, s)) == n + Length(s)
    decreases n
  {
    if n > 0 {
      BackThen(off, n - 1, s, t);
    }
  }

  /** The bytes of a program do not depend on what follows it, and there are as many as it reaches. */
  lemma {:induction false} RunThen(c: Code, out: nat, inp: nat, s: Feed, t: Feed)
    ensures Run(c, out, inp, Then(s, t)) == Then(Run(c, out, inp, s), t) && Length(Run(c, out, inp, s)) == Reach(c) + Length(s)
    decreases c, 1
  {
    if !c.Done? {
      RunThen(c.next, out + StepReach(c), inp, s, t);
      StepThen(c, out, inp, Run(c.next, out + StepReach(c), inp, s), t);
    }
  }

  lemma {:induction false} StepThen(c: Code, out: nat, inp: nat, s: Feed, t: Feed)
    requires !c.Done?
    ensures Step(c, out, inp, Then(s, t)) == Then(Step(c, out, inp, s), t) && Length(Step(c, out, inp, s)) == StepReach(c) + Length(s)
    decreases c, 0
  {
    match c
    case Skip(n, _) => SameThen(out, n, s, t);
    case Swap(width, _) => BackThen(out, width, s, t);
    case Take(_, _) =>
    case Array(count, size, body, _) => RunEachThen(body, size, count, out, inp, s, t);
  }

  lemma {:induction false} RunEachThen(body: Code, size: nat, k: nat, out: nat, inp: nat, s: Feed, t: Feed)
    ensures RunEach(body, size, k, out, inp, Then(s, t)) == Then(RunEach(body, size, k, out, inp, s), t)
    ensures Length(RunEach(body, size, k, out, inp, s)) == Times(k, Reach(body)) + Length(s)
    decreases body, k + 2
  {
    if k > 0 {
      RunEachThen(body, size, k - 1, out + Reach(body), inp + size, s, t);
      RunThen(body, out, inp, RunEach(body, size, k - 1, out + Reach(body), inp + size, s), t);
    }
  }

  /** A block, then the rest. */
  lemma PourBlock(c: Code, out: nat, inp: nat, tail: Feed, bytes: seq<octet>, input: seq<octet>)
    ensures Pour(Run(c, out, inp, tail), out, bytes, input)
            == var r := Pour(Run(c, out, inp, Stop), out, bytes, input); if r.Spilled? then Spilled else Pour(tail, out + Reach(c), r.bytes, input)
  {
    RunThen(c, out, inp, Stop, tail);
    PourThen(Run(c, out, inp, Stop), tail, out, bytes, input);
  }

  // ----- single operations -----

  function Reversed(s: seq<octet>): (r: seq<octet>)
    ensures |r| == |s| && forall i :: 0 <= i < |s| ==> r[i] == s[|s| - 1 - i]
  {
    if s == [] then [] else [s[|s| - 1]] + Reversed(s[..|s| - 1])
  }

  /** `s` written over `bytes` from `o` on. */
  function Over(bytes: seq<octet>, o: nat, s: seq<octet>): (r: seq<octet>)
    requires o + |s| <= |bytes|
    ensures |r| == |bytes| && forall i :: 0 <= i < |r| ==> r[i] == if o <= i < o + |s| then s[i - o] else bytes[i]
  {
    seq(|bytes|, i requires 0 <= i < |bytes| => if o <= i < o + |s| then s[i - o] else bytes[i])
  }

  lemma OverFirst(bytes: seq<octet>, o: nat, s: seq<octet>)
    requires s != [] && o + |s| <= |bytes|
    ensures Over(bytes[o := s[0]], o + 1, s[1..]) == Over(bytes, o, s)
  {
  }

  lemma OverNothing(bytes: seq<octet>, o: nat)
    requires o <= |bytes|
    ensures Over(bytes, o, []) == bytes
  {
  }

  lemma {:induction false} PourBackwards(off: nat, s: seq<octet>, tail: Feed, o: nat, bytes: seq<octet>, input: seq<octet>)
    requires o + |s| <= |bytes| && off + |s| <= |input| && forall i :: 0 <= i < |s| ==> s[i] == input[off + |s| - 1 - i]
    ensures Pour(Back(off, |s|, tail), o, bytes, input) == Pour(tail, o + |s|, Over(bytes, o, s), input)
    decreases |s|
  {
    if s == [] {
      OverNothing(bytes, o);
    } else {
      PourBackwards(off, s[1..], tail, o + 1, bytes[o := s[0]], input);
      OverFirst(bytes, o, s);
    }
  }

  lemma PourBack(off: nat, n: nat, tail: Feed, o: nat, bytes: seq<octet>, input: seq<octet>)
    requires o + n <= |bytes| && off + n <= |input|
    ensures Pour(Back(off, n, tail), o, bytes, input) == Pour(tail, o + n, Over(bytes, o, Reversed(input[off..off + n])), input)
  {
    PourBackwards(off, Reversed(input[off..off + n]), tail, o, bytes, input);
  }

  lemma {:induction false} PourSame(off: nat, n: nat, tail: Feed, bytes: seq<octet>, input: seq<octet>)
    requires off + n <= |bytes| && off + n <= |input|
    ensures Pour(Same(off, n, tail), off, bytes, input) == Pour(tail, off + n, Over(bytes, off, input[off..off + n]), input)
    decreases n
  {
    var s := input[off..off + n];
    if n == 0 {
      OverNothing(bytes, off);
    } else {
      PourSame(off + 1, n - 1, tail, bytes[off := input[off]], input);
      assert s[1..] == input[off + 1..off + n];
      OverFirst(bytes, off, s);
    }
  }

  // ----- the reference -----

  /** The numbers and enumerations of a value, in address order. */
  datatype Leaves = NoLeaf | Leaf(at: nat, n: nat, rest: Leaves)

  /** The leaves of a value of type `t` at `off`; then `rest`. */
  function LeavesOf(t: Type, off: nat, rest: Leaves): Leaves
    decreases t, 0
  {
    match t
    case ArrayType(dimension, elem) => LeavesEach(elem, dimension, off, rest)
    case CompoundType(fields, _) => LeavesFields(fields, off, rest)
    case _ => Leaf(off, Width(t), rest)
  }

  function LeavesEach(elem: Type, k: nat, off: nat, rest: Leaves): Leaves
    decreases elem, k + 1
  {
    if k == 0 then rest else LeavesOf(elem, off, LeavesEach(elem, k - 1, off + Size(elem), rest))
  }

  function LeavesFields(fs: Fields, base: nat, rest: Leaves): Leaves
    decreases fs, 0
  {
    match fs
    case NoMore => rest
    case FieldAt(_, offset, typ, more) => LeavesOf(typ, base + offset, LeavesFields(more, base, rest))
  }

  /** `EndianSwapVisitor`: every leaf reversed in place, one after the other. */
  function InPlace(ls: Leaves, mem: seq<octet>): (r: seq<octet>)
    ensures |r| == |mem|
    decreases ls
  {
    if ls.NoLeaf? then mem
    else InPlace(ls.rest, if ls.at + ls.n <= |mem| then Over(mem, ls.at, Reversed(mem[ls.at..ls.at + ls.n])) else mem)
  }

  /** Leaves in order, apart, and from `lo` to `hi`. */
  ghost predicate Spaced(ls: Leaves, lo: nat, hi: nat) {
    if ls.NoLeaf? then lo <= hi else lo <= ls.at && Spaced(ls.rest, ls.at + ls.n, hi)
  }

  lemma {:induction false} SpacedEnd(ls: Leaves, lo: nat, hi: nat)
    requires Spaced(ls, lo, hi)
    ensures lo <= hi
  {
    if ls.Leaf? {
      SpacedEnd(ls.rest, ls.at + ls.n, hi);
    }
  }

  // ----- the bytes of the swapped value -----

  /** From `lo` to `hi`: leaves back to front, and what is between them as it is. */
  function FeedOf(ls: Leaves, lo: nat, hi: nat, tail: Feed): Feed
    requires Spaced(ls, lo, hi)
    decreases ls
  {
    if ls.NoLeaf? then Same(lo, hi - lo, tail)
    else Same(lo, ls.at - lo, Back(ls.at, ls.n, FeedOf(ls.rest, ls.at + ls.n, hi, tail)))
  }

  lemma GapFeeds(ls: Leaves, lo: nat, m: nat, hi: nat, tail: Feed)
    requires lo <= m && Spaced(ls, m, hi)
    ensures Spaced(ls, lo, hi) && FeedOf(ls, lo, hi, tail) == Same(lo, m - lo, FeedOf(ls, m, hi, tail))
  {
    SpacedEnd(ls, m, hi);
    if ls.NoLeaf? {
      SameTwice(lo, m - lo, hi - m, tail);
    } else {
      SameTwice(lo, m - lo, ls.at - m, Back(ls.at, ls.n, FeedOf(ls.rest, ls.at + ls.n, hi, tail)));
    }
  }

  /** A value, then what follows it. */
  lemma {:induction false} MirroredFeeds(t: Type, off: nat, end: nat, ls: Leaves, hi: nat, tail: Feed)
    requires Swappable(t) && Ordered(t) && end == off + End(t) && Spaced(ls, end, hi)
    ensures Spaced(LeavesOf(t, off, ls), off, hi)
    ensures Mirrored(t, off, FeedOf(ls, end, hi, tail)) == FeedOf(LeavesOf(t, off, ls), off, hi, tail)
    decreases t, 0
  {
    match t
    case ArrayType(dimension, elem) => EachFeeds(elem, dimension, off, end, ls, hi, tail);
    case CompoundType(fields, size) =>
      if fields.FieldAt? {
        FieldsFeed(fields, 0, size, off, off, end, ls, hi, tail);
      } else {
        assert LeavesOf(t, off, ls) == ls && Mirrored(t, off, FeedOf(ls, end, hi, tail)) == FeedOf(ls, end, hi, tail);
      }
    case NumericType(size) => LoneFeed(off, size, ls, hi, tail);
    case EnumType(_, _) => LoneFeed(off, SIZE_OF_ENUM, ls, hi, tail);
    case _ =>
  }

  lemma LoneFeed(off: nat, n: nat, ls: Leaves, hi: nat, tail: Feed)
    requires Spaced(ls, off + n, hi)
    ensures Spaced(Leaf(off, n, ls), off, hi)
    ensures FeedOf(Leaf(off, n, ls), off, hi, tail) == Back(off, n, FeedOf(ls, off + n, hi, tail))
  {
    assert Same(off, 0, Back(off, n, FeedOf(ls, off + n, hi, tail))) == Back(off, n, FeedOf(ls, off + n, hi, tail));
  }

  lemma {:induction false} EachFeeds(elem: Type, k: nat, off: nat, end: nat, ls: Leaves, hi: nat, tail: Feed)
    requires k > 0 && Swappable(elem) && Ordered(elem) && end == off + Times(k - 1, Size(elem)) + End(elem) && Spaced(ls, end, hi)
    ensures Spaced(LeavesEach(elem, k, off, ls), off, hi)
    ensures MirroredEach(elem, k, off, FeedOf(ls, end, hi, tail)) == FeedOf(LeavesEach(elem, k, off, ls), off, hi, tail)
    decreases elem, k + 1
  {
    var mid := off + Size(elem);
    var more := LeavesEach(elem, k - 1, mid, ls);
    if k > 1 {
      TightIsExact(elem);
      EachFeeds(elem, k - 1, mid, end, ls, hi, tail);
      GapFeeds(more, off + End(elem), mid, hi, tail);
      NextMirrored(elem, k, off, FeedOf(ls, end, hi, tail));
    }
    MirroredFeeds(elem, off, off + End(elem), more, hi, tail);
    assert LeavesEach(elem, k, off, ls) == LeavesOf(elem, off, more);
  }

  lemma NextMirrored(elem: Type, k: nat, off: nat, tail: Feed)
    requires k > 1
    ensures MirroredEach(elem, k, off, tail) == Mirrored(elem, off, Same(off + End(elem), Pad(elem), MirroredEach(elem, k - 1, off + Size(elem), tail)))
  {
  }

  lemma {:induction false} FieldsFeed(fs: Fields, at: nat, size: nat, base: nat, lo: nat, end: nat, ls: Leaves, hi: nat, tail: Feed)
    requires fs.FieldAt? && SwappableFields(fs) && OrderedFields(fs, at, size)
    requires lo == base + at && end == base + EndOf(fs) && Spaced(ls, end, hi)
    ensures Spaced(LeavesFields(fs, base, ls), lo, hi)
    ensures MirroredFields(fs, at, base, FeedOf(ls, end, hi, tail)) == FeedOf(LeavesFields(fs, base, ls), lo, hi, tail)
    decreases fs, 0
  {
    var start, next, more := base + fs.offset, fs.offset + Size(fs.typ), LeavesFields(fs.rest, base, ls);
    TightIsExact(fs.typ);
    if fs.rest.FieldAt? {
      FieldsFeed(fs.rest, next, size, base, base + next, end, ls, hi, tail);
      GapFeeds(more, start + End(fs.typ), base + next, hi, tail);
    }
    MirroredFeeds(fs.typ, start, start + End(fs.typ), more, hi, tail);
    GapFeeds(LeavesFields(fs, base, ls), lo, start, hi, tail);
  }

  // ----- what the output holds -----

  /** The two memories hold the same bytes from `lo` to `hi`. */
  ghost predicate Alike(a: seq<octet>, b: seq<octet>, lo: nat, hi: nat) {
    hi <= |a| && hi <= |b| && forall i :: SameAt(a, b, lo, hi, i)
  }

  ghost predicate SameAt(a: seq<octet>, b: seq<octet>, lo: nat, hi: nat, i: nat) {
    lo <= i < hi && i < |a| && i < |b| ==> a[i] == b[i]
  }

  /** `b` is `bytes` with the bytes from `lo` to `hi` as they are in `m`. */
  ghost predicate Settles(bytes: seq<octet>, b: seq<octet>, m: seq<octet>, lo: nat, hi: nat) {
    |b| == |bytes| && Alike(b, m, lo, hi) && (forall i :: SameAt(b, bytes, 0, lo, i)) && (forall i :: SameAt(b, bytes, hi, |b|, i))
  }

  /** Swapping leaves concerns their range only. */
  lemma {:induction false} InPlaceAround(ls: Leaves, lo: nat, hi: nat, mem: seq<octet>)
    requires Spaced(ls, lo, hi) && hi <= |mem|
    ensures forall i :: SameAt(InPlace(ls, mem), mem, 0, lo, i)
    ensures forall i :: SameAt(InPlace(ls, mem), mem, hi, |mem|, i)
    decreases ls
  {
    if ls.Leaf? {
      SpacedEnd(ls.rest, ls.at + ls.n, hi);
      var m := Over(mem, ls.at, Reversed(mem[ls.at..ls.at + ls.n]));
      InPlaceAround(ls.rest, ls.at + ls.n, hi, m);
      FirstInPlace(ls, mem, m);
      forall i ensures SameAt(InPlace(ls, mem), mem, 0, lo, i) && SameAt(InPlace(ls, mem), mem, hi, |mem|, i) {
        assert SameAt(InPlace(ls.rest, m), m, 0, ls.at + ls.n, i) && SameAt(InPlace(ls.rest, m), m, hi, |m|, i);
      }
    }
  }

  /** The output with the gaps and the reversed leaves from `lo` to `hi` written over it. */
  function Filled(ls: Leaves, lo: nat, hi: nat, bytes: seq<octet>, input: seq<octet>): (r: seq<octet>)
    requires Spaced(ls, lo, hi) && hi <= |bytes| && hi <= |input|
    ensures |r| == |bytes|
    decreases ls
  {
    SpacedEnd(ls, lo, hi);
    if ls.NoLeaf? then Over(bytes, lo, input[lo..hi])
    else
      SpacedEnd(ls.rest, ls.at + ls.n, hi);
      Filled(ls.rest, ls.at + ls.n, hi, LeafOver(bytes, input, lo, ls.at, ls.n), input)
  }

  /** A gap copied and a leaf reversed. */
  function LeafOver(bytes: seq<octet>, input: seq<octet>, lo: nat, at: nat, n: nat): (r: seq<octet>)
    requires lo <= at && at + n <= |bytes| && at + n <= |input|
    ensures |r| == |bytes|
  {
    Over(Over(bytes, lo, input[lo..at]), at, Reversed(input[at..at + n]))
  }

  lemma {:induction false} FeedFills(ls: Leaves, lo: nat, hi: nat, bytes: seq<octet>, input: seq<octet>)
    requires Spaced(ls, lo, hi) && hi <= |bytes| && hi <= |input|
    ensures Pour(FeedOf(ls, lo, hi, Stop), lo, bytes, input) == Poured(Filled(ls, lo, hi, bytes, input))
    decreases ls
  {
    SpacedEnd(ls, lo, hi);
    if ls.NoLeaf? {
      PourSame(lo, hi - lo, Stop, bytes, input);
    } else {
      var end := ls.at + ls.n;
      SpacedEnd(ls.rest, end, hi);
      var bytes2 := LeafOver(bytes, input, lo, ls.at, ls.n);
      FeedFills(ls.rest, end, hi, bytes2, input);
      LeafFeeds(ls, lo, hi, bytes, bytes2, input, Filled(ls.rest, end, hi, bytes2, input));
    }
  }

  lemma LeafFeeds(ls: Leaves, lo: nat, hi: nat, bytes: seq<octet>, bytes2: seq<octet>, input: seq<octet>, r: seq<octet>)
    requires ls.Leaf? && Spaced(ls, lo, hi) && ls.at + ls.n <= |bytes| && ls.at + ls.n <= |input|
    requires bytes2 == LeafOver(bytes, input, lo, ls.at, ls.n) && Pour(FeedOf(ls.rest, ls.at + ls.n, hi, Stop), ls.at + ls.n, bytes2, input) == Poured(r)
    ensures Pour(FeedOf(ls, lo, hi, Stop), lo, bytes, input) == Poured(r)
  {
    LeafPours(lo, ls.at, ls.n, FeedOf(ls.rest, ls.at + ls.n, hi, Stop), bytes, input);
  }

  lemma LeafPours(lo: nat, at: nat, n: nat, tail: Feed, bytes: seq<octet>, input: seq<octet>)
    requires lo <= at && at + n <= |bytes| && at + n <= |input|
    ensures Pour(Same(lo, at - lo, Back(at, n, tail)), lo, bytes, input) == Pour(tail, at + n, LeafOver(bytes, input, lo, at, n), input)
  {
    PourSame(lo, at - lo, Back(at, n, tail), bytes, input);
    PourBack(at, n, tail, at, Over(bytes, lo, input[lo..at]), input);
  }

  /** What is written is the value that the reference gives. */
  lemma {:induction false} FilledSettles(ls: Leaves, lo: nat, hi: nat, bytes: seq<octet>, input: seq<octet>, cur: seq<octet>)
    returns (b: seq<octet>, fin: seq<octet>)
    requires Spaced(ls, lo, hi) && hi <= |bytes| && |cur| == |input| && Alike(cur, input, lo, hi)
    ensures b == Filled(ls, lo, hi, bytes, input) && fin == InPlace(ls, cur)
    ensures Settles(bytes, b, fin, lo, hi)
    decreases ls
  {
    SpacedEnd(ls, lo, hi);
    if ls.NoLeaf? {
      b, fin := Over(bytes, lo, input[lo..hi]), cur;
      NothingSettles(bytes, cur, input, lo, hi);
    } else {
      var at, end := ls.at, ls.at + ls.n;
      SpacedEnd(ls.rest, end, hi);
      var bytes2, cur2 := LeafOver(bytes, input, lo, at, ls.n), Over(cur, at, Reversed(cur[at..end]));
      LaterAlike(cur, cur2, input, lo, at, end, hi);
      b, fin := FilledSettles(ls.rest, end, hi, bytes2, input, cur2);
      StartAlike(ls.rest, end, hi, cur2, fin);
      FirstInPlace(ls, cur, cur2);
      FirstFilled(ls, lo, hi, bytes, bytes2, input);
      LeafSettles(bytes, bytes2, b, input, cur, cur2, fin, lo, at, ls.n, end, hi);
    }
  }

  lemma StartAlike(ls: Leaves, lo: nat, hi: nat, mem: seq<octet>, fin: seq<octet>)
    requires Spaced(ls, lo, hi) && hi <= |mem| && fin == InPlace(ls, mem)
    ensures Alike(fin, mem, 0, lo)
  {
    SpacedEnd(ls, lo, hi);
    InPlaceAround(ls, lo, hi, mem);
  }

  lemma FirstFilled(ls: Leaves, lo: nat, hi: nat, bytes: seq<octet>, bytes2: seq<octet>, input: seq<octet>)
    requires ls.Leaf? && Spaced(ls, lo, hi) && hi <= |bytes| && hi <= |input| && ls.at + ls.n <= hi
    requires bytes2 == LeafOver(bytes, input, lo, ls.at, ls.n)
    ensures Filled(ls, lo, hi, bytes, input) == Filled(ls.rest, ls.at + ls.n, hi, bytes2, input)
  {
  }

  lemma FirstInPlace(ls: Leaves, mem: seq<octet>, m: seq<octet>)
    requires ls.Leaf? && ls.at + ls.n <= |mem| && m == Over(mem, ls.at, Reversed(mem[ls.at..ls.at + ls.n]))
    ensures InPlace(ls, mem) == InPlace(ls.rest, m)
  {
  }

  lemma NothingSettles(bytes: seq<octet>, cur: seq<octet>, input: seq<octet>, lo: nat, hi: nat)
    requires lo <= hi <= |bytes| && Alike(cur, input, lo, hi)
    ensures Settles(bytes, Over(bytes, lo, input[lo..hi]), cur, lo, hi)
  {
    var b := Over(bytes, lo, input[lo..hi]);
    forall i ensures SameAt(b, cur, lo, hi, i) {
      assert SameAt(cur, input, lo, hi, i);
    }
  }

  lemma LaterAlike(cur: seq<octet>, cur2: seq<octet>, input: seq<octet>, lo: nat, at: nat, end: nat, hi: nat)
    requires lo <= at <= end <= hi && Alike(cur, input, lo, hi) && cur2 == Over(cur, at, Reversed(cur[at..end]))
    ensures Alike(cur2, input, end, hi) && cur[at..end] == input[at..end]
  {
    forall i ensures SameAt(cur2, input, end, hi, i) {
      assert SameAt(cur, input, lo, hi, i);
    }
    forall i | at <= i < end ensures cur[i] == input[i] {
      assert SameAt(cur, input, lo, hi, i);
    }
  }

  lemma LeafSettles(bytes: seq<octet>, bytes2: seq<octet>, b: seq<octet>, input: seq<octet>, cur: seq<octet>, cur2: seq<octet>, fin: seq<octet>, lo: nat, at: nat, n: nat, end: nat, hi: nat)
    requires lo <= at <= end == at + n <= hi <= |bytes| && hi <= |input| && |cur| == |fin| && Alike(cur, input, lo, hi) && cur[at..end] == input[at..end]
    requires bytes2 == LeafOver(bytes, input, lo, at, n) && Settles(bytes2, b, fin, end, hi)
    requires cur2 == Over(cur, at, Reversed(cur[at..end])) && Alike(fin, cur2, 0, end)
    ensures Settles(bytes, b, fin, lo, hi)
  {
    forall i ensures SameAt(b, fin, lo, hi, i) && SameAt(b, bytes, 0, lo, i) && SameAt(b, bytes, hi, |b|, i) {
      assert SameAt(b, bytes2, 0, end, i) && SameAt(b, bytes2, hi, |b|, i) && SameAt(b, fin, end, hi, i);
      assert SameAt(fin, cur2, 0, end, i) && SameAt(cur, input, lo, hi, i);
    }
  }
}
