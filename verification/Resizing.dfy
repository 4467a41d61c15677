/**
 Changing the sizes of some types, and what follows for the types built from them.

 A request sets the size of a type. Every structure that holds a resized type then moves its fields and grows
 or shrinks, every array follows its elements, and a table of the sizes before the change (the memo) stops a type from
 being resized twice. A structure whose changes cancel out is not entered in the memo.
 */
module Resizing {
  /**
   What a type is built from. Types are numbered so that each comes after those it is built from: on
   recursive types the search does not end.
   */
  datatype Shape = Plain | Compound(fields: seq<nat>) | Indirect(of: nat) | Array(of: nat, dimension: nat)

  function FieldsOf(s: Shape): seq<nat> {
    if s.Compound? then s.fields else []
  }

  ghost predicate BuiltFrom(s: Shape, d: nat) {
    match s
    case Plain => false
    case Compound(fields) => d in fields
    case Indirect(of) => d == of
    case Array(of, _) => d == of
  }

  /** All that the shape is built from has a number below `t`. */
  ghost predicate Comes(s: Shape, t: nat) {
    match s
    case Plain => true
    case Compound(fields) => forall i :: 0 <= i < |fields| ==> fields[i] < t
    case Indirect(of) => of < t
    case Array(of, _) => of < t
  }

  /** A registry before the change, and the sizes that are asked for. */
  datatype Case = Case(shapes: seq<Shape>, sizes: seq<int>, offsets: seq<seq<int>>, want: map<nat, int>)

  ghost predicate WellFormed(c: Case) {
    && |c.sizes| == |c.offsets| == |c.shapes|
    && (forall t :: t in c.want ==> t < |c.shapes|)
    && (forall t :: 0 <= t < |c.shapes| ==> |c.offsets[t]| == |FieldsOf(c.shapes[t])|)
    && forall t: nat :: t < |c.shapes| ==> Comes(c.shapes[t], t)
  }

  // ----- what the sizes become -----

  ghost function After(c: Case, t: nat): int
    requires WellFormed(c) && t < |c.shapes|
    decreases t, 1
  {
    if t in c.want then c.want[t]
    else match c.shapes[t]
      case Plain => c.sizes[t]
      case Indirect(_) => c.sizes[t]
      case Compound(fields) => c.sizes[t] + Drift(c, t, |fields|)
      case Array(of, dimension) => if Touched(c, of) then dimension * After(c, of) else c.sizes[t]
  }

  /** By how much the first `i` fields of `t` change together. */
  ghost function Drift(c: Case, t: nat, i: nat): int
    requires WellFormed(c) && t < |c.shapes| && i <= |FieldsOf(c.shapes[t])|
    decreases t, 0, i
  {
    if i == 0 then 0
    else
      var f := FieldsOf(c.shapes[t])[i - 1];
      Drift(c, t, i - 1) + After(c, f) - c.sizes[f]
  }

  ghost predicate Touched(c: Case, t: nat)
    requires WellFormed(c) && t < |c.shapes|
    decreases t, 1
  {
    t in c.want || match c.shapes[t]
      case Plain => false
      case Compound(fields) => Drift(c, t, |fields|) != 0
      case Indirect(of) => Touched(c, of)
      case Array(of, _) => Touched(c, of)
  }

  lemma UntouchedKeeps(c: Case, t: nat)
    requires WellFormed(c) && t < |c.shapes| && !Touched(c, t)
    ensures After(c, t) == c.sizes[t]
  {
  }

  /** The changes of the fields cancel out, though some field moves. */
  ghost predicate Cancels(c: Case, t: nat)
    requires WellFormed(c) && t < |c.shapes|
  {
    && !Touched(c, t)
    && exists i :: 0 <= i < |FieldsOf(c.shapes[t])| && Drift(c, t, i) != 0
  }

  /** Some type that is not itself asked for is built from `t`. */
  ghost predicate Referred(c: Case, t: nat) {
    exists d :: Refers(c, d, t)
  }

  ghost predicate Refers(c: Case, d: nat, t: nat) {
    d < |c.shapes| && d !in c.want && BuiltFrom(c.shapes[d], t)
  }

  // ----- what a structure keeps -----

  /** The bytes between the end of a field and the next one. */
  ghost function Gap(sizes: seq<int>, offsets: seq<int>, fields: seq<nat>, i: nat): int
    requires i + 1 < |fields| == |offsets| && fields[i] < |sizes|
  {
    offsets[i + 1] - (offsets[i] + sizes[fields[i]])
  }

  ghost predicate SameGap(c: Case, sizes: seq<int>, offsets: seq<int>, t: nat, i: nat)
    requires WellFormed(c) && t < |c.shapes| == |sizes| && |offsets| == |FieldsOf(c.shapes[t])|
  {
    var fields := FieldsOf(c.shapes[t]);
    i + 1 < |fields| ==>
      Gap(sizes, offsets, fields, i) == Gap(c.sizes, c.offsets[t], fields, i)
  }

  /** The first field stays, every gap keeps its width and so does the padding behind the last field. */
  ghost predicate Tidy(c: Case, sizes: seq<int>, offsets: seq<int>, t: nat)
    requires WellFormed(c) && t < |c.shapes| == |sizes| && |offsets| == |FieldsOf(c.shapes[t])|
  {
    var fields, n := FieldsOf(c.shapes[t]), |offsets|;
    if n == 0 then sizes[t] == c.sizes[t]
    else
      && offsets[0] == c.offsets[t][0]
      && (forall i :: SameGap(c, sizes, offsets, t, i))
      && sizes[t] - offsets[n - 1] - sizes[fields[n - 1]] == c.sizes[t] - c.offsets[t][n - 1] - c.sizes[fields[n - 1]]
  }

  function Times(k: nat, d: int): int {
    if k == 0 then 0 else Times(k - 1, d) + d
  }

  /** The offsets after `k` rounds of moving every field by what comes before it. */
  ghost predicate Shifted(c: Case, offsets: seq<int>, t: nat, k: nat)
    requires WellFormed(c) && t < |c.shapes|
  {
    && |offsets| == |FieldsOf(c.shapes[t])|
    && forall i :: 0 <= i < |offsets| ==> offsets[i] == c.offsets[t][i] + Times(k, Drift(c, t, i))
  }

  // ----- the search -----

  /** A registry on the way: `visits` counts how often the fields of a type have been moved. */
  datatype State = State(sizes: seq<int>, offsets: seq<seq<int>>, memo: map<nat, int>, visits: seq<nat>)

  ghost predicate Sized(c: Case, s: State) {
    |s.sizes| == |s.offsets| == |s.visits| == |c.shapes| && forall t :: t in s.memo ==> t < |c.shapes|
  }

  /** A type in the memo is done; any other has its old size. */
  ghost predicate Fine(c: Case, s: State, t: nat)
    requires WellFormed(c) && Sized(c, s)
  {
    t < |c.shapes| ==>
      && Shifted(c, s.offsets[t], t, s.visits[t])
      && if t in s.memo then
           && Touched(c, t) && s.memo[t] == c.sizes[t] && s.sizes[t] == After(c, t)
           && s.visits[t] == if t in c.want then 0 else 1
         else
           && t !in c.want && s.sizes[t] == c.sizes[t]
           && (Touched(c, t) ==> s.visits[t] == 0)
  }

  ghost predicate FineBelow(c: Case, s: State, n: nat)
    requires WellFormed(c) && Sized(c, s)
  {
    forall t: nat :: t < n ==> Fine(c, s, t)
  }

  /** What a type outside the memo has been visited for: the loop over the registry, and a type built from it. */
  ghost predicate Counted(c: Case, s: State, looped: set<nat>, x: nat)
    requires Sized(c, s)
  {
    x < |c.shapes| && x !in s.memo ==>
      && (x in looped ==> s.visits[x] >= 1)
      && (Visited(c, s, x) ==> s.visits[x] >= if x in looped then 2 else 1)
  }

  ghost predicate Visited(c: Case, s: State, x: nat)
    requires Sized(c, s)
  {
    exists d: nat :: d < |c.shapes| && s.visits[d] > 0 && BuiltFrom(c.shapes[d], x)
  }

  ghost predicate AllCounted(c: Case, s: State, looped: set<nat>)
    requires Sized(c, s)
  {
    forall x :: Counted(c, s, looped, x)
  }

  /** All that is known of the types below `n`. */
  ghost predicate Held(c: Case, s: State, looped: set<nat>, n: nat)
    requires WellFormed(c)
  {
    Sized(c, s) && FineBelow(c, s, n) && AllCounted(c, s, looped)
  }

  ghost predicate SameAt(s: State, r: State, x: nat) {
    && |s.sizes| == |s.offsets| == |s.visits| == |r.sizes| == |r.offsets| == |r.visits|
    && (x in s.memo <==> x in r.memo) && (x in s.memo ==> s.memo[x] == r.memo[x])
    && (x < |s.sizes| ==> r.sizes[x] == s.sizes[x] && r.offsets[x] == s.offsets[x] && r.visits[x] == s.visits[x])
  }

  /** Only what is built upon is visited from elsewhere. */
  ghost predicate GrownAt(c: Case, s: State, r: State, t: nat, x: nat)
    requires Sized(c, s) && Sized(c, r)
  {
    && (x in s.memo ==> x in r.memo)
    && (x < |c.shapes| ==> s.visits[x] <= r.visits[x] && (x != t && !Referred(c, x) ==> r.visits[x] == s.visits[x]))
  }

  /** What happens on the way through `t`: nothing to the types after it, and the memo and the visits only grow. */
  ghost predicate Step(c: Case, s: State, r: State, t: nat)
    requires Sized(c, s) && Sized(c, r)
  {
    && (forall x: nat :: t < x ==> SameAt(s, r, x))
    && forall x: nat :: GrownAt(c, s, r, t, x)
  }

  /** Unless it is in the memo now, `x` has been visited once more. */
  ghost predicate Paid(c: Case, s: State, r: State, x: nat)
    requires Sized(c, s) && Sized(c, r)
  {
    x < |c.shapes| && x !in r.memo ==> s.visits[x] < r.visits[x]
  }

  lemma StepAgain(c: Case, s: State, q: State, r: State, t: nat, f: nat)
    requires Sized(c, s) && Sized(c, q) && Sized(c, r) && f < t && Refers(c, t, f)
    requires Step(c, s, q, t) && Step(c, q, r, f)
    ensures Step(c, s, r, t)
  {
    forall x: nat | t < x ensures SameAt(s, r, x) {
      assert SameAt(s, q, x) && SameAt(q, r, x);
    }
    forall x: nat ensures GrownAt(c, s, r, t, x) {
      assert GrownAt(c, s, q, t, x) && GrownAt(c, q, r, f, x);
    }
  }

  lemma PaidStays(c: Case, s: State, q: State, r: State, f: nat, x: nat)
    requires Sized(c, s) && Sized(c, q) && Sized(c, r) && Step(c, q, r, f) && Paid(c, s, q, x)
    ensures Paid(c, s, r, x)
  {
    assert GrownAt(c, q, r, f, x);
  }

  lemma FieldPaid(c: Case, s: State, p: State, q: State, r: State, t: nat, f: nat)
    requires Sized(c, s) && Sized(c, p) && Sized(c, q) && Sized(c, r) && f < |c.shapes|
    requires Step(c, s, q, t) && Step(c, q, r, f) && p.visits == q.visits && p.memo == q.memo && Paid(c, q, r, f)
    ensures Paid(c, s, r, f) && forall x: nat :: Paid(c, s, p, x) ==> Paid(c, s, r, x)
  {
    assert GrownAt(c, s, q, t, f);
    forall x: nat | Paid(c, s, p, x) ensures Paid(c, s, r, x) {
      PaidStays(c, s, q, r, f, x);
    }
  }

  lemma FineAgain(c: Case, q: State, r: State, looped: set<nat>, f: nat, t: nat)
    requires WellFormed(c) && Held(c, q, looped, t) && Held(c, r, looped, f + 1) && Step(c, q, r, f)
    ensures Held(c, r, looped, t)
  {
    forall x: nat | x < t ensures Fine(c, r, x) {
      assert Fine(c, q, x);
      assert f < x ==> SameAt(q, r, x);
    }
  }

  /** Only the offsets or the size of `t` are written. */
  lemma Written(c: Case, s: State, r: State, looped: set<nat>, t: nat)
    requires WellFormed(c) && Held(c, s, looped, t) && t < |c.shapes| && Sized(c, r)
    requires r.memo == s.memo && r.visits == s.visits && forall x: nat :: x != t ==> SameAt(s, r, x)
    ensures Held(c, r, looped, t) && Step(c, s, r, t)
  {
    forall x: nat | x < t ensures Fine(c, r, x) {
      assert Fine(c, s, x) && SameAt(s, r, x);
    }
    forall x ensures Counted(c, r, looped, x) {
      assert Counted(c, s, looped, x);
    }
  }

  /** All that `t` is built from has been visited once more, and so has `t`. */
  lemma VisitedOnce(c: Case, s: State, q: State, r: State, looped: set<nat>, t: nat)
    requires WellFormed(c) && t < |c.shapes| && Held(c, s, looped, t) && Held(c, q, looped, t) && Step(c, s, q, t)
    requires forall x: nat :: BuiltFrom(c.shapes[t], x) ==> Paid(c, s, q, x)
    requires r == q.(visits := q.visits[t := q.visits[t] + 1])
    ensures Held(c, r, looped, t) && Step(c, s, r, t)
  {
    forall x: nat | x < t ensures Fine(c, r, x) {
      assert Fine(c, q, x);
    }
    forall x ensures Counted(c, r, looped, x) {
      CountedOnce(c, s, q, r, looped, t, x);
    }
    forall x: nat | t < x ensures SameAt(s, r, x) {
      assert SameAt(s, q, x);
    }
    forall x: nat ensures GrownAt(c, s, r, t, x) {
      assert GrownAt(c, s, q, t, x);
    }
  }

  lemma CountedOnce(c: Case, s: State, q: State, r: State, looped: set<nat>, t: nat, x: nat)
    requires WellFormed(c) && t < |c.shapes| && Sized(c, s) && Sized(c, q) && Step(c, s, q, t)
    requires Counted(c, s, looped, x) && Counted(c, q, looped, x) && (BuiltFrom(c.shapes[t], x) ==> Paid(c, s, q, x))
    requires r == q.(visits := q.visits[t := q.visits[t] + 1])
    ensures Counted(c, r, looped, x)
  {
    if x < |c.shapes| && x !in r.memo && Visited(c, r, x) {
      assert GrownAt(c, s, q, t, x);
      var d: nat :| d < |c.shapes| && r.visits[d] > 0 && BuiltFrom(c.shapes[d], x);
      assert d != t ==> Visited(c, q, x);
    }
  }

  lemma Remembered(c: Case, s: State, r: State, looped: set<nat>, t: nat)
    requires WellFormed(c) && t < |c.shapes| && Held(c, s, looped, t) && t !in c.want && t !in s.memo
    requires r == s.(memo := s.memo[t := c.sizes[t]])
    requires Touched(c, t) && s.sizes[t] == After(c, t) && s.visits[t] == 1 && Shifted(c, s.offsets[t], t, 1)
    ensures Held(c, r, looped, t + 1) && Step(c, s, r, t)
  {
    forall x: nat | x < t + 1 ensures Fine(c, r, x) {
      assert x < t ==> Fine(c, s, x);
    }
    forall x ensures Counted(c, r, looped, x) {
      assert Counted(c, s, looped, x);
      assert Visited(c, r, x) == Visited(c, s, x);
    }
  }

  /** The first `i` fields have been moved once more. */
  ghost predicate Partly(c: Case, offsets: seq<int>, t: nat, k: nat, i: nat)
    requires WellFormed(c) && t < |c.shapes|
  {
    && |offsets| == |FieldsOf(c.shapes[t])|
    && forall j :: 0 <= j < |offsets| ==> offsets[j] == c.offsets[t][j] + Times(if j < i then k + 1 else k, Drift(c, t, j))
  }

  lemma MovesOne(c: Case, offsets: seq<int>, t: nat, k: nat, i: nat)
    requires WellFormed(c) && t < |c.shapes| && i < |FieldsOf(c.shapes[t])| && Partly(c, offsets, t, k, i)
    ensures Partly(c, offsets[i := offsets[i] + Drift(c, t, i)], t, k, i + 1)
  {
  }

  lemma StepThrough(c: Case, s: State, q: State, r: State, t: nat)
    requires Sized(c, s) && Sized(c, q) && Sized(c, r) && Step(c, s, q, t) && Step(c, q, r, t)
    ensures Step(c, s, r, t)
  {
    forall x: nat | t < x ensures SameAt(s, r, x) {
      assert SameAt(s, q, x) && SameAt(q, r, x);
    }
    forall x: nat ensures GrownAt(c, s, r, t, x) {
      assert GrownAt(c, s, q, t, x) && GrownAt(c, q, r, t, x);
    }
  }

  class Registry {
    const shapes: seq<Shape>
    var sizes: seq<int>
    var offsets: seq<seq<int>>
    var memo: map<nat, int>
    ghost var visits: seq<nat>

    constructor (shapes: seq<Shape>, sizes: seq<int>, offsets: seq<seq<int>>)
      ensures this.shapes == shapes && Now() == State(sizes, offsets, map[], seq(|shapes|, _ => 0))
    {
      this.shapes, this.sizes, this.offsets, this.memo := shapes, sizes, offsets, map[];
      this.visits := seq(|shapes|, _ => 0);
    }

    ghost function Now(): State
      reads this
    {
      State(sizes, offsets, memo, visits)
    }

    /** `Type::resize`. */
    method Resize(ghost c: Case, ghost looped: set<nat>, t: nat) returns (changed: bool)
      requires WellFormed(c) && shapes == c.shapes && t < |shapes| && Held(c, Now(), looped, t + 1)
      modifies this
      ensures Held(c, Now(), looped, t + 1) && Step(c, old(Now()), Now(), t)
      ensures changed == Touched(c, t) == (t in memo) && sizes[t] == After(c, t)
      ensures visits[t] == old(visits[t]) + if t in old(memo) then 0 else 1
      decreases t, 2
    {
      ghost var s := Now();
      assert Fine(c, s, t);
      if t in memo {
        return true;
      }
      var before := sizes[t];
      changed := DoResize(c, looped, t);
      ghost var q := Now();
      if changed {
        memo := memo[t := before];
        Remembered(c, q, Now(), looped, t);
        StepThrough(c, s, q, Now(), t);
      } else {
        UntouchedKeeps(c, t);
        assert Fine(c, q, t);
      }
    }

    /** `do_resize` of each kind of type. */
    method DoResize(ghost c: Case, ghost looped: set<nat>, t: nat) returns (changed: bool)
      requires WellFormed(c) && shapes == c.shapes && t < |shapes| && Held(c, Now(), looped, t + 1) && t !in memo
      modifies this
      ensures Held(c, Now(), looped, t) && Step(c, old(Now()), Now(), t)
      ensures changed == Touched(c, t) && sizes[t] == After(c, t) && t !in memo
      ensures visits[t] == old(visits[t]) + 1 && Shifted(c, offsets[t], t, visits[t])
      decreases t, 1
    {
      ghost var s := Now();
      assert Fine(c, s, t);
      changed := false;
      match shapes[t] {
        case Plain =>
        case Indirect(of) =>
          changed := ResizePart(c, looped, t, of);
        case Array(of, dimension) =>
          changed := ResizeArray(c, looped, t, of, dimension);
        case Compound(fields) =>
          changed := ResizeCompound(c, looped, t);
      }
      ghost var q := Now();
      visits := visits[t := visits[t] + 1];
      VisitedOnce(c, s, q, Now(), looped, t);
    }

    method ResizeArray(ghost c: Case, ghost looped: set<nat>, t: nat, of: nat, dimension: nat) returns (changed: bool)
      requires WellFormed(c) && shapes == c.shapes && t < |shapes| && shapes[t] == Array(of, dimension) && t !in c.want
      requires Held(c, Now(), looped, t) && t !in memo && sizes[t] == c.sizes[t]
      modifies this
      ensures Held(c, Now(), looped, t) && Step(c, old(Now()), Now(), t) && Paid(c, old(Now()), Now(), of)
      ensures changed == Touched(c, t) && sizes[t] == After(c, t)
      ensures t !in memo && visits[t] == old(visits[t]) && offsets[t] == old(offsets[t])
      decreases t, 0
    {
      ghost var s := Now();
      changed := ResizePart(c, looped, t, of);
      ghost var q := Now();
      if changed {
        sizes := sizes[t := dimension * sizes[of]];
        Written(c, q, Now(), looped, t);
        StepThrough(c, s, q, Now(), t);
      }
    }

    method ResizeCompound(ghost c: Case, ghost looped: set<nat>, t: nat) returns (changed: bool)
      requires WellFormed(c) && shapes == c.shapes && t < |shapes| && shapes[t].Compound?
      requires Held(c, Now(), looped, t + 1) && t !in memo
      modifies this
      ensures Held(c, Now(), looped, t) && Step(c, old(Now()), Now(), t)
      ensures forall x: nat :: BuiltFrom(shapes[t], x) ==> Paid(c, old(Now()), Now(), x)
      ensures changed == Touched(c, t) && sizes[t] == After(c, t)
      ensures t !in memo && visits[t] == old(visits[t]) && Shifted(c, offsets[t], t, visits[t] + 1)
      decreases t, 0, 2
    {
      ghost var s := Now();
      assert Fine(c, s, t);
      var global := ResizeFields(c, looped, t);
      ghost var q := Now();
      changed := global != 0;
      if changed {
        sizes := sizes[t := sizes[t] + global];
        Written(c, q, Now(), looped, t);
        StepThrough(c, s, q, Now(), t);
      }
    }

    /** A part of `t`, which is itself not done yet. */
    method ResizePart(ghost c: Case, ghost looped: set<nat>, ghost t: nat, f: nat) returns (changed: bool)
      requires WellFormed(c) && shapes == c.shapes && f < t < |shapes| && Refers(c, t, f)
      requires Held(c, Now(), looped, t)
      modifies this
      ensures Held(c, Now(), looped, t) && Step(c, old(Now()), Now(), f) && Step(c, old(Now()), Now(), t)
      ensures changed == Touched(c, f) == (f in memo) && sizes[f] == After(c, f) && (changed ==> memo[f] == c.sizes[f])
      ensures Paid(c, old(Now()), Now(), f) && SameAt(old(Now()), Now(), t)
      decreases f, 3
    {
      ghost var s := Now();
      changed := Resize(c, looped, f);
      assert GrownAt(c, s, Now(), f, f) && Fine(c, Now(), f);
      FineAgain(c, s, Now(), looped, f, t);
      StepAgain(c, s, s, Now(), t, f);
    }

    method ResizeFields(ghost c: Case, ghost looped: set<nat>, t: nat) returns (global: int)
      requires WellFormed(c) && shapes == c.shapes && t < |shapes| && shapes[t].Compound?
      requires Held(c, Now(), looped, t + 1) && t !in memo
      modifies this
      ensures Held(c, Now(), looped, t) && Step(c, old(Now()), Now(), t)
      ensures forall x: nat :: BuiltFrom(shapes[t], x) ==> Paid(c, old(Now()), Now(), x)
      ensures global == Drift(c, t, |shapes[t].fields|) && sizes[t] == c.sizes[t] && t !in memo
      ensures visits[t] == old(visits[t]) && Shifted(c, offsets[t], t, visits[t] + 1)
      decreases t, 0, 1
    {
      ghost var s := Now();
      assert Fine(c, s, t);
      var fields := shapes[t].fields;
      global := 0;
      for i := 0 to |fields|
        invariant Held(c, Now(), looped, t) && Step(c, s, Now(), t)
        invariant forall j :: 0 <= j < i ==> Paid(c, s, Now(), fields[j])
        invariant global == Drift(c, t, i) && sizes[t] == c.sizes[t] && t !in memo
        invariant visits[t] == s.visits[t] && Partly(c, offsets[t], t, visits[t], i)
      {
        var change := ResizeField(c, looped, t, i, global, s);
        global := global + change;
      }
    }

    /** One field: it moves by what has changed before it, then its own type is resized. */
    method ResizeField(ghost c: Case, ghost looped: set<nat>, t: nat, i: nat, global: int, ghost s: State) returns (change: int)
      requires WellFormed(c) && shapes == c.shapes && t < |shapes| && i < |FieldsOf(shapes[t])| && t !in c.want
      requires Sized(c, s) && Held(c, Now(), looped, t) && Step(c, s, Now(), t)
      requires global == Drift(c, t, i) && t !in memo && Partly(c, offsets[t], t, visits[t], i)
      modifies this
      ensures Held(c, Now(), looped, t) && Step(c, s, Now(), t)
      ensures change == Drift(c, t, i + 1) - Drift(c, t, i)
      ensures sizes[t] == old(sizes[t]) && t !in memo && visits[t] == old(visits[t]) && Partly(c, offsets[t], t, visits[t], i + 1)
      ensures Paid(c, s, Now(), FieldsOf(shapes[t])[i])
      ensures forall x: nat :: old(Paid(c, s, Now(), x)) ==> Paid(c, s, Now(), x)
      decreases t, 0, 0
    {
      ghost var p := Now();
      MovesOne(c, offsets[t], t, visits[t], i);
      offsets := offsets[t := offsets[t][i := offsets[t][i] + global]];
      ghost var q := Now();
      Written(c, p, q, looped, t);
      StepThrough(c, s, p, q, t);
      var f := FieldsOf(shapes[t])[i];
      assert Refers(c, t, f);
      var changed := ResizePart(c, looped, t, f);
      change := if changed then sizes[f] - memo[f] else 0;
      StepThrough(c, s, q, Now(), t);
      FieldPaid(c, s, p, q, Now(), t, f);
      if !changed {
        UntouchedKeeps(c, f);
      }
    }
  }
}
