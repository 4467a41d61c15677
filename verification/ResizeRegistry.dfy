/** Resizing the types of a whole registry: what becomes of every size and every offset. */
module ResizeRegistry {
  import opened Resizing

  // ----- tidy offsets are the ones that moved once -----

  lemma {:induction false} TidyMoves(c: Case, sizes: seq<int>, offsets: seq<int>, t: nat, i: nat)
    requires WellFormed(c) && t < |c.shapes| == |sizes| && c.shapes[t].Compound? && |offsets| == |c.shapes[t].fields|
    requires (forall x: nat :: x < |sizes| ==> sizes[x] == After(c, x)) && Tidy(c, sizes, offsets, t) && i < |offsets|
    ensures offsets[i] == c.offsets[t][i] + Drift(c, t, i)
    decreases i
  {
    if i > 0 {
      TidyMoves(c, sizes, offsets, t, i - 1);
      assert SameGap(c, sizes, offsets, t, i - 1);
    }
  }

  lemma MovedIsTidy(c: Case, sizes: seq<int>, offsets: seq<int>, t: nat)
    requires WellFormed(c) && t < |c.shapes| == |sizes| && c.shapes[t].Compound? && t !in c.want
    requires (forall x: nat :: x < |sizes| ==> sizes[x] == After(c, x)) && Shifted(c, offsets, t, 1)
    ensures Tidy(c, sizes, offsets, t)
  {
    forall i: nat ensures SameGap(c, sizes, offsets, t, i) {
      if i + 1 < |offsets| {
        assert offsets[i] == c.offsets[t][i] + Times(1, Drift(c, t, i));
        assert offsets[i + 1] == c.offsets[t][i + 1] + Times(1, Drift(c, t, i + 1));
        Once(Drift(c, t, i));
        Once(Drift(c, t, i + 1));
      }
    }
    var n := |offsets|;
    assert Drift(c, t, 0) == 0;
    assert sizes[t] == c.sizes[t] + Drift(c, t, n);
    if n > 0 {
      assert offsets[0] == c.offsets[t][0] + Times(1, Drift(c, t, 0));
      assert offsets[n - 1] == c.offsets[t][n - 1] + Times(1, Drift(c, t, n - 1));
      Once(Drift(c, t, 0));
      Once(Drift(c, t, n - 1));
      var f := c.shapes[t].fields[n - 1];
      assert sizes[f] == After(c, f);
    }
  }

  lemma TidyExactly(c: Case, sizes: seq<int>, offsets: seq<int>, t: nat, k: nat)
    requires WellFormed(c) && t < |c.shapes| == |sizes| && c.shapes[t].Compound? && t !in c.want && k > 0
    requires (forall x: nat :: x < |sizes| ==> sizes[x] == After(c, x)) && Shifted(c, offsets, t, k)
    requires Touched(c, t) ==> k == 1
    ensures Tidy(c, sizes, offsets, t) <==> !(Cancels(c, t) && k > 1)
  {
    if k == 1 {
      MovedIsTidy(c, sizes, offsets, t);
    } else if Cancels(c, t) {
      var i :| 0 <= i < |FieldsOf(c.shapes[t])| && Drift(c, t, i) != 0;
      MoreThanOnce(k, Drift(c, t, i));
      if Tidy(c, sizes, offsets, t) {
        TidyMoves(c, sizes, offsets, t, i);
      }
    } else {
      forall i | 0 <= i < |offsets| ensures offsets[i] == c.offsets[t][i] + Times(1, Drift(c, t, i)) {
        assert Drift(c, t, i) == 0;
        TimesNothing(k);
      }
      MovedIsTidy(c, sizes, offsets, t);
    }
  }

  lemma {:induction false} MoreThanOnce(k: nat, d: int)
    requires k > 1 && d != 0
    ensures if d > 0 then Times(k, d) > d else Times(k, d) < d
  {
    if k > 2 {
      MoreThanOnce(k - 1, d);
    } else {
      Once(d);
    }
  }

  lemma Once(d: int)
    ensures Times(1, d) == d
  {
    assert Times(0, d) == 0;
  }

  lemma {:induction false} TimesNothing(k: nat)
    ensures Times(k, 0) == 0
  {
    if k > 0 {
      TimesNothing(k - 1);
    }
  }

  // ----- the loop over the registry -----

  /** What is asked for: a type may be named more than once, through its aliases. */
  datatype Request = Request(typ: nat, size: int)

  function Wanted(requests: seq<Request>): map<nat, int> {
    if requests == [] then map[]
    else
      var last := requests[|requests| - 1];
      Wanted(requests[..|requests| - 1])[last.typ := last.size]
  }

  ghost predicate Done(c: Case, s: State, looped: set<nat>, x: nat)
    requires WellFormed(c) && Sized(c, s)
  {
    x < |c.shapes| ==>
      && (x in looped && Touched(c, x) ==> x in s.memo)
      && (!Referred(c, x) && x !in c.want ==> s.visits[x] == if x in looped then 1 else 0)
  }

  ghost predicate Reached(c: Case, s: State, looped: set<nat>)
    requires WellFormed(c)
  {
    Held(c, s, looped, |c.shapes|) && forall x: nat :: Done(c, s, looped, x)
  }

  lemma LoopedOnce(c: Case, s: State, r: State, looped: set<nat>, t: nat)
    requires WellFormed(c) && t < |c.shapes| && t !in looped && Reached(c, s, looped)
    requires Held(c, r, looped, t + 1) && Step(c, s, r, t) && (Touched(c, t) ==> t in r.memo)
    requires r.visits[t] == s.visits[t] + if t in s.memo then 0 else 1
    ensures Reached(c, r, looped + {t})
  {
    FineAgain(c, s, r, looped, t, |c.shapes|);
    forall x ensures Counted(c, r, looped + {t}, x) {
      assert Counted(c, r, looped, x);
      if x == t && t !in r.memo {
        assert Counted(c, s, looped, t) && GrownAt(c, s, r, t, t);
        if Visited(c, r, t) {
          VisitedBefore(c, s, r, t);
        }
      }
    }
    forall x: nat ensures Done(c, r, looped + {t}, x) {
      assert Done(c, s, looped, x) && GrownAt(c, s, r, t, x);
      assert Fine(c, s, x);
    }
  }

  lemma VisitedBefore(c: Case, s: State, r: State, t: nat)
    requires WellFormed(c) && Sized(c, s) && Sized(c, r) && Step(c, s, r, t) && Visited(c, r, t)
    ensures Visited(c, s, t)
  {
    var d: nat :| d < |c.shapes| && r.visits[d] > 0 && BuiltFrom(c.shapes[d], t);
    assert Comes(c.shapes[d], d);
    assert SameAt(s, r, d);
  }

  // ----- the sizes among themselves -----

  /** By how much the types of the first `i` fields have changed together. */
  ghost function Change(before: seq<int>, after: seq<int>, fields: seq<nat>, i: nat): int
    requires i <= |fields| && |before| == |after| && forall k :: 0 <= k < |fields| ==> fields[k] < |after|
  {
    if i == 0 then 0 else Change(before, after, fields, i - 1) + (after[fields[i - 1]] - before[fields[i - 1]])
  }

  /**
   How the size of a type follows from the sizes of its parts once all of them are settled. This says nothing of the search that
   settled them: a requested type has the size asked for, a plain one or one that only points elsewhere keeps its own, a structure grows by what its
   fields grow by, and an array is as long as its elements unless neither has changed.
   */
  ghost predicate Follows(c: Case, sizes: seq<int>, t: nat)
    requires WellFormed(c) && |sizes| == |c.shapes| && t < |sizes|
  {
    if t in c.want then sizes[t] == c.want[t]
    else match c.shapes[t]
      case Plain => sizes[t] == c.sizes[t]
      case Indirect(_) => sizes[t] == c.sizes[t]
      case Compound(fields) => sizes[t] == c.sizes[t] + Change(c.sizes, sizes, fields, |fields|)
      case Array(of, dimension) => sizes[t] == dimension * sizes[of] || (sizes[t] == c.sizes[t] && sizes[of] == c.sizes[of])
  }

  lemma {:induction false} DriftIsChange(c: Case, sizes: seq<int>, t: nat, i: nat)
    requires WellFormed(c) && t < |c.shapes| == |sizes| && c.shapes[t].Compound? && i <= |c.shapes[t].fields|
    requires forall x: nat :: x < |sizes| ==> sizes[x] == After(c, x)
    ensures Drift(c, t, i) == Change(c.sizes, sizes, c.shapes[t].fields, i)
  {
    if i > 0 {
      DriftIsChange(c, sizes, t, i - 1);
    }
  }

  lemma AfterFollows(c: Case, sizes: seq<int>, t: nat)
    requires WellFormed(c) && t < |c.shapes| == |sizes|
    requires forall x: nat :: x < |sizes| ==> sizes[x] == After(c, x)
    ensures Follows(c, sizes, t)
  {
    match c.shapes[t]
    case Compound(fields) => DriftIsChange(c, sizes, t, |fields|);
    case Array(of, _) =>
      if !Touched(c, of) {
        UntouchedKeeps(c, of);
      }
    case _ =>
  }

  /** No later request names the type of request `i`. */
  ghost predicate Last(requests: seq<Request>, i: nat) {
    i < |requests| && forall j :: i < j < |requests| ==> requests[j].typ != requests[i].typ
  }

  ghost predicate Unnamed(requests: seq<Request>, t: nat) {
    forall i :: 0 <= i < |requests| ==> requests[i].typ != t
  }

  lemma {:induction false} LastWins(requests: seq<Request>, i: nat)
    requires Last(requests, i)
    ensures requests[i].typ in Wanted(requests) && Wanted(requests)[requests[i].typ] == requests[i].size
  {
    var n := |requests| - 1;
    if i < n {
      LastWins(requests[..n], i);
    }
  }

  lemma {:induction false} OnlyWanted(requests: seq<Request>, t: nat)
    requires t in Wanted(requests)
    ensures exists i :: 0 <= i < |requests| && requests[i].typ == t
  {
    var n := |requests| - 1;
    if requests[n].typ != t {
      OnlyWanted(requests[..n], t);
      var i :| 0 <= i < n && requests[..n][i].typ == t;
      assert requests[i].typ == t;
    }
  }

  /** The registry after the change. */
  ghost predicate Resized(c: Case, s: State, t: nat)
    requires WellFormed(c) && Sized(c, s) && |s.sizes| == |s.offsets|
  {
    t < |c.shapes| ==>
      && s.sizes[t] == After(c, t) && Follows(c, s.sizes, t)
      && |s.offsets[t]| == |FieldsOf(c.shapes[t])|
      && (t in c.want ==> s.offsets[t] == c.offsets[t])
      && (t !in c.want && c.shapes[t].Compound? ==> (Tidy(c, s.sizes, s.offsets[t], t) <==> !(Cancels(c, t) && Referred(c, t))))
  }

  lemma AllResized(c: Case, s: State, looped: set<nat>, t: nat)
    requires WellFormed(c) && Reached(c, s, looped) && (forall x: nat :: x < |c.shapes| ==> x in looped) && t < |c.shapes|
    ensures Resized(c, s, t)
  {
    forall x: nat | x < |c.shapes| ensures s.sizes[x] == After(c, x) {
      assert Fine(c, s, x) && Done(c, s, looped, x);
      if x !in s.memo {
        UntouchedKeeps(c, x);
      }
    }
    AfterFollows(c, s.sizes, t);
    assert Fine(c, s, t) && Done(c, s, looped, t);
    if t !in c.want && c.shapes[t].Compound? {
      Visits(c, s, looped, t);
      TidyExactly(c, s.sizes, s.offsets[t], t, s.visits[t]);
    }
  }

  lemma Visits(c: Case, s: State, looped: set<nat>, t: nat)
    requires WellFormed(c) && Reached(c, s, looped) && (forall x: nat :: x < |c.shapes| ==> x in looped)
    requires t < |c.shapes| && t !in c.want
    ensures s.visits[t] >= 1 && (Touched(c, t) ==> s.visits[t] == 1)
    ensures !Touched(c, t) ==> (Referred(c, t) <==> s.visits[t] > 1)
  {
    assert Fine(c, s, t) && Done(c, s, looped, t) && Counted(c, s, looped, t);
    if Referred(c, t) && !Touched(c, t) {
      var d :| Refers(c, d, t);
      assert Fine(c, s, d) && Done(c, s, looped, d) && Counted(c, s, looped, d);
      assert Visited(c, s, t);
    }
  }

  /**
   `Registry::resize`. A type that is asked for has the size of the last request that names it. Without a request a plain type and a
   pointer keep their size, whatever became of the type pointed to, a structure grows by what its fields grow by, and an array that was as long as
   its elements still is. Also, a structure keeps its gaps and its trailing padding
   unless its changes cancel out and it is part of another type: then its fields have been moved more than once.
   */
  method Resize(registry: Registry, ghost c: Case, requests: seq<Request>, order: seq<nat>)
    requires WellFormed(c) && c.want == Wanted(requests)
    requires registry.shapes == c.shapes && registry.sizes == c.sizes && registry.offsets == c.offsets
    requires forall i, j :: 0 <= i < j < |order| ==> order[i] != order[j]
    requires forall t: nat :: t in order <==> t < |c.shapes|
    modifies registry
    ensures |registry.sizes| == |registry.offsets| == |c.shapes| && Sized(c, registry.Now())
    ensures forall t: nat :: Resized(c, registry.Now(), t)
    ensures forall i: nat :: Last(requests, i) ==>
              requests[i].typ < |c.shapes| && registry.sizes[requests[i].typ] == requests[i].size
    ensures forall t: nat :: t < |c.shapes| && (c.shapes[t].Plain? || c.shapes[t].Indirect?) && Unnamed(requests, t) ==>
              registry.sizes[t] == c.sizes[t]
    ensures forall t: nat :: t < |c.shapes| && c.shapes[t].Compound? && Unnamed(requests, t) ==>
              registry.sizes[t] - c.sizes[t] == Change(c.sizes, registry.sizes, c.shapes[t].fields, |c.shapes[t].fields|)
    ensures forall t: nat :: t < |c.shapes| && c.shapes[t].Array? && Unnamed(requests, t) ==>
              (c.sizes[t] == c.shapes[t].dimension * c.sizes[c.shapes[t].of] ==> registry.sizes[t] == c.shapes[t].dimension * registry.sizes[c.shapes[t].of])
  {
    SetSizes(registry, c, requests);
    ghost var looped: set<nat> := {};
    for i := 0 to |order|
      invariant looped == set k | 0 <= k < i :: order[k]
      invariant Reached(c, registry.Now(), looped)
    {
      ghost var s := registry.Now();
      var t := order[i];
      assert t in order;
      var changed := registry.Resize(c, looped, t);
      LoopedOnce(c, s, registry.Now(), looped, t);
      looped := looped + {t};
    }
    forall t: nat ensures Resized(c, registry.Now(), t) {
      if t < |c.shapes| {
        forall x: nat | x < |c.shapes| ensures x in looped {
          assert x in order;
        }
        AllResized(c, registry.Now(), looped, t);
      }
    }
    FromRequests(c, registry.Now(), requests);
  }

  /** The same, seen from the requests. */
  lemma FromRequests(c: Case, s: State, requests: seq<Request>)
    requires WellFormed(c) && c.want == Wanted(requests) && Sized(c, s) && |s.sizes| == |s.offsets|
    requires forall t: nat :: Resized(c, s, t)
    ensures forall i: nat :: Last(requests, i) ==>
              requests[i].typ < |s.sizes| && s.sizes[requests[i].typ] == requests[i].size
    ensures forall t: nat :: t < |c.shapes| && Unnamed(requests, t) ==>
              t !in c.want && Follows(c, s.sizes, t)
  {
    forall i: nat | Last(requests, i)
      ensures requests[i].typ < |s.sizes| && s.sizes[requests[i].typ] == requests[i].size
    {
      LastWins(requests, i);
      assert Resized(c, s, requests[i].typ);
    }
    forall t: nat | t < |c.shapes| && Unnamed(requests, t)
      ensures t !in c.want && Follows(c, s.sizes, t)
    {
      if t in Wanted(requests) {
        OnlyWanted(requests, t);
      }
      assert Resized(c, s, t);
    }
  }

  /** The sizes that are asked for are set first, and the sizes before that are remembered. */
  method SetSizes(registry: Registry, ghost c: Case, requests: seq<Request>)
    requires WellFormed(c) && c.want == Wanted(requests)
    requires registry.shapes == c.shapes && registry.sizes == c.sizes && registry.offsets == c.offsets
    modifies registry
    ensures Reached(c, registry.Now(), {})
  {
    registry.memo := map[];
    registry.visits := seq(|c.shapes|, _ => 0);
    assert requests[..|requests|] == requests;
    for i := 0 to |requests|
      invariant registry.offsets == c.offsets && registry.visits == seq(|c.shapes|, _ => 0)
      invariant Requested(c, registry.Now(), Wanted(requests[..i]))
    {
      var r := requests[i];
      assert requests[..i + 1][..i] == requests[..i];
      WantedMember(requests, i);
      if r.typ !in registry.memo {
        registry.memo := registry.memo[r.typ := registry.sizes[r.typ]];
      }
      registry.sizes := registry.sizes[r.typ := r.size];
    }
    Begins(c, registry.Now());
  }

  /** Exactly the types asked for are in the memo, with their sizes from before. */
  ghost predicate Requested(c: Case, s: State, want: map<nat, int>)
    requires WellFormed(c)
  {
    && |s.sizes| == |c.sizes| && s.memo.Keys == want.Keys
    && (forall t :: t in want ==> t < |c.sizes| && s.memo[t] == c.sizes[t])
    && forall t: nat :: t < |c.sizes| ==> s.sizes[t] == if t in want then want[t] else c.sizes[t]
  }

  lemma {:induction false} WantedMember(requests: seq<Request>, i: nat)
    requires i < |requests|
    ensures requests[i].typ in Wanted(requests)
    decreases |requests|
  {
    var n := |requests| - 1;
    if i < n {
      WantedMember(requests[..n], i);
    }
  }

  lemma Begins(c: Case, s: State)
    requires WellFormed(c) && Requested(c, s, c.want) && s.offsets == c.offsets && s.visits == seq(|c.shapes|, _ => 0)
    ensures Reached(c, s, {})
  {
    forall x ensures Counted(c, s, {}, x) {
      assert !Visited(c, s, x);
    }
  }

  // ----- when nothing can go wrong, and what does not change at all -----

  /** Every array is as long as its elements together. */
  ghost predicate Consistent(c: Case, sizes: seq<int>)
    requires WellFormed(c) && |sizes| == |c.shapes|
  {
    forall t: nat :: t < |c.shapes| && c.shapes[t].Array? && t !in c.want ==> sizes[t] == c.shapes[t].dimension * sizes[c.shapes[t].of]
  }

  lemma ArraysFollow(c: Case, sizes: seq<int>)
    requires WellFormed(c) && Consistent(c, c.sizes) && |sizes| == |c.shapes|
    requires forall t: nat :: t < |c.shapes| ==> sizes[t] == After(c, t)
    ensures Consistent(c, sizes)
  {
    forall t: nat | t < |c.shapes| && c.shapes[t].Array? && t !in c.want
      ensures sizes[t] == c.shapes[t].dimension * sizes[c.shapes[t].of]
    {
      var of := c.shapes[t].of;
      if !Touched(c, of) {
        UntouchedKeeps(c, of);
      }
    }
  }

  ghost predicate NoneShrinks(c: Case)
    requires WellFormed(c)
  {
    forall t :: t in c.want ==> c.want[t] >= c.sizes[t]
  }

  lemma {:induction false} Grows(c: Case, t: nat)
    requires WellFormed(c) && NoneShrinks(c) && Consistent(c, c.sizes) && t < |c.shapes|
    ensures After(c, t) >= c.sizes[t]
    decreases t, 1
  {
    match c.shapes[t]
    case Plain =>
    case Indirect(_) =>
    case Compound(fields) => Drifts(c, t, 0, |fields|);
    case Array(of, dimension) =>
      Grows(c, of);
      Product(dimension, c.sizes[of], After(c, of));
  }

  lemma Product(n: nat, a: int, b: int)
    requires a <= b
    ensures n * a <= n * b
  {
    assert n * b - n * a == n * (b - a);
  }

  lemma {:induction false} Drifts(c: Case, t: nat, i: nat, j: nat)
    requires WellFormed(c) && NoneShrinks(c) && Consistent(c, c.sizes) && t < |c.shapes| && i <= j <= |FieldsOf(c.shapes[t])|
    ensures Drift(c, t, i) <= Drift(c, t, j)
    decreases t, 0, j
  {
    if i < j {
      Drifts(c, t, i, j - 1);
      Grows(c, FieldsOf(c.shapes[t])[j - 1]);
    }
  }

  /** When no request shrinks a type, changes never cancel out. */
  lemma GrowthNeverCancels(c: Case, t: nat)
    requires WellFormed(c) && NoneShrinks(c) && Consistent(c, c.sizes) && t < |c.shapes|
    ensures !Cancels(c, t)
  {
    var n := |FieldsOf(c.shapes[t])|;
    forall i: nat | i < n ensures !Touched(c, t) ==> Drift(c, t, i) == 0 {
      Drifts(c, t, 0, i);
      Drifts(c, t, i, n);
    }
  }

  /** A type that is built, directly or not, from one that is asked for. */
  ghost predicate Affected(c: Case, t: nat)
    requires WellFormed(c) && t < |c.shapes|
    decreases t
  {
    t in c.want || match c.shapes[t]
      case Plain => false
      case Indirect(of) => Affected(c, of)
      case Array(of, _) => Affected(c, of)
      case Compound(fields) => exists i :: 0 <= i < |fields| && Affected(c, fields[i])
  }

  /** Types that no request reaches keep their size and their offsets. */
  lemma {:induction false} UnaffectedKeeps(c: Case, t: nat)
    requires WellFormed(c) && t < |c.shapes| && !Affected(c, t)
    ensures !Touched(c, t) && After(c, t) == c.sizes[t]
    ensures forall i: nat :: i <= |FieldsOf(c.shapes[t])| ==> Drift(c, t, i) == 0
    decreases t, 1
  {
    match c.shapes[t]
    case Plain =>
    case Indirect(of) => UnaffectedKeeps(c, of);
    case Array(of, _) => UnaffectedKeeps(c, of);
    case Compound(fields) =>
      forall i: nat | i <= |fields| ensures Drift(c, t, i) == 0 {
        NoDrift(c, t, i);
      }
  }

  lemma {:induction false} NoDrift(c: Case, t: nat, i: nat)
    requires WellFormed(c) && t < |c.shapes| && !Affected(c, t) && i <= |FieldsOf(c.shapes[t])|
    ensures Drift(c, t, i) == 0
    decreases t, 0, i
  {
    if i > 0 {
      NoDrift(c, t, i - 1);
      UnaffectedKeeps(c, FieldsOf(c.shapes[t])[i - 1]);
    }
  }

  /** A structure of 4 and 8 bytes, the only field of another, when its fields are to have 8 and 4 bytes. */
  ghost function Exchange(): Case {
    Case([Plain, Plain, Compound([0, 1]), Compound([2])], [4, 8, 12, 12], [[], [], [0, 4], [0]], map[0 := 8, 1 := 4])
  }

  lemma ExchangeCancels()
    ensures var c := Exchange(); WellFormed(c) && Cancels(c, 2) && Referred(c, 2) && After(c, 2) == 12
  {
    var c := Exchange();
    assert WellFormed(c);
    assert Drift(c, 2, 0) == 0;
    assert Drift(c, 2, 1) == 4;
    assert Drift(c, 2, 2) == 0;
    assert Refers(c, 3, 2);
  }

  /** The second field belongs at 8, behind the 8 bytes of the first. That is not where it ends up. */
  lemma NotBehind(s: State)
    requires var c := Exchange(); WellFormed(c) && Sized(c, s) && |s.sizes| == |s.offsets| && s.sizes[0] == 8 && s.sizes[1] == 4
    requires Resized(Exchange(), s, 2)
    ensures s.offsets[2] != [0, 8]
  {
    var c := Exchange();
    ExchangeCancels();
    assert forall i: nat :: s.offsets[2] == [0, 8] ==> SameGap(c, s.sizes, s.offsets[2], 2, i);
  }

  lemma ExchangeRequests(requests: seq<Request>)
    requires requests == [Request(0, 8), Request(1, 4)]
    ensures Wanted(requests) == Exchange().want && Last(requests, 0) && Last(requests, 1)
  {
    assert requests[..1] == [Request(0, 8)] && requests[..1][..0] == [];
    assert Wanted(requests[..1]) == map[0 := 8];
  }

  method Misplaced() returns (offsets: seq<int>)
    ensures offsets != [0, 8]
  {
    var registry := new Registry([Plain, Plain, Compound([0, 1]), Compound([2])], [4, 8, 12, 12], [[], [], [0, 4], [0]]);
    ghost var c := Exchange();
    ExchangeCancels();
    var requests := [Request(0, 8), Request(1, 4)];
    ExchangeRequests(requests);
    assert [0, 1, 2, 3][0] == 0 && [0, 1, 2, 3][1] == 1 && [0, 1, 2, 3][2] == 2 && [0, 1, 2, 3][3] == 3;
    Resize(registry, c, requests, [0, 1, 2, 3]);
    NotBehind(registry.Now());
    offsets := registry.offsets[2];
  }
}
