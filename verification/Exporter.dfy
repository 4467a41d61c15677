/**
 The order in which a registry is exported.

 Entries are numbered in name order. An entry waits until every type it depends on has been
 saved; an alias waits for the type it names. Entries that wait no more are saved by runs of
 one namespace. The export fails exactly when the dependencies have a cycle.
 */
module Exporter {
  import opened Dependencies

  /** `ns` is the namespace; `emits` tells whether the output format writes something for the entry. */
  datatype Item = Item(typ: nat, alias: bool, persistent: bool, ns: string, emits: bool)

  /** Every type that an entry needs has an entry of its own. */
  ghost predicate Closed(items: seq<Item>, deps: Deps) {
    && (forall i :: 0 <= i < |items| ==> HasMain(items, items[i].typ))
    && forall t, u :: t in deps && u in deps[t] ==> HasMain(items, u)
  }

  ghost predicate HasMain(items: seq<Item>, t: nat) {
    exists i :: 0 <= i < |items| && items[i].typ == t && !items[i].alias
  }

  // ----- readiness -----

  function TypesOf(items: seq<Item>, log: seq<nat>): set<nat> {
    set k | 0 <= k < |log| && log[k] < |items| :: items[log[k]].typ
  }

  predicate Ready(items: seq<Item>, deps: Deps, saved: set<nat>, i: nat)
    requires i < |items|
  {
    if items[i].alias then items[i].typ in saved else DepsOf(deps, items[i].typ) <= saved
  }

  /** Every entry of the log was ready when its turn came. */
  ghost predicate InOrder(items: seq<Item>, deps: Deps, log: seq<nat>) {
    forall k :: Timely(items, deps, log, k)
  }

  ghost predicate Timely(items: seq<Item>, deps: Deps, log: seq<nat>, k: int) {
    0 <= k < |log| ==> log[k] < |items| && Ready(items, deps, TypesOf(items, log[..k]), log[k])
  }

  lemma InOrderNext(items: seq<Item>, deps: Deps, log: seq<nat>, i: nat)
    requires InOrder(items, deps, log) && i < |items| && Ready(items, deps, TypesOf(items, log), i)
    ensures InOrder(items, deps, log + [i]) && TypesOf(items, log) <= TypesOf(items, log + [i])
  {
    var more := log + [i];
    forall k ensures Timely(items, deps, more, k) {
      assert Timely(items, deps, log, k);
      if 0 <= k < |more| {
        assert more[..k] == log[..k];
      }
      assert log[..|log|] == log;
    }
    Logs(items, log, i);
  }

  // ----- cycles -----

  /** Some entry of the registry leads to a type that leads back to itself. */
  ghost predicate Cyclic(items: seq<Item>, deps: Deps) {
    exists path :: IsCycle(items, deps, path)
  }

  ghost predicate IsCycle(items: seq<Item>, deps: Deps, path: seq<nat>) {
    && Walk(deps, path) && |path| > 1 && path[0] == path[|path| - 1] && HasMain(items, path[0])
  }

  /** Where a type is first saved: by the entry that carries its own name, and after all it depends on. */
  lemma {:induction false} FirstSaved(items: seq<Item>, deps: Deps, log: seq<nat>, t: nat) returns (k: nat)
    requires InOrder(items, deps, log) && t in TypesOf(items, log)
    ensures k < |log| && log[k] < |items| && items[log[k]].typ == t && !items[log[k]].alias
    ensures DepsOf(deps, t) <= TypesOf(items, log[..k])
    decreases |log|
  {
    k :| 0 <= k < |log| && log[k] < |items| && items[log[k]].typ == t;
    assert Timely(items, deps, log, k);
    if items[log[k]].alias {
      InOrderPrefix(items, deps, log, k);
      k := FirstSaved(items, deps, log[..k], t);
      assert log[..k] == log[..|log[..k]|][..k];
    }
  }

  lemma InOrderPrefix(items: seq<Item>, deps: Deps, log: seq<nat>, n: nat)
    requires InOrder(items, deps, log) && n <= |log|
    ensures InOrder(items, deps, log[..n])
  {
    forall k ensures Timely(items, deps, log[..n], k) {
      assert Timely(items, deps, log, k);
      if 0 <= k < n {
        assert log[..n][..k] == log[..k];
      }
    }
  }

  /** Saved types are closed under dependencies. */
  lemma {:induction false} WalkStays(items: seq<Item>, deps: Deps, log: seq<nat>, path: seq<nat>)
    requires InOrder(items, deps, log) && Walk(deps, path) && path[0] in TypesOf(items, log)
    ensures path[|path| - 1] in TypesOf(items, log)
    decreases |path|
  {
    if |path| > 1 {
      var k := FirstSaved(items, deps, log, path[0]);
      WalkRest(deps, path);
      var j :| 0 <= j < k && log[..k][j] < |items| && items[log[..k][j]].typ == path[1];
      assert log[j] == log[..k][j];
      WalkStays(items, deps, log, path[1..]);
    }
  }

  /** A type on a cycle is never saved. */
  lemma {:induction false} NeverSaved(items: seq<Item>, deps: Deps, log: seq<nat>, path: seq<nat>)
    requires InOrder(items, deps, log) && Walk(deps, path) && |path| > 1 && path[0] == path[|path| - 1]
    ensures path[0] !in TypesOf(items, log)
    decreases |log|
  {
    if path[0] in TypesOf(items, log) {
      var k := FirstSaved(items, deps, log, path[0]);
      InOrderPrefix(items, deps, log, k);
      WalkRest(deps, path);
      WalkStays(items, deps, log[..k], path[1..]);
      NeverSaved(items, deps, log[..k], path);
    }
  }

  /** An entry comes after the entry of every type that it reaches; an alias also after its target. */
  lemma SavedAfterReached(items: seq<Item>, deps: Deps, log: seq<nat>, k: nat, path: seq<nat>) returns (j: nat)
    requires InOrder(items, deps, log) && k < |log| && log[k] < |items| && Walk(deps, path) && path[0] == items[log[k]].typ
    requires |path| > 1 || items[log[k]].alias
    ensures j < k && log[j] < |items| && items[log[j]].typ == path[|path| - 1] && !items[log[j]].alias
  {
    var before := log[..k];
    InOrderPrefix(items, deps, log, k);
    assert Timely(items, deps, log, k);
    if items[log[k]].alias {
      WalkStays(items, deps, before, path);
    } else {
      WalkRest(deps, path);
      WalkStays(items, deps, before, path[1..]);
    }
    j := FirstSaved(items, deps, before, path[|path| - 1]);
    assert before[j] == log[j];
  }

  ghost predicate Waits(deps: Deps, stuck: set<nat>, u: nat) {
    u in stuck ==> DepsOf(deps, u) * stuck != {}
  }

  /** Types each of which waits for another of them form a cycle. */
  lemma {:induction false} FindCycle(deps: Deps, stuck: set<nat>, path: seq<nat>, left: set<nat>) returns (cycle: seq<nat>)
    requires Walk(deps, path) && path[|path| - 1] in stuck && (forall u :: Waits(deps, stuck, u))
    requires forall x :: x in stuck ==> x in path || x in left
    ensures Walk(deps, cycle) && |cycle| > 1 && cycle[0] == cycle[|cycle| - 1] && cycle[0] in stuck
    decreases |left|
  {
    var u := path[|path| - 1];
    assert Waits(deps, stuck, u);
    var v :| v in DepsOf(deps, u) * stuck;
    WalkOn(deps, path, v);
    if v in path {
      var i :| 0 <= i < |path| && path[i] == v;
      cycle := (path + [v])[i..];
      WalkFrom(deps, path + [v], i);
    } else {
      cycle := FindCycle(deps, stuck, path + [v], left - {v});
    }
  }

  // ----- the schedule -----

  function Persistent(items: seq<Item>, log: seq<nat>): seq<nat> {
    if log == [] then []
    else
      var i := log[|log| - 1];
      Persistent(items, log[..|log| - 1]) + if i < |items| && items[i].persistent then [i] else []
  }

  ghost predicate NoDup(s: seq<nat>) {
    forall j, k :: 0 <= j < k < |s| ==> s[j] != s[k]
  }

  /** Every entry waits, is free or has been saved, once. */
  ghost predicate Divided(items: seq<Item>, types: set<nat>, free: set<nat>, log: seq<nat>) {
    && types !! free && NoDup(log)
    && (forall i :: i in types || i in free || i in log <==> 0 <= i < |items|)
    && (forall i :: i in log ==> i !in types && i !in free)
  }

  /** Nobody is lost, what is free is ready, and what is saved was ready in its turn. */
  ghost predicate Underway(items: seq<Item>, deps: Deps, types: set<nat>, free: set<nat>, log: seq<nat>) {
    Divided(items, types, free, log) && InOrder(items, deps, log) && AllReady(items, deps, TypesOf(items, log), free)
  }

  ghost predicate AllReady(items: seq<Item>, deps: Deps, saved: set<nat>, free: set<nat>) {
    forall i :: i in free ==> i < |items| && Ready(items, deps, saved, i)
  }

  // ----- the rounds -----

  /** The entries that can be saved once the log has been. */
  ghost function Candidates(items: seq<Item>, deps: Deps, log: seq<nat>): set<nat> {
    set i: nat | i < |items| && i !in log && Ready(items, deps, TypesOf(items, log), i)
  }

  /** The namespace of the last entry for which something was written. */
  ghost function LastNamespace(items: seq<Item>, log: seq<nat>): string {
    if log == [] then ""
    else
      var i := log[|log| - 1];
      if i < |items| && items[i].persistent && items[i].emits then items[i].ns else LastNamespace(items, log[..|log| - 1])
  }

  ghost predicate Ascending(s: seq<nat>) {
    forall j, k :: 0 <= j < k < |s| ==> s[j] < s[k]
  }

  /** The elements of the set, in name order. */
  ghost predicate Lists(part: seq<nat>, entries: set<nat>) {
    Ascending(part) && forall i :: i in part <==> i in entries
  }

  lemma ListsNext(part: seq<nat>, entries: set<nat>, i: nat)
    requires Lists(part, entries) && forall j :: j in entries ==> j < i
    ensures Lists(part + [i], entries + {i})
  {
    assert forall k :: 0 <= k < |part| ==> part[k] in entries;
  }

  ghost predicate Known(items: seq<Item>, free: set<nat>) {
    forall i :: i in free ==> i < |items|
  }

  /** The entries in namespace `ns`. */
  ghost function InNamespace(items: seq<Item>, free: set<nat>, ns: string): set<nat>
    requires Known(items, free)
  {
    set i | i in free && items[i].ns == ns
  }

  ghost predicate Least(at: nat, entries: set<nat>) {
    at in entries && forall i :: i in entries ==> at <= i
  }

  /** The first of the entries in namespace `last`, or the first of all if none is in it. */
  ghost predicate Opens(items: seq<Item>, free: set<nat>, last: string, at: nat)
    requires Known(items, free)
  {
    var here := InNamespace(items, free, last);
    Least(at, if here != {} then here else free)
  }

  /** Between `start` and `i` no entry is of another namespace. */
  ghost predicate Unbroken(items: seq<Item>, free: set<nat>, start: nat, i: nat)
    requires start < |items| && Known(items, free)
  {
    forall j :: j in free && start <= j <= i ==> items[j].ns == items[start].ns
  }

  /** The entries from `start` on, up to the first of another namespace. */
  ghost function RunFrom(items: seq<Item>, free: set<nat>, start: nat): set<nat>
    requires start < |items| && Known(items, free)
  {
    set i | i in free && start <= i && Unbroken(items, free, start, i)
  }

  ghost function Unwritten(items: seq<Item>, free: set<nat>): set<nat>
    requires Known(items, free)
  {
    set i | i in free && !items[i].persistent
  }

  /** When nothing but persistent entries is free, a run of one namespace is saved. */
  ghost predicate IsRun(items: seq<Item>, free: set<nat>, last: string, part: seq<nat>)
    requires Known(items, free)
  {
    Unwritten(items, free) == {} && part != [] && Opens(items, free, last, part[0]) && Lists(part, RunFrom(items, free, part[0]))
  }

  /** Else all that is not persistent counts as saved. */
  ghost predicate IsPruning(items: seq<Item>, free: set<nat>, part: seq<nat>)
    requires Known(items, free)
  {
    Unwritten(items, free) != {} && Lists(part, Unwritten(items, free))
  }

  ghost function Joined(rounds: seq<seq<nat>>): seq<nat> {
    if rounds == [] then [] else Joined(rounds[..|rounds| - 1]) + rounds[|rounds| - 1]
  }

  /** The entries that no round so far has found free. */
  ghost function Unseen(items: seq<Item>, deps: Deps, rounds: seq<seq<nat>>): set<nat> {
    set i: nat | i < |items| && i !in Joined(rounds)
                 && (rounds == [] || i !in Candidates(items, deps, Joined(rounds[..|rounds| - 1])))
  }

  /** What round `k` saves, given the rounds before it. */
  ghost predicate IsRound(items: seq<Item>, deps: Deps, rounds: seq<seq<nat>>, k: nat)
    requires k < |rounds|
  {
    var before := Joined(rounds[..k]);
    var free := Candidates(items, deps, before);
    && Unseen(items, deps, rounds[..k]) != {}
    && (IsPruning(items, free, rounds[k]) || IsRun(items, free, LastNamespace(items, before), rounds[k]))
  }

  ghost predicate Scheduled(items: seq<Item>, deps: Deps, rounds: seq<seq<nat>>) {
    forall k: nat :: k < |rounds| ==> IsRound(items, deps, rounds, k)
  }

  lemma ScheduledNext(items: seq<Item>, deps: Deps, rounds: seq<seq<nat>>, part: seq<nat>, free: set<nat>)
    requires Scheduled(items, deps, rounds) && Unseen(items, deps, rounds) != {} && free == Candidates(items, deps, Joined(rounds))
    requires IsPruning(items, free, part) || IsRun(items, free, LastNamespace(items, Joined(rounds)), part)
    ensures Scheduled(items, deps, rounds + [part]) && Joined(rounds + [part]) == Joined(rounds) + part
  {
    var more := rounds + [part];
    assert more[..|rounds|] == rounds;
    forall k: nat | k < |more| ensures IsRound(items, deps, more, k) {
      assert more[..k] == rounds[..k];
      assert k < |rounds| ==> IsRound(items, deps, rounds, k);
    }
  }

  /**
   What a run is, in terms of the entries that could have been saved: none of them is left out because it is not persistent, the run stays in the
   namespace last written to if any of them is in it, it starts as early as it can, and it only ends before another namespace.
   */
  lemma RunStays(items: seq<Item>, deps: Deps, rounds: seq<seq<nat>>, k: nat, i: nat)
    requires k < |rounds| && IsRound(items, deps, rounds, k) && rounds[k] != [] && i in Candidates(items, deps, Joined(rounds[..k]))
    requires rounds[k][0] < |items| && items[rounds[k][0]].persistent
    ensures items[i].persistent
    ensures items[i].ns == LastNamespace(items, Joined(rounds[..k])) ==> items[rounds[k][0]].ns == items[i].ns && rounds[k][0] <= i
    ensures i < rounds[k][0] ==> items[rounds[k][0]].ns == LastNamespace(items, Joined(rounds[..k]))
    ensures i in rounds[k] ==> rounds[k][0] <= i && items[i].ns == items[rounds[k][0]].ns
    ensures i !in rounds[k] && rounds[k][0] <= i ==>
              exists j :: j in Candidates(items, deps, Joined(rounds[..k])) && rounds[k][0] < j <= i && items[j].ns != items[rounds[k][0]].ns
  {
    var before, run := Joined(rounds[..k]), rounds[k];
    var free := Candidates(items, deps, before);
    assert run[0] in run;
    assert run[0] !in Unwritten(items, free);
    assert IsRun(items, free, LastNamespace(items, before), run);
    assert i !in Unwritten(items, free);
    assert items[i].ns == LastNamespace(items, before) ==> i in InNamespace(items, free, LastNamespace(items, before));
    assert i in run ==> Unbroken(items, free, run[0], i);
  }

  /** After the scan, what is free are the candidates. */
  lemma FreeAreCandidates(items: seq<Item>, deps: Deps, types: set<nat>, free: set<nat>, log: seq<nat>)
    requires Underway(items, deps, types, free, log)
    requires forall i :: i in types ==> i < |items| && !Ready(items, deps, TypesOf(items, log), i)
    ensures free == Candidates(items, deps, log)
  {
  }

  lemma UnseenNext(items: seq<Item>, deps: Deps, rounds: seq<seq<nat>>, part: seq<nat>, types: set<nat>, free: set<nat>, was: set<nat>)
    requires Divided(items, types, free, Joined(rounds) + part) && free <= was == Candidates(items, deps, Joined(rounds)) && was !! types
    ensures types == Unseen(items, deps, rounds + [part])
  {
    var more := rounds + [part];
    assert more[..|rounds|] == rounds;
  }

  /** Moves the entries that wait no more. */
  method Scan(items: seq<Item>, deps: Deps, saved: set<nat>, types0: set<nat>, free0: set<nat>, ghost log: seq<nat>)
    returns (types: set<nat>, free: set<nat>)
    requires Underway(items, deps, types0, free0, log) && saved == TypesOf(items, log)
    ensures Underway(items, deps, types, free, log) && types + free == types0 + free0
    ensures forall i :: i in types ==> i < |items| && !Ready(items, deps, saved, i)
  {
    types, free := types0, free0;
    for i: nat := 0 to |items|
      invariant Underway(items, deps, types, free, log) && types + free == types0 + free0
      invariant forall j :: j in types && j < i ==> !Ready(items, deps, saved, j)
    {
      if i in types && Ready(items, deps, saved, i) {
        free := free + {i};
        types := types - {i};
      }
    }
  }

  /** What the next entry of the log changes. */
  lemma Logs(items: seq<Item>, log: seq<nat>, i: nat)
    requires i < |items|
    ensures TypesOf(items, log + [i]) == TypesOf(items, log) + {items[i].typ}
    ensures Persistent(items, log + [i]) == if items[i].persistent then Persistent(items, log) + [i] else Persistent(items, log)
    ensures LastNamespace(items, log + [i]) == if items[i].persistent && items[i].emits then items[i].ns else LastNamespace(items, log)
  {
    var more := log + [i];
    assert more[..|log|] == log && more[|log|] == i;
    forall t | t in TypesOf(items, log) ensures t in TypesOf(items, more) {
      var k :| 0 <= k < |log| && log[k] < |items| && items[log[k]].typ == t;
      assert more[k] == log[k];
    }
  }

  /** Saving a free entry. */
  lemma Saved(items: seq<Item>, deps: Deps, types: set<nat>, free: set<nat>, log: seq<nat>, i: nat)
    requires Underway(items, deps, types, free, log) && i in free
    ensures Underway(items, deps, types, free - {i}, log + [i])
  {
    InOrderNext(items, deps, log, i);
    DividedNext(items, types, free, log, i);
  }

  lemma DividedNext(items: seq<Item>, types: set<nat>, free: set<nat>, log: seq<nat>, i: nat)
    requires Divided(items, types, free, log) && i in free
    ensures Divided(items, types, free - {i}, log + [i])
  {
    assert forall j :: j in log + [i] <==> j in log || j == i;
  }

  /** The part of a set below `n`. */
  ghost function Below(entries: set<nat>, n: nat): set<nat> {
    set i | i in entries && i < n
  }

  ghost function From(entries: set<nat>, n: nat): set<nat> {
    set i | i in entries && n <= i
  }

  lemma BelowNext(entries: set<nat>, n: nat)
    ensures Below(entries, n + 1) == Below(entries, n) + if n in entries then {n} else {}
  {
  }

  /** The entries below `n`, in name order. */
  ghost function Listed(entries: set<nat>, n: nat): seq<nat> {
    if n == 0 then [] else Listed(entries, n - 1) + if n - 1 in entries then [n - 1] else []
  }

  lemma {:induction false} ListedInOrder(entries: set<nat>, n: nat)
    ensures Lists(Listed(entries, n), Below(entries, n))
  {
    if n > 0 {
      ListedInOrder(entries, n - 1);
      BelowNext(entries, n - 1);
      ListsNext(Listed(entries, n - 1), Below(entries, n - 1), n - 1);
    }
  }

  /** The log once the entries of `taken` below `n` have been saved. */
  ghost function Logged(log: seq<nat>, taken: set<nat>, n: nat): seq<nat> {
    if n == 0 then log
    else
      var before := Logged(log, taken, n - 1);
      if n - 1 in taken then before + [n - 1] else before
  }

  lemma {:induction false} LoggedNone(log: seq<nat>, taken: set<nat>, n: nat)
    requires forall i :: i in taken ==> n <= i
    ensures Logged(log, taken, n) == log
  {
    if n > 0 {
      LoggedNone(log, taken, n - 1);
    }
  }

  lemma {:induction false} LoggedListed(log: seq<nat>, taken: set<nat>, n: nat)
    ensures Logged(log, taken, n) == log + Listed(taken, n)
  {
    if n > 0 {
      LoggedListed(log, taken, n - 1);
    }
  }

  /** Any free entries may be saved, in name order. */
  lemma {:induction false} TakenUnderway(items: seq<Item>, deps: Deps, types: set<nat>, free: set<nat>, log: seq<nat>, taken: set<nat>, n: nat)
    requires Underway(items, deps, types, free, log) && taken <= free
    ensures Underway(items, deps, types, free - Below(taken, n), Logged(log, taken, n))
  {
    if n == 0 {
      assert free - Below(taken, n) == free;
    } else {
      TakenUnderway(items, deps, types, free, log, taken, n - 1);
      BelowNext(taken, n - 1);
      var left := free - Below(taken, n - 1);
      if n - 1 in taken {
        Saved(items, deps, types, left, Logged(log, taken, n - 1), n - 1);
        assert left - {n - 1} == free - Below(taken, n);
      } else {
        assert left == free - Below(taken, n);
      }
    }
  }

  /** What is known of the log when `free` is what is left of `free0`. */
  ghost predicate Keeps(items: seq<Item>, log: seq<nat>, saved: set<nat>, out: seq<nat>, last: string) {
    saved == TypesOf(items, log) && out == Persistent(items, log) && last == LastNamespace(items, log)
  }

  lemma KeepsNext(items: seq<Item>, log0: seq<nat>, taken: set<nat>, n: nat, free0: set<nat>, free: set<nat>, saved: set<nat>, out: seq<nat>, last: string)
    requires n < |items| && taken <= free0 && free == free0 - Below(taken, n)
    requires Keeps(items, Logged(log0, taken, n), saved, out, last)
    ensures n in free <==> n in free0
    ensures n !in taken ==> free == free0 - Below(taken, n + 1) && Keeps(items, Logged(log0, taken, n + 1), saved, out, last)
    ensures n in taken ==>
              && free - {n} == free0 - Below(taken, n + 1)
              && Keeps(items, Logged(log0, taken, n + 1), saved + {items[n].typ}, if items[n].persistent then out + [n] else out,
                       if items[n].persistent && items[n].emits then items[n].ns else last)
  {
    BelowNext(taken, n);
    Logs(items, Logged(log0, taken, n), n);
  }

  /** The entries of `taken` below `n` go from `free` to the end of the log. */
  lemma Taken(items: seq<Item>, deps: Deps, types: set<nat>, free: set<nat>, log: seq<nat>, taken: set<nat>, n: nat, entries: set<nat>)
    requires Underway(items, deps, types, free, log) && taken <= free && entries == Below(taken, n)
    ensures Underway(items, deps, types, free - entries, Logged(log, taken, n))
    ensures Logged(log, taken, n) == log + Listed(taken, n) && Lists(Listed(taken, n), entries)
  {
    TakenUnderway(items, deps, types, free, log, taken, n);
    LoggedListed(log, taken, n);
    ListedInOrder(taken, n);
  }

  lemma AllBelow(items: seq<Item>, entries: set<nat>)
    requires Known(items, entries)
    ensures Below(entries, |items|) == entries
  {
  }

  /**
   Takes the entries that are not persistent out of `free0`, as good as saved. `at` is where the
   next run of persistent entries starts if one can go on in the namespace of the last one.
   */
  method Prune(items: seq<Item>, saved0: set<nat>, free0: set<nat>, last: string, ghost log0: seq<nat>, ghost out: seq<nat>)
    returns (free: set<nat>, saved: set<nat>, gotSome: bool, at: nat)
    requires Known(items, free0) && Keeps(items, log0, saved0, out, last)
    ensures Keeps(items, Logged(log0, Unwritten(items, free0), |items|), saved, out, last)
    ensures free == free0 - Unwritten(items, free0) && (gotSome <==> Unwritten(items, free0) != {})
    ensures at == |items| || (at in free && items[at].ns == last)
    ensures forall i :: i in free && i < at ==> items[i].ns != last
  {
    free, saved, gotSome, at := free0, saved0, false, |items|;
    ghost var taken := Unwritten(items, free0);
    assert Below(taken, 0) == {};
    for i: nat := 0 to |items|
      invariant free == free0 - Below(taken, i) && Keeps(items, Logged(log0, taken, i), saved, out, last)
      invariant gotSome <==> Below(taken, i) != {}
      invariant at == |items| || (at < i && at in free && items[at].ns == last)
      invariant forall j :: j in free && j < i && j < at ==> items[j].ns != last
    {
      KeepsNext(items, log0, taken, i, free0, free, saved, out, last);
      BelowNext(taken, i);
      if i in free {
        if !items[i].persistent {
          gotSome, saved, free := true, saved + {items[i].typ}, free - {i};
        } else if at == |items| && items[i].ns == last {
          at := i;
        }
      }
    }
    AllBelow(items, taken);
  }

  /** Saves the free entries from `start` on, in name order, up to the first of another namespace, `end`. */
  method SaveRun(items: seq<Item>, saved0: set<nat>, free0: set<nat>, start: nat, last0: string, out0: seq<nat>, ghost log0: seq<nat>)
    returns (free: set<nat>, saved: set<nat>, last: string, out: seq<nat>, ghost end: nat)
    requires Known(items, free0) && Keeps(items, log0, saved0, out0, last0)
    requires start in free0 && forall i :: i in free0 ==> items[i].persistent
    ensures free == free0 - Below(From(free0, start), end) && Keeps(items, Logged(log0, From(free0, start), end), saved, out, last)
    ensures EndsRun(items, free0, start, end)
  {
    free, saved, last, out := free0, saved0, last0, out0;
    var ns, i: nat := items[start].ns, start;
    ghost var later := From(free0, start);
    LoggedNone(log0, later, start);
    assert Below(later, start) == {};
    while i < |items| && (i !in free || items[i].ns == ns)
      invariant start <= i <= |items| && free == free0 - Below(later, i)
      invariant Keeps(items, Logged(log0, later, i), saved, out, last)
      invariant forall j :: j in free0 && start <= j < i ==> items[j].ns == ns
    {
      KeepsNext(items, log0, later, i, free0, free, saved, out, last);
      if i in free {
        saved, free, out := saved + {items[i].typ}, free - {i}, out + [i];
        if items[i].emits {
          last := ns;
        }
      }
      i := i + 1;
    }
    end := i;
  }

  /** The entries from `start` up to `end` have one namespace, and `end`, if it is an entry, another. */
  ghost predicate EndsRun(items: seq<Item>, free: set<nat>, start: nat, end: nat)
    requires Known(items, free)
  {
    && start < |items| && start <= end <= |items|
    && (forall j :: j in free && start <= j < end ==> items[j].ns == items[start].ns)
    && (end < |items| ==> end in free && items[end].ns != items[start].ns)
  }

  /** The run goes up to the first entry of another namespace. */
  lemma RunEnds(items: seq<Item>, free: set<nat>, start: nat, end: nat)
    requires Known(items, free) && start in free && EndsRun(items, free, start, end)
    ensures Below(From(free, start), end) == RunFrom(items, free, start)
  {
    forall j | j in From(free, start) ensures j < end <==> Unbroken(items, free, start, j) {
      if end <= j {
        assert end in free && start <= end <= j;
      }
    }
  }

  lemma RunStarts(items: seq<Item>, free: set<nat>, start: nat, part: seq<nat>)
    requires Known(items, free) && start in free && Lists(part, RunFrom(items, free, start))
    ensures part != [] && part[0] == start && start in RunFrom(items, free, start)
  {
    assert Unbroken(items, free, start, start) && start in part;
    assert part[0] in part;
  }

  /** Where a persistent entry of the log is written. */
  lemma {:induction false} Written(items: seq<Item>, log: seq<nat>, k: nat)
    requires k < |log| && log[k] < |items| && items[log[k]].persistent
    ensures |Persistent(items, log[..k])| < |Persistent(items, log)|
    ensures Persistent(items, log)[|Persistent(items, log[..k])|] == log[k]
    decreases |log|
  {
    var front := log[..|log| - 1];
    if k < |front| {
      Written(items, front, k);
      assert front[..k] == log[..k];
    }
  }

  /** Entries are written once each, and only persistent ones. */
  lemma {:induction false} WrittenOnce(items: seq<Item>, log: seq<nat>)
    requires NoDup(log)
    ensures NoDup(Persistent(items, log))
    ensures forall i :: i in Persistent(items, log) <==> i in log && i < |items| && items[i].persistent
    decreases |log|
  {
    if log != [] {
      var front, i := log[..|log| - 1], log[|log| - 1];
      assert log == front + [i];
      WrittenOnce(items, front);
    }
  }

  /** A persistent entry is written after the entry of every persistent type that it reaches; an alias after its target. */
  lemma WrittenAfterReached(items: seq<Item>, deps: Deps, log: seq<nat>, k: nat, path: seq<nat>) returns (j: nat)
    requires InOrder(items, deps, log) && k < |log| && log[k] < |items| && items[log[k]].persistent
    requires Walk(deps, path) && path[0] == items[log[k]].typ && (|path| > 1 || items[log[k]].alias)
    ensures j < k && log[j] < |items| && items[log[j]].typ == path[|path| - 1] && !items[log[j]].alias
    ensures items[log[j]].persistent ==>
              var out, a, b := Persistent(items, log), |Persistent(items, log[..j])|, |Persistent(items, log[..k])|;
              a < b < |out| && out[a] == log[j] && out[b] == log[k]
  {
    j := SavedAfterReached(items, deps, log, k, path);
    Written(items, log, k);
    if items[log[j]].persistent {
      Written(items, log, j);
      Written(items, log[..k], j);
      assert log[..k][..j] == log[..j];
    }
  }

  // ----- when the export fails -----

  /** The types of waiting entries that have not been saved. */
  function Stuck(items: seq<Item>, types: set<nat>, saved: set<nat>): set<nat>
    requires forall i :: i in types ==> i < |items|
  {
    set i | i in types && items[i].typ !in saved :: items[i].typ
  }

  /** A type that is not saved has a waiting entry, when nothing is free. */
  lemma Awaited(items: seq<Item>, deps: Deps, types: set<nat>, log: seq<nat>, t: nat) returns (i: nat)
    requires Divided(items, types, {}, log) && HasMain(items, t) && t !in TypesOf(items, log)
    ensures i in types && i < |items| && items[i].typ == t && !items[i].alias && t in Stuck(items, types, TypesOf(items, log))
  {
    i :| 0 <= i < |items| && items[i].typ == t && !items[i].alias;
    assert i in types || i in log;
  }

  lemma StuckIsCyclic(items: seq<Item>, deps: Deps, types: set<nat>, log: seq<nat>)
    requires Closed(items, deps) && Divided(items, types, {}, log) && types != {}
    requires forall i :: i in types ==> i < |items| && !Ready(items, deps, TypesOf(items, log), i)
    ensures Cyclic(items, deps)
  {
    var saved := TypesOf(items, log);
    var stuck := Stuck(items, types, saved);
    forall t ensures Waits(deps, stuck, t) {
      if t in stuck {
        var u := NextStuck(items, deps, types, log, t);
        assert u in DepsOf(deps, t) * stuck;
      }
    }
    var i :| i in types;
    assert !Ready(items, deps, saved, i);
    var first := items[i].typ;
    if first in saved {
      first :| first in DepsOf(deps, items[i].typ) && first !in saved;
    }
    var m := Awaited(items, deps, types, log, first);
    var cycle := FindCycle(deps, stuck, [first], stuck);
    assert IsCycle(items, deps, cycle);
  }

  lemma NextStuck(items: seq<Item>, deps: Deps, types: set<nat>, log: seq<nat>, t: nat) returns (u: nat)
    requires Closed(items, deps) && Divided(items, types, {}, log)
    requires forall i :: i in types ==> i < |items| && !Ready(items, deps, TypesOf(items, log), i)
    requires t in Stuck(items, types, TypesOf(items, log))
    ensures u in DepsOf(deps, t) && u in Stuck(items, types, TypesOf(items, log))
  {
    var i := Awaited(items, deps, types, log, t);
    assert !Ready(items, deps, TypesOf(items, log), i);
    u :| u in DepsOf(deps, t) && u !in TypesOf(items, log);
    var m := Awaited(items, deps, types, log, u);
  }

  lemma CompleteIsAcyclic(items: seq<Item>, deps: Deps, log: seq<nat>)
    requires InOrder(items, deps, log) && (forall i :: 0 <= i < |items| ==> i in log)
    ensures !Cyclic(items, deps)
  {
    forall path ensures !IsCycle(items, deps, path) {
      if IsCycle(items, deps, path) {
        var i :| 0 <= i < |items| && items[i].typ == path[0] && !items[i].alias;
        assert i in log;
        NeverSaved(items, deps, log, path);
      }
    }
  }

  function Numbers(n: nat): (s: set<nat>)
    ensures forall i :: i in s <==> 0 <= i < n
  {
    if n == 0 then {} else Numbers(n - 1) + {n - 1}
  }

  /**
   `Exporter::save`. It ends on every registry, fails exactly on those with a dependency cycle, and
   else writes every persistent entry once, in an order in which each was ready: `WrittenOnce` and
   `WrittenAfterReached` say what that means. The entries are saved in rounds, as long as some entry has not been found free;
   a round of persistent entries stays in the namespace last written to if it can. What is then left is saved in name order.
   */
  method Save(items: seq<Item>, deps: Deps) returns (out: seq<nat>, ok: bool, ghost log: seq<nat>, ghost rounds: seq<seq<nat>>, ghost rest: seq<nat>)
    requires Closed(items, deps)
    ensures ok <==> !Cyclic(items, deps)
    ensures ok ==> InOrder(items, deps, log) && Divided(items, {}, {}, log) && out == Persistent(items, log)
    ensures ok ==> log == Joined(rounds) + rest && Scheduled(items, deps, rounds) && Unseen(items, deps, rounds) == {} && Ascending(rest)
  {
    var types, free, saved := Numbers(|items|), {}, {};
    var last := "";
    out, log, rounds, rest, ok := [], [], [], [], true;
    while types != {}
      invariant Underway(items, deps, types, free, log) && Keeps(items, log, saved, out, last)
      invariant log == Joined(rounds) && Scheduled(items, deps, rounds)
      invariant types == Unseen(items, deps, rounds)
      decreases types + free
    {
      types, free := Scan(items, deps, saved, types, free, log);
      if free == {} {
        StuckIsCyclic(items, deps, types, log);
        return out, false, log, rounds, rest;
      }
      FreeAreCandidates(items, deps, types, free, log);
      ghost var was, part := free, [];
      free, saved, last, out, log, part := Round(items, saved, free, last, out, deps, types, log);
      ScheduledNext(items, deps, rounds, part, was);
      UnseenNext(items, deps, rounds, part, types, free, was);
      rounds := rounds + [part];
    }
    out, log, rest := SaveRest(items, free, out, deps, log);
    CompleteIsAcyclic(items, deps, log);
  }

  /** The rest of a round, once the entries that wait no more are in `free0`. */
  method Round(items: seq<Item>, saved0: set<nat>, free0: set<nat>, last0: string, out0: seq<nat>,
               ghost deps: Deps, ghost types: set<nat>, ghost log0: seq<nat>)
    returns (free: set<nat>, saved: set<nat>, last: string, out: seq<nat>, ghost log: seq<nat>, ghost part: seq<nat>)
    requires Underway(items, deps, types, free0, log0) && Keeps(items, log0, saved0, out0, last0) && free0 != {}
    ensures Underway(items, deps, types, free, log) && Keeps(items, log, saved, out, last)
    ensures log == log0 + part && free < free0
    ensures IsPruning(items, free0, part) || IsRun(items, free0, last0, part)
  {
    last, out := last0, out0;
    var gotSome, at;
    free, saved, gotSome, at := Prune(items, saved0, free0, last, log0, out);
    if gotSome {
      ghost var taken := Unwritten(items, free0);
      AllBelow(items, taken);
      Taken(items, deps, types, free0, log0, taken, |items|, taken);
      log, part := Logged(log0, taken, |items|), Listed(taken, |items|);
    } else {
      free, saved, last, out, log, part := Run(items, saved0, free0, at, last, out, deps, types, log0);
    }
  }

  /** A run of persistent entries; `at` is where it can go on in the namespace of the last one. */
  method Run(items: seq<Item>, saved0: set<nat>, free0: set<nat>, at: nat, last0: string, out0: seq<nat>,
             ghost deps: Deps, ghost types: set<nat>, ghost log0: seq<nat>)
    returns (free: set<nat>, saved: set<nat>, last: string, out: seq<nat>, ghost log: seq<nat>, ghost part: seq<nat>)
    requires Underway(items, deps, types, free0, log0) && Keeps(items, log0, saved0, out0, last0) && free0 != {}
    requires Unwritten(items, free0) == {}
    requires at == |items| || (at in free0 && items[at].ns == last0)
    requires forall i :: i in free0 && i < at ==> items[i].ns != last0
    ensures Underway(items, deps, types, free, log) && Keeps(items, log, saved, out, last)
    ensures log == log0 + part && free < free0 && IsRun(items, free0, last0, part)
  {
    var start := First(items, free0, at, last0);
    AllWritten(items, free0);
    ghost var end;
    free, saved, last, out, end := SaveRun(items, saved0, free0, start, last0, out0, log0);
    ghost var later, run := From(free0, start), RunFrom(items, free0, start);
    RunEnds(items, free0, start, end);
    Taken(items, deps, types, free0, log0, later, end, run);
    log, part := Logged(log0, later, end), Listed(later, end);
    RunStarts(items, free0, start, part);
  }

  lemma AllWritten(items: seq<Item>, free: set<nat>)
    requires Known(items, free) && Unwritten(items, free) == {}
    ensures forall i :: i in free ==> items[i].persistent
  {
    forall i | i in free ensures items[i].persistent {
      assert i !in Unwritten(items, free);
    }
  }

  method First(items: seq<Item>, free: set<nat>, at: nat, last: string) returns (start: nat)
    requires free != {} && Known(items, free)
    requires at == |items| || (at in free && items[at].ns == last)
    requires forall i :: i in free && i < at ==> items[i].ns != last
    ensures start in free && Opens(items, free, last, start)
  {
    start := at;
    if at == |items| {
      start := 0;
      while start !in free
        invariant forall i :: i in free ==> start <= i
        decreases |items| - start
      {
        start := start + 1;
      }
    } else {
      assert at in InNamespace(items, free, last);
    }
  }

  /** What is free when nothing waits any more. */
  method SaveRest(items: seq<Item>, free0: set<nat>, out0: seq<nat>, ghost deps: Deps, ghost log0: seq<nat>)
    returns (out: seq<nat>, ghost log: seq<nat>, ghost rest: seq<nat>)
    requires Underway(items, deps, {}, free0, log0) && out0 == Persistent(items, log0)
    ensures Underway(items, deps, {}, {}, log) && out == Persistent(items, log)
    ensures log == log0 + rest && Ascending(rest)
  {
    out := out0;
    for i: nat := 0 to |items|
      invariant out == Persistent(items, Logged(log0, free0, i))
    {
      Logs(items, Logged(log0, free0, i), i);
      if i in free0 && items[i].persistent {
        out := out + [i];
      }
    }
    log, rest := Logged(log0, free0, |items|), Listed(free0, |items|);
    AllBelow(items, free0);
    Taken(items, deps, {}, free0, log0, free0, |items|, free0);
    assert free0 - free0 == {};
  }
}
