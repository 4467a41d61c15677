/**
 Removing a type from a registry, with everything that cannot do without it.

 `reverseDepends` works its way up from the type, one level of dependents at a time. Its result is
 exactly what reaches the type along dependencies, so that what `remove` leaves behind is again a
 registry in which every type that is needed is there.
 */
module Removal {
  import opened Dependencies

  /** A name and the type it stands for; `alias` unless it is the name of the type itself. */
  datatype Entry = Entry(name: string, typ: nat, alias: bool)

  ghost predicate Registered(entries: seq<Entry>, t: nat) {
    exists i :: 0 <= i < |entries| && entries[i].typ == t && !entries[i].alias
  }

  /** Every name stands for a registered type. */
  ghost predicate Named(entries: seq<Entry>, names: seq<Entry>) {
    forall i :: 0 <= i < |names| ==> Registered(entries, names[i].typ)
  }

  /** Every type that is named or needed by a registered type is registered. */
  ghost predicate Closed(entries: seq<Entry>, deps: Deps) {
    && Named(entries, entries)
    && forall t, u :: Registered(entries, t) && u in DepsOf(deps, t) ==> Registered(entries, u)
  }

  /** Following dependencies from `t` leads to `goal`. */
  ghost predicate Reaches(deps: Deps, t: nat, goal: nat) {
    exists path :: IsPath(deps, path, t, goal)
  }

  ghost predicate IsPath(deps: Deps, path: seq<nat>, t: nat, goal: nat) {
    Walk(deps, path) && path[0] == t && path[|path| - 1] == goal
  }

  lemma ReachesItself(deps: Deps, t: nat)
    ensures Reaches(deps, t, t)
  {
    var path := [t];
    forall k ensures Hop(deps, path, k) {
    }
    assert IsPath(deps, path, t, t);
  }

  lemma ReachesBefore(deps: Deps, t: nat, u: nat, goal: nat)
    requires u in DepsOf(deps, t) && Reaches(deps, u, goal)
    ensures Reaches(deps, t, goal)
  {
    var path :| IsPath(deps, path, u, goal);
    var longer := [t] + path;
    forall k ensures Hop(deps, longer, k) {
      assert Hop(deps, path, k - 1);
    }
    assert IsPath(deps, longer, t, goal);
  }

  /** What depends on a member of `found` is itself in `found`. */
  ghost predicate Complete(entries: seq<Entry>, deps: Deps, found: set<nat>) {
    forall t :: Registered(entries, t) && DepsOf(deps, t) * found != {} ==> t in found
  }

  lemma {:induction false} PathIsFound(entries: seq<Entry>, deps: Deps, found: set<nat>, path: seq<nat>)
    requires Closed(entries, deps) && Complete(entries, deps, found) && Walk(deps, path)
    requires Registered(entries, path[0]) && path[|path| - 1] in found
    ensures path[0] in found
    decreases |path|
  {
    if |path| > 1 {
      WalkRest(deps, path);
      PathIsFound(entries, deps, found, path[1..]);
      assert path[1] in DepsOf(deps, path[0]) * found;
    }
  }

  function TypesOf(entries: seq<Entry>): set<nat> {
    set i | 0 <= i < |entries| :: entries[i].typ
  }

  // ----- the search -----

  /** All of `found` is there for a reason. */
  ghost predicate Justified(entries: seq<Entry>, deps: Deps, goal: nat, found: set<nat>) {
    forall t :: t in found ==> Reaches(deps, t, goal) && (t == goal || Registered(entries, t))
  }

  /** The registered types that depend on one of `queue`, and are not known yet. */
  method Dependents(entries: seq<Entry>, deps: Deps, known: set<nat>, queue: set<nat>, ghost goal: nat) returns (found: set<nat>)
    requires queue <= known && Justified(entries, deps, goal, known)
    ensures found !! known && found <= TypesOf(entries) && Justified(entries, deps, goal, found)
    ensures forall t :: Registered(entries, t) && DepsOf(deps, t) * queue != {} ==> t in found || t in known
  {
    found := {};
    for i := 0 to |entries|
      invariant found !! known && found <= TypesOf(entries) && Justified(entries, deps, goal, found)
      invariant forall k :: 0 <= k < i && !entries[k].alias && DepsOf(deps, entries[k].typ) * queue != {} ==> entries[k].typ in found + known
    {
      var t := entries[i].typ;
      if !entries[i].alias && t !in known && DepsOf(deps, t) * queue != {} {
        ghost var u :| u in DepsOf(deps, t) * queue;
        ReachesBefore(deps, t, u, goal);
        found := found + {t};
      }
    }
  }

  /** `Registry::reverseDepends`: the type, and exactly the registered types that reach it. */
  method ReverseDepends(entries: seq<Entry>, deps: Deps, goal: nat) returns (result: set<nat>)
    requires Closed(entries, deps)
    ensures forall t :: t in result <==> t == goal || (Registered(entries, t) && Reaches(deps, t, goal))
    ensures Complete(entries, deps, result)
  {
    var queue := {goal};
    result := {};
    ghost var all := TypesOf(entries) + {goal};
    ReachesItself(deps, goal);
    while queue != {}
      invariant queue !! result && queue + result <= all && goal in queue + result
      invariant Justified(entries, deps, goal, queue + result)
      invariant forall t :: Registered(entries, t) && DepsOf(deps, t) * result != {} ==> t in queue + result
      decreases all - result
    {
      var newQueue := Dependents(entries, deps, queue + result, queue, goal);
      ghost var before := result;
      result := result + queue;
      forall t | Registered(entries, t) && DepsOf(deps, t) * result != {} ensures t in newQueue + result {
        var u :| u in DepsOf(deps, t) * result;
        assert u in DepsOf(deps, t) * queue || u in DepsOf(deps, t) * before;
      }
      queue := newQueue;
    }
    forall t | Registered(entries, t) && Reaches(deps, t, goal) ensures t in result {
      var path :| IsPath(deps, path, t, goal);
      PathIsFound(entries, deps, result, path);
    }
  }

  // ----- removal -----

  function Kept(entries: seq<Entry>, gone: set<nat>): seq<Entry> {
    if entries == [] then []
    else
      var last := entries[|entries| - 1];
      Kept(entries[..|entries| - 1], gone) + if last.typ in gone then [] else [last]
  }

  lemma {:induction false} KeptExactly(entries: seq<Entry>, gone: set<nat>, e: Entry)
    ensures e in Kept(entries, gone) <==> e in entries && e.typ !in gone
    decreases |entries|
  {
    if entries != [] {
      var front, last := entries[..|entries| - 1], entries[|entries| - 1];
      assert entries == front + [last];
      KeptExactly(front, gone, e);
    }
  }

  class Registry {
    var global: seq<Entry>
    var current: seq<Entry>
    const deps: Deps

    constructor (global: seq<Entry>, current: seq<Entry>, deps: Deps)
      ensures this.global == global && this.current == current && this.deps == deps
    {
      this.global, this.current, this.deps := global, current, deps;
    }

    /** The global names are complete, and the names in use stand for registered types. */
    ghost predicate Valid()
      reads this
    {
      Closed(global, deps) && Named(global, current)
    }

    static method Erase(entries: seq<Entry>, gone: set<nat>) returns (kept: seq<Entry>)
      ensures kept == Kept(entries, gone)
    {
      kept := [];
      for i := 0 to |entries|
        invariant kept == Kept(entries[..i], gone)
      {
        assert entries[..i + 1][..i] == entries[..i];
        if entries[i].typ !in gone {
          kept := kept + [entries[i]];
        }
      }
      assert entries[..|entries|] == entries;
    }

    /**
     `Registry::remove`. Exactly the dependents of the type go, under all their names; what stays neither
     names nor needs any of them.
     */
    method Remove(goal: nat) returns (gone: set<nat>)
      requires Valid()
      modifies this
      ensures Valid()
      ensures forall t :: t in gone <==> t == goal || (Registered(old(global), t) && Reaches(deps, t, goal))
      ensures global == Kept(old(global), gone) && current == Kept(old(current), gone)
      ensures Free(global, deps, gone) && Free(current, deps, gone)
    {
      gone := ReverseDepends(global, deps, goal);
      global := Erase(global, gone);
      current := Erase(current, gone);
      StaysClosed(old(global), deps, gone);
      StaysNamed(old(global), old(current), gone);
      NothingLeft(old(global), old(global), deps, gone);
      NothingLeft(old(global), old(current), deps, gone);
    }
  }

  lemma StaysRegistered(entries: seq<Entry>, gone: set<nat>, t: nat)
    ensures Registered(Kept(entries, gone), t) <==> Registered(entries, t) && t !in gone
  {
    var kept := Kept(entries, gone);
    if Registered(entries, t) && t !in gone {
      var i :| 0 <= i < |entries| && entries[i].typ == t && !entries[i].alias;
      KeptExactly(entries, gone, entries[i]);
      var k :| 0 <= k < |kept| && kept[k] == entries[i];
    }
    if Registered(kept, t) {
      var i :| 0 <= i < |kept| && kept[i].typ == t && !kept[i].alias;
      KeptExactly(entries, gone, kept[i]);
      var k :| 0 <= k < |entries| && entries[k] == kept[i];
    }
  }

  lemma StaysClosed(entries: seq<Entry>, deps: Deps, gone: set<nat>)
    requires Closed(entries, deps) && Complete(entries, deps, gone)
    ensures Closed(Kept(entries, gone), deps)
  {
    var kept := Kept(entries, gone);
    forall i | 0 <= i < |kept| ensures Registered(kept, kept[i].typ) {
      KeptExactly(entries, gone, kept[i]);
      var k :| 0 <= k < |entries| && entries[k] == kept[i];
      StaysRegistered(entries, gone, kept[i].typ);
    }
    forall t, u | Registered(kept, t) && u in DepsOf(deps, t) ensures Registered(kept, u) {
      StaysRegistered(entries, gone, t);
      StaysRegistered(entries, gone, u);
      assert u in gone ==> u in DepsOf(deps, t) * gone;
    }
  }

  lemma StaysNamed(entries: seq<Entry>, current: seq<Entry>, gone: set<nat>)
    requires Named(entries, current)
    ensures Named(Kept(entries, gone), Kept(current, gone))
  {
    var kept := Kept(current, gone);
    forall i | 0 <= i < |kept| ensures Registered(Kept(entries, gone), kept[i].typ) {
      KeptExactly(current, gone, kept[i]);
      var k :| 0 <= k < |current| && current[k] == kept[i];
      StaysRegistered(entries, gone, kept[i].typ);
    }
  }

  /** No name stands for a removed type or for one that needs a removed type. */
  ghost predicate Free(names: seq<Entry>, deps: Deps, gone: set<nat>) {
    forall e :: e in names ==> e.typ !in gone && DepsOf(deps, e.typ) * gone == {}
  }

  lemma NothingLeft(entries: seq<Entry>, names: seq<Entry>, deps: Deps, gone: set<nat>)
    requires Named(entries, names) && Complete(entries, deps, gone)
    ensures Free(Kept(names, gone), deps, gone)
  {
    forall e | e in Kept(names, gone) ensures e.typ !in gone && DepsOf(deps, e.typ) * gone == {} {
      KeptExactly(names, gone, e);
      var k :| 0 <= k < |names| && names[k] == e;
      assert Registered(entries, names[k].typ);
      assert DepsOf(deps, e.typ) * gone == {};
    }
  }
}
