/** Types by number, what each depends on, and the chains of dependencies between them. */
module Dependencies {
  type Deps = map<nat, set<nat>>

  function DepsOf(deps: Deps, t: nat): set<nat> {
    if t in deps then deps[t] else {}
  }

  /** A walk along dependencies. */
  ghost predicate Walk(deps: Deps, path: seq<nat>) {
    |path| > 0 && forall k :: Hop(deps, path, k)
  }

  ghost predicate Hop(deps: Deps, path: seq<nat>, k: int) {
    0 <= k < |path| - 1 ==> path[k + 1] in DepsOf(deps, path[k])
  }

  lemma WalkRest(deps: Deps, path: seq<nat>)
    requires Walk(deps, path) && |path| > 1
    ensures Walk(deps, path[1..]) && path[1] in DepsOf(deps, path[0])
  {
    assert Hop(deps, path, 0);
    forall k ensures Hop(deps, path[1..], k) {
      assert Hop(deps, path, k + 1);
    }
  }

  lemma WalkOn(deps: Deps, path: seq<nat>, v: nat)
    requires Walk(deps, path) && v in DepsOf(deps, path[|path| - 1])
    ensures Walk(deps, path + [v])
  {
    forall k ensures Hop(deps, path + [v], k) {
      assert Hop(deps, path, k);
    }
  }

  lemma WalkFrom(deps: Deps, path: seq<nat>, i: nat)
    requires Walk(deps, path) && i < |path|
    ensures Walk(deps, path[i..])
  {
    forall k ensures Hop(deps, path[i..], k) {
      assert Hop(deps, path, i + k);
    }
  }
}
