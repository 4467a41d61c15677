/**
 Names within a default namespace.

 A registry keeps its types sorted by full name. Setting the default namespace rebuilds the names in use: each full name,
 and each name relative to the namespace or to one that encloses it. The deepest namespace that defines a relative name decides.
 */
module Namespaces {
  import opened NameOrder
  import opened Options

  datatype Entry = Entry(name: string, typ: nat)

  /** A table with its keys in strictly ascending order. */
  ghost predicate Sorted(global: seq<Entry>) {
    forall i, j :: 0 <= i < j < |global| ==> Before(global[i].name, global[j].name)
  }

  /** What `name` stands for among the first `n` entries. */
  function Find(global: seq<Entry>, n: nat, name: string): Option<nat>
    requires n <= |global|
  {
    if n == 0 then None
    else if global[n - 1].name == name then Some(global[n - 1].typ)
    else Find(global, n - 1, name)
  }

  function Get(names: map<string, nat>, name: string): Option<nat> {
    if name in names then Some(names[name]) else None
  }

  lemma {:induction false} NotFound(global: seq<Entry>, n: nat, name: string)
    requires n <= |global| && forall i :: 0 <= i < n ==> global[i].name != name
    ensures Find(global, n, name) == None
  {
    if n > 0 {
      NotFound(global, n - 1, name);
    }
  }

  lemma {:induction false} FoundEarly(global: seq<Entry>, n: nat, m: nat, name: string)
    requires n <= m <= |global| && forall i :: n <= i < m ==> global[i].name != name
    ensures Find(global, m, name) == Find(global, n, name)
  {
    if n < m {
      FoundEarly(global, n, m - 1, name);
    }
  }

  lemma NotBefore(global: seq<Entry>, i: nat)
    requires Sorted(global) && i < |global|
    ensures Find(global, i, global[i].name) == None
  {
    forall k | 0 <= k < i ensures global[k].name != global[i].name {
      Irreflexive(global[k].name);
    }
    NotFound(global, i, global[i].name);
  }

  // ----- namespaces -----

  function Normalized(name: string): (r: string)
    ensures |r| > 0 && r[|r| - 1] == MARK
  {
    if name == [] then [MARK] else if name[|name| - 1] != MARK then name + [MARK] else name
  }

  /** What an import makes of a relative name. */
  function Overlay(imported: Option<nat>, existing: Option<nat>, erase: bool): Option<nat> {
    if imported.Some? && (erase || existing.None?) then imported else existing
  }

  /** Where `lower_bound` points: the first entry that does not come before the name. */
  ghost predicate IsLowerBound(global: seq<Entry>, name: string, lo: nat) {
    && lo <= |global|
    && (forall i :: 0 <= i < lo ==> Before(global[i].name, name))
    && forall i :: lo <= i < |global| ==> !Before(global[i].name, name)
  }

  method LowerBound(global: seq<Entry>, name: string) returns (lo: nat)
    requires Sorted(global)
    ensures IsLowerBound(global, name, lo)
  {
    lo := 0;
    while lo < |global|
      invariant lo <= |global| && forall i :: 0 <= i < lo ==> Before(global[i].name, name)
    {
      var less := NameSort(global[lo].name, name);
      if !less {
        forall i | lo <= i < |global| ensures !Before(global[i].name, name) {
          if lo < i && Before(global[i].name, name) {
            Transitive(global[lo].name, global[i].name, name);
          }
        }
        return;
      }
      lo := lo + 1;
    }
  }

  lemma NoneBelow(global: seq<Entry>, prefix: string, lo: nat, r: string)
    requires IsLowerBound(global, prefix, lo)
    ensures Find(global, lo, prefix + r) == None
  {
    assert Begins(prefix + r, prefix);
    BeginsAfter(prefix + r, prefix);
    NotFound(global, lo, prefix + r);
  }

  /** Where the run of entries in the namespace ends, no more follow. */
  lemma NoneBeyond(global: seq<Entry>, prefix: string, lo: nat, it: nat, r: string)
    requires Sorted(global) && IsLowerBound(global, prefix, lo) && lo <= it <= |global|
    requires it < |global| ==> !Begins(global[it].name, prefix)
    ensures Find(global, |global|, prefix + r) == Find(global, it, prefix + r)
  {
    assert Begins(prefix + r, prefix);
    forall i | it <= i < |global| ensures global[i].name != prefix + r {
      if global[i].name == prefix + r {
        Contiguous(prefix, global[i].name, global[it].name);
        Transitive(global[it].name, global[i].name, global[it].name);
        Irreflexive(global[it].name);
      }
    }
    FoundEarly(global, it, |global|, prefix + r);
  }

  /** The names after an import of what the first `n` entries have in the namespace. */
  ghost predicate Imported(global: seq<Entry>, n: nat, norm: string, before: map<string, nat>, after: map<string, nat>, erase: bool)
    requires n <= |global|
  {
    forall r :: Get(after, r) == Overlay(Find(global, n, norm + r), Get(before, r), erase)
  }

  lemma ImportStep(global: seq<Entry>, it: nat, norm: string, rel: string, first: map<string, nat>, before: map<string, nat>,
                   after: map<string, nat>, erase: bool)
    requires Sorted(global) && it < |global| && Begins(global[it].name, norm) && rel == global[it].name[|norm|..]
    requires Imported(global, it, norm, first, before, erase)
    requires var less := if erase then before - {rel} else before; after == if rel in less then less else less[rel := global[it].typ]
    ensures Imported(global, it + 1, norm, first, after, erase)
  {
    assert global[it].name == norm + rel;
    NotBefore(global, it);
    forall r ensures Get(after, r) == Overlay(Find(global, it + 1, norm + r), Get(first, r), erase) {
      assert Get(before, r) == Overlay(Find(global, it, norm + r), Get(first, r), erase);
      assert (norm + r)[|norm|..] == r && (norm + rel)[|norm|..] == rel;
    }
  }

  lemma ImportBegins(global: seq<Entry>, lo: nat, norm: string, names: map<string, nat>, erase: bool)
    requires IsLowerBound(global, norm, lo)
    ensures Imported(global, lo, norm, names, names, erase)
  {
    forall r ensures Get(names, r) == Overlay(Find(global, lo, norm + r), Get(names, r), erase) {
      NoneBelow(global, norm, lo, r);
    }
  }

  lemma ImportEnds(global: seq<Entry>, lo: nat, it: nat, norm: string, before: map<string, nat>, after: map<string, nat>, erase: bool)
    requires Sorted(global) && IsLowerBound(global, norm, lo) && lo <= it <= |global|
    requires it < |global| ==> !Begins(global[it].name, norm)
    requires Imported(global, it, norm, before, after, erase)
    ensures Imported(global, |global|, norm, before, after, erase)
  {
    forall r ensures Get(after, r) == Overlay(Find(global, |global|, norm + r), Get(before, r), erase) {
      NoneBeyond(global, norm, lo, it, r);
    }
  }

  // ----- the default namespace -----

  predicate Absolute(name: string) {
    |name| > 0 && name[0] == MARK
  }

  /** An absolute name without empty parts, as every type is registered under. */
  ghost predicate Proper(name: string) {
    Absolute(name) && forall i :: 0 <= i < |name| - 1 ==> !(name[i] == MARK && name[i + 1] == MARK)
  }

  ghost predicate AllProper(global: seq<Entry>) {
    forall i :: 0 <= i < |global| ==> Proper(global[i].name)
  }

  predicate IdentifierChar(c: char) {
    c == '_' || c == ' ' || c == '<' || c == '>' || 'a' <= c <= 'z' || 'A' <= c <= 'Z' || '0' <= c <= '9'
  }

  /** How many characters come before the next mark. */
  function Run(s: string): (k: nat)
    ensures k <= |s| && (forall i :: 0 <= i < k ==> s[i] != MARK) && (k < |s| ==> s[k] == MARK)
  {
    if s == [] || s[0] == MARK then 0 else 1 + Run(s[1..])
  }

  /** The parts between marks, without the empty ones. */
  function Tokens(s: string): seq<string>
    decreases |s|
  {
    if s == [] then []
    else if s[0] == MARK then Tokens(s[1..])
    else [s[..Run(s)]] + Tokens(s[Run(s)..])
  }

  predicate ValidNamespace(name: string) {
    Absolute(name) && forall i :: 0 <= i < |Tokens(name)| ==> forall k :: 0 <= k < |Tokens(name)[i]| ==> IdentifierChar(Tokens(name)[i][k])
  }

  function Joined(space: string, tokens: seq<string>): string
    decreases |tokens|
  {
    if tokens == [] then space else Joined(space + tokens[0] + [MARK], tokens[1..])
  }

  lemma {:induction false} TokenIsName(s: string, i: nat)
    requires i < |Tokens(s)|
    ensures MARK !in Tokens(s)[i] && Tokens(s)[i] != []
    decreases |s|
  {
    if s[0] == MARK {
      TokenIsName(s[1..], i);
    } else if i > 0 {
      TokenIsName(s[Run(s)..], i - 1);
    }
  }

  /** What follows a mark has no empty part either, and does not start with a mark. */
  lemma TailProper(s: string, k: nat)
    requires Proper([MARK] + s) && k < |s| && s[k] == MARK
    ensures var tail := s[k + 1..]; tail == [] || (tail[0] != MARK && Proper([MARK] + tail))
  {
    var name, tail := [MARK] + s, s[k + 1..];
    var rest := [MARK] + tail;
    forall i | 0 <= i < |rest| - 1 ensures !(rest[i] == MARK && rest[i + 1] == MARK) {
      assert rest[i] == name[k + 1 + i] && rest[i + 1] == name[k + 2 + i];
    }
    if tail != [] {
      assert tail[0] == rest[1];
      assert rest[0] == MARK;
    }
  }

  /** Without empty parts, the parts together are the namespace itself. */
  lemma {:induction false} JoinedTokens(done: string, s: string)
    requires |s| > 0 ==> s[0] != MARK && Proper([MARK] + s)
    ensures Joined(done, Tokens(s)) == if s == [] then done else done + Normalized(s)
    decreases |s|
  {
    if s != [] {
      var k := Run(s);
      var token, rest := s[..k], s[k..];
      assert Tokens(s)[0] == token && Tokens(s)[1..] == Tokens(rest);
      var next := done + token + [MARK];
      if rest == [] {
        assert s == token && next == done + Normalized(s);
      } else {
        var tail := rest[1..];
        assert tail == s[k + 1..] && Tokens(rest) == Tokens(tail);
        TailProper(s, k);
        JoinedTokens(next, tail);
        NormalizedTail(done, token, tail, s);
      }
    }
  }

  lemma WholeNamespace(space: string)
    requires Proper(space)
    ensures Joined([MARK], Tokens(Normalized(space))) == Normalized(space)
  {
    var norm := Normalized(space);
    var s := norm[1..];
    assert Tokens(norm) == Tokens(s);
    assert norm == [MARK] + s;
    if s != [] {
      assert |space| > 1 && s[0] == space[1] && space[0] == MARK;
      assert Proper(norm);
    }
    JoinedTokens([MARK], s);
  }

  lemma NormalizedTail(done: string, token: string, tail: string, s: string)
    requires s == token + [MARK] + tail
    ensures (if tail == [] then done + token + [MARK] else done + token + [MARK] + Normalized(tail)) == done + Normalized(s)
  {
    if tail == [] {
      assert Normalized(s) == token + [MARK];
    } else {
      assert s[|s| - 1] == tail[|tail| - 1];
      assert Normalized(s) == token + [MARK] + Normalized(tail);
    }
  }

  // ----- the deepest namespace decides -----

  /** `e` is the namespace itself or one around it. */
  ghost predicate Encloses(e: string, space: string) {
    |e| > 0 && e[|e| - 1] == MARK && Begins(space, e)
  }

  ghost predicate Defines(global: seq<Entry>, e: string, r: string) {
    Find(global, |global|, e + r).Some?
  }

  /** What `r` stands for in `e`, when `e` is the deepest namespace that defines it. */
  ghost predicate Decides(global: seq<Entry>, space: string, e: string, r: string) {
    && Encloses(e, space) && Defines(global, e, r)
    && forall d :: Encloses(d, space) && |d| > |e| ==> !Defines(global, d, r)
  }

  ghost predicate Deepest(global: seq<Entry>, space: string, r: string, result: Option<nat>) {
    match result
    case Some(t) => exists e :: Decides(global, space, e, r) && Find(global, |global|, e + r) == Some(t)
    case None => forall e :: Encloses(e, space) ==> !Defines(global, e, r)
  }

  /** The names in use: every full name, and every relative name as the deepest namespace has it. */
  ghost predicate InUse(global: seq<Entry>, space: string, names: map<string, nat>) {
    && (forall a :: Absolute(a) ==> Get(names, a) == Find(global, |global|, a))
    && forall r :: !Absolute(r) ==> Deepest(global, space, r, Get(names, r))
  }

  /** The full names of the first `n` entries, and nothing else. */
  ghost predicate Full(global: seq<Entry>, n: nat, names: map<string, nat>)
    requires n <= |global|
  {
    forall a :: Get(names, a) == Find(global, n, a)
  }

  /** A name with an empty part in it is not registered. */
  lemma NotProper(global: seq<Entry>, space: string, a: string)
    requires AllProper(global) && |space| > 0 && space[|space| - 1] == MARK && Absolute(a)
    ensures Find(global, |global|, space + a) == None
  {
    var k := |space| - 1;
    assert (space + a)[k] == MARK && (space + a)[k + 1] == MARK;
    forall i | 0 <= i < |global| ensures global[i].name != space + a {
      assert Proper(global[i].name);
    }
    NotFound(global, |global|, space + a);
  }

  lemma RootIsDeepest(global: seq<Entry>, before: map<string, nat>, after: map<string, nat>)
    requires AllProper(global) && Full(global, |global|, before)
    requires Imported(global, |global|, [MARK], before, after, false)
    ensures InUse(global, [MARK], after)
  {
    forall a | Absolute(a) ensures Get(after, a) == Find(global, |global|, a) {
      NotProper(global, [MARK], a);
    }
    forall r | !Absolute(r) ensures Deepest(global, [MARK], r, Get(after, r)) {
      NotFound(global, |global|, r);
      assert forall e :: Encloses(e, [MARK]) ==> e == [MARK];
      assert Encloses([MARK], [MARK]);
      assert Get(after, r) == Find(global, |global|, [MARK] + r);
      assert Get(after, r).Some? ==> Decides(global, [MARK], [MARK], r);
    }
  }

  lemma NoMarkInside(outer: string, token: string, inner: string, i: nat)
    requires inner == outer + token + [MARK] && MARK !in token && |outer| <= i < |inner| - 1
    ensures inner[i] != MARK
  {
    assert inner[i] == token[i - |outer|];
  }

  /** The namespaces around an inner one are those around the outer one, and the inner one. */
  lemma EnclosesInner(e: string, outer: string, token: string, inner: string)
    requires inner == outer + token + [MARK] && MARK !in token && |outer| > 0 && outer[|outer| - 1] == MARK
    ensures Encloses(e, inner) <==> Encloses(e, outer) || e == inner
  {
    forall i: nat | |outer| <= i < |inner| - 1 ensures inner[i] != MARK {
      NoMarkInside(outer, token, inner, i);
    }
    if Encloses(e, inner) {
      assert inner[..|e|] == e;
      assert |e| <= |outer| ==> e == outer[..|e|];
      assert e[|e| - 1] == inner[|e| - 1];
    }
    if Encloses(e, outer) {
      assert inner[..|e|] == outer[..|e|];
    }
    assert inner[..|inner|] == inner;
  }

  lemma InnerIsDeepest(global: seq<Entry>, outer: string, token: string, inner: string, before: map<string, nat>, after: map<string, nat>)
    requires AllProper(global) && InUse(global, outer, before)
    requires inner == outer + token + [MARK] && MARK !in token && |outer| > 0 && outer[|outer| - 1] == MARK
    requires Imported(global, |global|, inner, before, after, true)
    ensures InUse(global, inner, after)
  {
    forall a | Absolute(a) ensures Get(after, a) == Find(global, |global|, a) {
      NotProper(global, inner, a);
    }
    forall e ensures Encloses(e, inner) <==> Encloses(e, outer) || e == inner {
      EnclosesInner(e, outer, token, inner);
    }
    forall r | !Absolute(r) ensures Deepest(global, inner, r, Get(after, r)) {
      OneDeeper(global, outer, inner, r, Get(before, r), Get(after, r));
    }
  }

  lemma OneDeeper(global: seq<Entry>, outer: string, inner: string, r: string, before: Option<nat>, after: Option<nat>)
    requires |outer| < |inner| && Deepest(global, outer, r, before)
    requires forall e :: Encloses(e, inner) <==> Encloses(e, outer) || e == inner
    requires after == Overlay(Find(global, |global|, inner + r), before, true)
    ensures Deepest(global, inner, r, after)
  {
    if Defines(global, inner, r) {
      assert Encloses(inner, inner);
      assert forall d :: Encloses(d, inner) ==> |d| <= |inner|;
      assert Decides(global, inner, inner, r);
    } else if before.Some? {
      var e :| Decides(global, outer, e, r) && Find(global, |global|, e + r) == before;
      assert Encloses(e, inner);
      assert Decides(global, inner, e, r);
    }
  }

  class Registry {
    const global: seq<Entry>
    var current: map<string, nat>
    var defaultNamespace: string

    constructor (global: seq<Entry>)
      ensures this.global == global && current == map[] && defaultNamespace == [MARK]
    {
      this.global, this.current, this.defaultNamespace := global, map[], [MARK];
    }

    /** `importNamespace`: every name in the namespace can be used without it. */
    method ImportNamespace(name: string, erase: bool)
      requires Sorted(global)
      modifies this`current
      ensures Imported(global, |global|, Normalized(name), old(current), current, erase)
    {
      var norm := Normalized(name);
      var it := LowerBound(global, norm);
      ghost var lo := it;
      ImportBegins(global, lo, norm, current, erase);
      while it < |global| && Begins(global[it].name, norm)
        invariant lo <= it <= |global|
        invariant Imported(global, it, norm, old(current), current, erase)
      {
        var rel := global[it].name[|norm|..];
        ghost var before := current;
        if erase {
          current := current - {rel};
        }
        if rel !in current {
          current := current[rel := global[it].typ];
        }
        ImportStep(global, it, norm, rel, old(current), before, current, erase);
        it := it + 1;
      }
      ImportEnds(global, lo, it, norm, old(current), current, erase);
    }

    /** `updateCurrentNameMap`. */
    method UpdateCurrentNames()
      requires Sorted(global) && AllProper(global)
      modifies this`current
      ensures InUse(global, Joined([MARK], Tokens(defaultNamespace)), current)
    {
      InsertAll();
      ghost var names := current;
      ImportNamespace([MARK], false);
      RootIsDeepest(global, names, current);
      var space := [MARK];
      var tokens := Tokens(defaultNamespace);
      for i := 0 to |tokens|
        invariant InUse(global, space, current) && |space| > 0 && space[|space| - 1] == MARK
        invariant Joined(space, tokens[i..]) == Joined([MARK], tokens)
      {
        TokenIsName(defaultNamespace, i);
        assert tokens[i..][1..] == tokens[i + 1..];
        space := Enter(space, tokens[i]);
      }
    }

    /** Every full name, in a table of its own. */
    method InsertAll()
      requires Sorted(global)
      modifies this`current
      ensures Full(global, |global|, current)
    {
      current := map[];
      for i := 0 to |global|
        invariant Full(global, i, current)
      {
        NotBefore(global, i);
        if global[i].name !in current {
          current := current[global[i].name := global[i].typ];
        }
      }
    }

    /** One namespace deeper. */
    method Enter(outer: string, token: string) returns (space: string)
      requires Sorted(global) && AllProper(global)
      requires InUse(global, outer, current) && |outer| > 0 && outer[|outer| - 1] == MARK && MARK !in token
      modifies this`current
      ensures space == outer + token + [MARK] && InUse(global, space, current)
    {
      ghost var names := current;
      space := outer + token + [MARK];
      ImportNamespace(space, true);
      InnerIsDeepest(global, outer, token, space, names, current);
    }

    /** `setDefaultNamespace`: the names in use are those of the deepest namespace that has them. */
    method SetDefaultNamespace(space: string) returns (ok: bool)
      requires Sorted(global) && AllProper(global)
      modifies this
      ensures ok <==> ValidNamespace(space)
      ensures !ok ==> current == old(current) && defaultNamespace == old(defaultNamespace)
      ensures ok ==> defaultNamespace == Normalized(space)
      ensures ok ==> InUse(global, Joined([MARK], Tokens(Normalized(space))), current)
      ensures ok && Proper(space) ==> InUse(global, Normalized(space), current)
    {
      ok := ValidNamespace(space);
      if ok {
        defaultNamespace := Normalized(space);
        UpdateCurrentNames();
        if Proper(space) {
          WholeNamespace(space);
        }
      }
    }
  }
}
