/**
 `Type::isSame` on graphs of types that may be cyclic.

 Types are compared under assumptions: a pair under comparison is assumed equal when it is
 met again, and a type may be assumed equal to one other type only. The answer is `true`
 exactly when some such assignment of types to types is consistent everywhere.
 */
module TypeEquality {
  datatype Field = Field(name: string, offset: nat, typ: nat)

  /** A type, with the types it refers to by number. */
  datatype Node =
    | Numeric(size: nat, kind: nat)
    | Enum(size: nat, values: map<string, int>)
    | Opaque(size: nat, name: string)
    | Pointer(size: nat, on: nat)
    | Array(size: nat, dimension: nat, on: nat)
    | Container(size: nat, factory: nat, on: nat)
    | Compound(size: nat, fields: seq<Field>)

  type Graph = map<nat, Node>

  type Pairs = map<nat, nat>

  function Children(n: Node): seq<nat> {
    match n
    case Pointer(_, on) => [on]
    case Array(_, _, on) => [on]
    case Container(_, _, on) => [on]
    case Compound(_, fields) => seq(|fields|, i requires 0 <= i < |fields| => fields[i].typ)
    case _ => []
  }

  ghost predicate Closed(g: Graph) {
    forall t, i :: t in g && 0 <= i < |Children(g[t])| ==> Children(g[t])[i] in g
  }

  /** All but the types they refer to is equal. */
  predicate Alike(l: Node, r: Node) {
    match l
    case Numeric(size, kind) => r == l
    case Enum(_, _) => r == l
    case Opaque(_, _) => r == l
    case Pointer(size, _) => r.Pointer? && r.size == size
    case Array(size, dimension, _) => r.Array? && r.size == size && r.dimension == dimension
    case Container(size, factory, _) => r.Container? && r.size == size && r.factory == factory
    case Compound(size, fields) =>
      && r.Compound? && r.size == size && |r.fields| == |fields|
      && forall i :: 0 <= i < |fields| ==> SameField(fields[i], r.fields[i])
  }

  predicate SameField(l: Field, r: Field) {
    l.name == r.name && l.offset == r.offset
  }

  // ----- consistent assumptions -----

  ghost predicate Agrees(f: Pairs, l: nat, r: nat) {
    l == r || (l in f && f[l] == r)
  }

  /** The two types are alike, and so are, under the assumptions, the types they refer to. */
  ghost predicate Consistent(g: Graph, f: Pairs, l: nat, r: nat) {
    && l in g && r in g && Alike(g[l], g[r]) && |Children(g[l])| == |Children(g[r])|
    && forall i :: 0 <= i < |Children(g[l])| ==> Agrees(f, Children(g[l])[i], Children(g[r])[i])
  }

  ghost predicate Verified(g: Graph, f: Pairs, l: nat) {
    l in f ==> Consistent(g, f, l, f[l])
  }

  ghost predicate Bisimulation(g: Graph, f: Pairs) {
    forall l :: Verified(g, f, l)
  }

  ghost predicate Equal(g: Graph, l: nat, r: nat) {
    exists f :: Bisimulation(g, f) && Agrees(f, l, r)
  }

  ghost predicate Extends(f: Pairs, e: Pairs) {
    forall l :: l in e ==> l in f && f[l] == e[l]
  }

  /** No type stands for two. */
  ghost predicate Injective(f: Pairs) {
    forall l, m :: l in f && m in f && f[l] == f[m] ==> l == m
  }

  // ----- the comparison -----

  /** Every pair assumed in `after` and not in `before` has been checked. */
  ghost predicate Checked(g: Graph, before: Pairs, after: Pairs) {
    Extends(after, before) && forall l :: l !in before ==> Verified(g, after, l)
  }

  lemma CheckedMore(g: Graph, a: Pairs, b: Pairs, c: Pairs)
    requires Checked(g, a, b) && Checked(g, b, c)
    ensures Checked(g, a, c)
  {
    forall l | l !in a ensures Verified(g, c, l) {
      if l in b {
        assert Verified(g, b, l);
        ConsistentMore(g, b, c, l, b[l]);
      }
    }
  }

  lemma ConsistentMore(g: Graph, b: Pairs, c: Pairs, l: nat, r: nat)
    requires Consistent(g, b, l, r) && Extends(c, b)
    ensures Consistent(g, c, l, r)
  {
    forall i | 0 <= i < |Children(g[l])| ensures Agrees(c, Children(g[l])[i], Children(g[r])[i]) {
      assert Agrees(b, Children(g[l])[i], Children(g[r])[i]);
    }
  }

  ghost predicate AgreeUpTo(f: Pairs, ls: seq<nat>, rs: seq<nat>, n: nat)
    requires n <= |ls| == |rs|
  {
    forall j :: 0 <= j < n ==> Agrees(f, ls[j], rs[j])
  }

  lemma AgreeNext(b: Pairs, c: Pairs, ls: seq<nat>, rs: seq<nat>, n: nat)
    requires n < |ls| == |rs| && Extends(c, b) && AgreeUpTo(b, ls, rs, n) && Agrees(c, ls[n], rs[n])
    ensures AgreeUpTo(c, ls, rs, n + 1)
  {
    forall j | 0 <= j < n ensures Agrees(c, ls[j], rs[j]) {
      assert Agrees(b, ls[j], rs[j]);
    }
  }

  /** The first `n` fields have the same names and offsets; other types have none. */
  ghost predicate FieldsUpTo(l: Node, r: Node, n: nat) {
    l.Compound? && r.Compound? && n <= |l.fields| && n <= |r.fields| ==> forall j :: 0 <= j < n ==> SameField(l.fields[j], r.fields[j])
  }

  lemma FieldsNext(l: Node, r: Node, n: nat)
    requires FieldsUpTo(l, r, n)
    requires l.Compound? && r.Compound? ==> n < |l.fields| && n < |r.fields| && SameField(l.fields[n], r.fields[n])
    ensures FieldsUpTo(l, r, n + 1)
  {
  }

  lemma SubsetSize(a: set<nat>, b: set<nat>)
    requires a <= b
    ensures |a| <= |b|
  {
    assert b == a + (b - a);
  }

  /** The number of types that no assumption has been made about. */
  ghost function Open(g: Graph, stack: Pairs): nat {
    |g.Keys - stack.Keys|
  }

  lemma OpenShrinks(g: Graph, a: Pairs, b: Pairs)
    requires Extends(b, a)
    ensures Open(g, b) <= Open(g, a)
  {
    SubsetSize(g.Keys - b.Keys, g.Keys - a.Keys);
  }

  /** `f` is a consistent assignment that the comparison has not departed from. */
  ghost predicate Guides(g: Graph, f: Pairs, stack: Pairs) {
    Bisimulation(g, f) && Extends(f, stack)
  }

  /** `rec_compare`. A guide, if there is one, forces the answer; a positive answer leaves only checked assumptions. */
  method RecCompare(g: Graph, left: nat, right: nat, stack0: Pairs, ghost f: Pairs) returns (same: bool, stack: Pairs)
    requires Closed(g) && left in g && right in g
    ensures Extends(stack, stack0)
    ensures same ==> Checked(g, stack0, stack) && Agrees(stack, left, right)
    ensures Guides(g, f, stack0) && Agrees(f, left, right) ==> same && Guides(g, f, stack)
    decreases Open(g, stack0), 1
  {
    stack := stack0;
    if left == right {
      return true, stack;
    }
    if left in stack {
      return stack[left] == right, stack;
    }
    stack := stack[left := right];
    assert g.Keys - stack.Keys == (g.Keys - stack0.Keys) - {left};
    ghost var began := stack;
    assert Guides(g, f, stack0) && Agrees(f, left, right) ==> Guides(g, f, began);
    same, stack := DoCompare(g, left, right, stack, f);
    if same {
      forall l | l !in stack0 ensures Verified(g, stack, l) {
        if l != left {
          assert l !in began && Verified(g, stack, l);
        }
      }
    }
  }

  /** `do_compare`, on a pair already assumed equal. */
  method DoCompare(g: Graph, left: nat, right: nat, stack0: Pairs, ghost f: Pairs) returns (same: bool, stack: Pairs)
    requires Closed(g) && left in g && right in g && left in stack0 && stack0[left] == right
    ensures Extends(stack, stack0)
    ensures same ==> Checked(g, stack0, stack) && Consistent(g, stack, left, right)
    ensures Guides(g, f, stack0) ==> same && Guides(g, f, stack)
    decreases Open(g, stack0), 3
  {
    var l, r := g[left], g[right];
    stack := stack0;
    if Bisimulation(g, f) {
      assert Verified(g, f, left);
    }
    if l.Compound? {
      if !r.Compound? || l.size != r.size || |l.fields| != |r.fields| {
        return false, stack;
      }
    } else if !Alike(l, r) {
      return false, stack;
    }
    same, stack := CompareChildren(g, left, right, stack, f);
  }

  method CompareChildren(g: Graph, left: nat, right: nat, stack0: Pairs, ghost f: Pairs) returns (same: bool, stack: Pairs)
    requires Closed(g) && left in g && right in g && |Children(g[left])| == |Children(g[right])|
    requires if g[left].Compound? then g[right].Compound? && g[left].size == g[right].size else Alike(g[left], g[right])
    ensures Extends(stack, stack0)
    ensures same ==> Checked(g, stack0, stack) && Consistent(g, stack, left, right)
    ensures Guides(g, f, stack0) && Consistent(g, f, left, right) ==> same && Guides(g, f, stack)
    decreases Open(g, stack0), 2
  {
    var ls, rs := Children(g[left]), Children(g[right]);
    ghost var guided := Guides(g, f, stack0) && Consistent(g, f, left, right);
    stack := stack0;
    for i: nat := 0 to |ls|
      invariant Extends(stack, stack0) && Checked(g, stack0, stack)
      invariant AgreeUpTo(stack, ls, rs, i) && FieldsUpTo(g[left], g[right], i)
      invariant guided ==> Guides(g, f, stack)
    {
      if g[left].Compound? && !SameField(g[left].fields[i], g[right].fields[i]) {
        return false, stack;
      }
      ghost var before := stack;
      OpenShrinks(g, stack0, stack);
      assert guided ==> Agrees(f, ls[i], rs[i]);
      same, stack := RecCompare(g, ls[i], rs[i], stack, f);
      if !same {
        return;
      }
      CheckedMore(g, stack0, before, stack);
      AgreeNext(before, stack, ls, rs, i);
      FieldsNext(g[left], g[right], i);
    }
    same := true;
  }

  /**
   `isSame`: true exactly when some assignment of types to types is consistent everywhere. Types that differ in an
   attribute are never the same; types that differ in none and refer to the same types always are. The pairs it has
   assumed by then are such an assignment, and tell whether the answer would be the same with the arguments
   exchanged.
   */
  method IsSame(g: Graph, a: nat, b: nat) returns (same: bool, stack: Pairs)
    requires Closed(g) && a in g && b in g
    ensures same <==> Equal(g, a, b)
    ensures same ==> SameAttributes(g[a], g[b])
    ensures SameAttributes(g[a], g[b]) && SameReferences(map[], g[a], g[b]) ==> same
    ensures same ==> Bisimulation(g, stack) && Agrees(stack, a, b)
    ensures same ==> (Equal(g, b, a) <==> Injective(stack))
  {
    ghost var f: Pairs := map[];
    if Equal(g, a, b) {
      if Equal(g, b, a) {
        f := InjectiveWhenSymmetric(g, a, b);
      } else {
        f :| Bisimulation(g, f) && Agrees(f, a, b);
      }
    }
    if a == b {
      stack := map[];
      assert Bisimulation(g, stack) && Agrees(stack, a, b);
      return true, stack;
    }
    if SameAttributes(g[a], g[b]) && SameReferences(map[], g[a], g[b]) {
      SameIsEqual(g, a, b);
    }
    stack := map[a := b];
    same, stack := DoCompare(g, a, b, stack, f);
    if same {
      forall l ensures Verified(g, stack, l) {
      }
      assert Bisimulation(g, stack) && Agrees(stack, a, b);
      EqualAttributes(g, a, b);
      if Injective(stack) {
        SymmetricWhenInjective(g, stack, a, b);
      } else if Injective(f) {
        InjectivePart(stack, f);
      }
    }
  }

  lemma InjectivePart(e: Pairs, f: Pairs)
    requires Extends(f, e) && Injective(f)
    ensures Injective(e)
  {
  }

  // ----- what equality means -----

  /** The type reached by following references, by position. */
  function Follow(g: Graph, t: nat, path: seq<nat>): (r: nat)
    requires t in g && Leads(g, t, path)
    ensures r in g
    decreases |path|
  {
    if path == [] then t else Follow(g, Children(g[t])[path[0]], path[1..])
  }

  predicate Leads(g: Graph, t: nat, path: seq<nat>)
    requires t in g
    decreases |path|
  {
    path == [] || (path[0] < |Children(g[t])| && Children(g[t])[path[0]] in g && Leads(g, Children(g[t])[path[0]], path[1..]))
  }

  /** Attribute by attribute: the category and the size, and what each category has of its own. */
  ghost predicate SameAttributes(l: Node, r: Node) {
    && (l.Numeric? <==> r.Numeric?) && (l.Enum? <==> r.Enum?) && (l.Opaque? <==> r.Opaque?) && (l.Pointer? <==> r.Pointer?)
    && (l.Array? <==> r.Array?) && (l.Container? <==> r.Container?) && (l.Compound? <==> r.Compound?)
    && l.size == r.size
    && (l.Numeric? && r.Numeric? ==> l.kind == r.kind)
    && (l.Enum? && r.Enum? ==> l.values == r.values)
    && (l.Opaque? && r.Opaque? ==> l.name == r.name)
    && (l.Array? && r.Array? ==> l.dimension == r.dimension)
    && (l.Container? && r.Container? ==> l.factory == r.factory)
    && (l.Compound? && r.Compound? ==>
          && |l.fields| == |r.fields|
          && forall i :: 0 <= i < |l.fields| ==> l.fields[i].name == r.fields[i].name && l.fields[i].offset == r.fields[i].offset)
  }

  /** What the two types refer to is the same type or a pair of `f`, field by field. */
  ghost predicate SameReferences(f: Pairs, l: Node, r: Node) {
    && (l.Pointer? && r.Pointer? ==> Agrees(f, l.on, r.on))
    && (l.Array? && r.Array? ==> Agrees(f, l.on, r.on))
    && (l.Container? && r.Container? ==> Agrees(f, l.on, r.on))
    && (l.Compound? && r.Compound? ==>
          forall i :: 0 <= i < |l.fields| && i < |r.fields| ==> Agrees(f, l.fields[i].typ, r.fields[i].typ))
  }

  lemma ConsistentExactly(g: Graph, f: Pairs, l: nat, r: nat)
    requires l in g && r in g
    ensures Consistent(g, f, l, r) <==> SameAttributes(g[l], g[r]) && SameReferences(f, g[l], g[r])
  {
    var ls, rs := Children(g[l]), Children(g[r]);
    assert g[l].Pointer? || g[l].Array? || g[l].Container? ==> |ls| == 1 && ls[0] == g[l].on;
    assert g[r].Pointer? || g[r].Array? || g[r].Container? ==> |rs| == 1 && rs[0] == g[r].on;
    if Consistent(g, f, l, r) && g[l].Compound? {
      var a, b := g[l].fields, g[r].fields;
      forall i | 0 <= i < |a| ensures a[i].name == b[i].name && a[i].offset == b[i].offset && Agrees(f, a[i].typ, b[i].typ) {
        assert SameField(a[i], b[i]);
        assert ls[i] == a[i].typ && rs[i] == b[i].typ;
      }
    }
  }

  /** The consistent assignments, attribute by attribute and reference by reference. */
  lemma BisimulationExactly(g: Graph, f: Pairs)
    ensures Bisimulation(g, f) <==>
              forall l :: l in f ==> l in g && f[l] in g && SameAttributes(g[l], g[f[l]]) && SameReferences(f, g[l], g[f[l]])
  {
    forall l | l in f && l in g && f[l] in g
      ensures Verified(g, f, l) <==> SameAttributes(g[l], g[f[l]]) && SameReferences(f, g[l], g[f[l]])
    {
      ConsistentExactly(g, f, l, f[l]);
    }
    if Bisimulation(g, f) {
      assert forall l :: l in f ==> Verified(g, f, l);
    }
  }

  /** Equal types agree in all their attributes. */
  lemma EqualAttributes(g: Graph, a: nat, b: nat)
    requires a in g && b in g && Equal(g, a, b)
    ensures SameAttributes(g[a], g[b])
  {
    var f :| Bisimulation(g, f) && Agrees(f, a, b);
    if a != b {
      assert Verified(g, f, a);
      ConsistentExactly(g, f, a, b);
    }
  }

  /** Two types with the same attributes that refer to the same types are equal. */
  lemma SameIsEqual(g: Graph, a: nat, b: nat)
    requires a in g && b in g && SameAttributes(g[a], g[b]) && SameReferences(map[], g[a], g[b])
    ensures Equal(g, a, b)
  {
    var f: Pairs := map[a := b];
    assert SameReferences(f, g[a], g[b]);
    ConsistentExactly(g, f, a, b);
    forall l ensures Verified(g, f, l) {
    }
    assert Bisimulation(g, f) && Agrees(f, a, b);
  }

  /** Equal types unfold alike: the same references lead somewhere, to types that agree in all but their references. */
  lemma {:induction false} EqualUnfolds(g: Graph, f: Pairs, l: nat, r: nat, path: seq<nat>)
    requires Closed(g) && Bisimulation(g, f) && Agrees(f, l, r) && l in g && r in g
    ensures Leads(g, l, path) <==> Leads(g, r, path)
    ensures Leads(g, l, path) ==> SameAttributes(g[Follow(g, l, path)], g[Follow(g, r, path)])
    decreases |path|
  {
    assert Verified(g, f, l);
    if path == [] {
      assert Equal(g, l, r);
      EqualAttributes(g, l, r);
    } else if path[0] < |Children(g[l])| {
      var cl, cr := Children(g[l])[path[0]], Children(g[r])[path[0]];
      assert Agrees(f, cl, cr);
      EqualUnfolds(g, f, cl, cr, path[1..]);
    }
  }

  /** Two structures with two integer fields; on the left the fields have types of their own, on the right they share one. */
  function Lopsided(): Graph {
    map[0 := Numeric(4, 0), 1 := Numeric(4, 0), 2 := Numeric(4, 0),
        3 := Compound(8, [Field("x", 0, 0), Field("y", 4, 1)]),
        4 := Compound(8, [Field("x", 0, 2), Field("y", 4, 2)])]
  }

  /** The answer depends on the order of the arguments: one type may stand for two, but not the other way round. */
  lemma NotSymmetric()
    ensures Equal(Lopsided(), 3, 4) && !Equal(Lopsided(), 4, 3)
  {
    var g := Lopsided();
    var f := map[0 := 2, 1 := 2, 3 := 4];
    assert Children(g[3]) == [0, 1] && Children(g[4]) == [2, 2];
    assert Children(g[0]) == [] && Children(g[1]) == [] && Children(g[2]) == [];
    forall l ensures Verified(g, f, l) {
    }
    assert Bisimulation(g, f) && Agrees(f, 3, 4);
    forall h ensures !(Bisimulation(g, h) && Agrees(h, 4, 3)) {
      assert Consistent(g, h, 4, 3) ==> Agrees(h, Children(g[4])[0], Children(g[3])[0]) && Agrees(h, Children(g[4])[1], Children(g[3])[1]);
      assert Bisimulation(g, h) ==> Verified(g, h, 4);
    }
  }

  /** When no type stands for two, the order does not matter. */
  lemma SymmetricWhenInjective(g: Graph, f: Pairs, l: nat, r: nat)
    requires Bisimulation(g, f) && Injective(f) && Agrees(f, l, r)
    ensures Equal(g, r, l)
  {
    var h: Pairs := map k | k in f.Values :: Preimage(f, k);
    forall k ensures Verified(g, h, k) {
      if k in h {
        var m := h[k];
        assert Verified(g, f, m);
        forall i | 0 <= i < |Children(g[k])| ensures Agrees(h, Children(g[k])[i], Children(g[m])[i]) {
          assert Agrees(f, Children(g[m])[i], Children(g[k])[i]);
        }
      }
    }
    assert Bisimulation(g, h) && Agrees(h, r, l);
  }

  /** When both orders give true, the pairs that both assume are an assignment in which no type stands for two. */
  lemma InjectiveWhenSymmetric(g: Graph, a: nat, b: nat) returns (both: Pairs)
    requires Equal(g, a, b) && Equal(g, b, a)
    ensures Bisimulation(g, both) && Injective(both) && Agrees(both, a, b)
  {
    var f :| Bisimulation(g, f) && Agrees(f, a, b);
    var h :| Bisimulation(g, h) && Agrees(h, b, a);
    both := map l | l in f && f[l] in h && h[f[l]] == l :: f[l];
    forall l ensures Verified(g, both, l) {
      if l in both {
        var r := f[l];
        assert Verified(g, f, l) && Verified(g, h, r);
        forall i | 0 <= i < |Children(g[l])| ensures Agrees(both, Children(g[l])[i], Children(g[r])[i]) {
          assert Agrees(f, Children(g[l])[i], Children(g[r])[i]) && Agrees(h, Children(g[r])[i], Children(g[l])[i]);
        }
      }
    }
  }

  /** Exchanging the arguments keeps a positive answer exactly when some consistent assignment lets no type stand for two. */
  lemma SymmetricExactlyWhenInjective(g: Graph, a: nat, b: nat)
    requires Equal(g, a, b)
    ensures Equal(g, b, a) <==> exists f :: Bisimulation(g, f) && Injective(f) && Agrees(f, a, b)
  {
    if Equal(g, b, a) {
      var f := InjectiveWhenSymmetric(g, a, b);
    }
    if f :| Bisimulation(g, f) && Injective(f) && Agrees(f, a, b) {
      SymmetricWhenInjective(g, f, a, b);
    }
  }

  ghost function Preimage(f: Pairs, k: nat): (l: nat)
    requires k in f.Values
    ensures l in f && f[l] == k
  {
    var l :| l in f && f[l] == k;
    l
  }
}
