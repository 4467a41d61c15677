/** Building pointers and arrays from their names, with every type on the way registered once. */
module TypeBuilder {
  import opened TypeNames

  datatype Shape = Plain | PointerShape(of: nat) | ArrayShape(of: nat, dimension: nat)

  datatype Node = Node(name: string, shape: Shape)

  /** A dimension is an `int` where it is read and a `size_t` where it is used. */
  function Unsigned(n: int): nat {
    n % 0x1_0000_0000_0000_0000
  }

  function Key(name: string, m: Modifier): string {
    if m.Pointer? then name + "*" else name + Brackets(Unsigned(m.dimension))
  }

  function NameOf(name: string, ms: seq<Modifier>): string
    decreases |ms|
  {
    if ms == [] then name else NameOf(Key(name, ms[0]), ms[1..])
  }

  lemma {:induction false} NameOfNext(name: string, ms: seq<Modifier>, i: nat)
    requires i < |ms|
    ensures NameOf(name, ms[..i + 1]) == Key(NameOf(name, ms[..i]), ms[i])
    decreases i
  {
    if i == 0 {
      assert ms[..1][1..] == [];
    } else {
      NameOfNext(Key(name, ms[0]), ms[1..], i - 1);
      assert ms[..i + 1][1..] == ms[1..][..i] && ms[..i][1..] == ms[1..][..i - 1];
    }
  }

  lemma WrapIsKey(d: Derived, m: Modifier)
    requires Printable(Wrap(d, m))
    ensures Printable(d) && Print(Wrap(d, m)) == Key(Print(d), m)
  {
    if m.Array? {
      assert Unsigned(m.dimension) == m.dimension;
    }
  }

  /** The name that the modifiers spell is the written name of the type. */
  lemma {:induction false} NameOfIsPrint(d: Derived, ms: seq<Modifier>)
    requires Printable(Apply(d, ms))
    ensures Printable(d) && NameOf(Print(d), ms) == Print(Apply(d, ms))
    decreases |ms|
  {
    if ms != [] {
      NameOfIsPrint(Wrap(d, ms[0]), ms[1..]);
      WrapIsKey(d, ms[0]);
    }
  }

  // ----- a registry of types under their names -----

  datatype State = State(types: seq<Node>, names: map<string, nat>)

  ghost predicate Shaped(s: State, id: nat)
    requires id < |s.types|
  {
    var node := s.types[id];
    match node.shape
    case Plain => true
    case PointerShape(of) => of < id && node.name == Key(s.types[of].name, Pointer)
    case ArrayShape(of, n) => of < id && node.name == s.types[of].name + Brackets(n)
  }

  /** Every name leads to a type, every type is registered under its own name, and that name says what it is. */
  ghost predicate Valid(s: State) {
    && (forall n :: n in s.names ==> s.names[n] < |s.types|)
    && (forall id: nat :: id < |s.types| ==> s.types[id].name in s.names && s.names[s.types[id].name] == id)
    && forall id: nat :: id < |s.types| ==> Shaped(s, id)
  }

  /** The name is that of the type it leads to, not an alias. */
  ghost predicate Own(s: State, n: string) {
    n in s.names && s.names[n] < |s.types| && s.types[s.names[n]].name == n
  }

  /** None of the names on the way is an alias of something else. */
  ghost predicate Honest(s: State, name: string, ms: seq<Modifier>) {
    forall i :: 0 <= i <= |ms| && NameOf(name, ms[..i]) in s.names ==> Own(s, NameOf(name, ms[..i]))
  }

  /** All the types on the way are there. */
  ghost predicate Complete(s: State, name: string, ms: seq<Modifier>) {
    forall i :: 0 <= i <= |ms| ==> Own(s, NameOf(name, ms[..i]))
  }

  /** Types have been added under their own names, and nothing else has changed. */
  ghost predicate Grown(s: State, r: State) {
    && s.types <= r.types
    && (forall n :: n in s.names ==> n in r.names && r.names[n] == s.names[n])
    && forall n :: n in r.names && n !in s.names ==> Own(r, n)
  }

  lemma OwnStays(s: State, r: State, n: string)
    requires Grown(s, r) && (n in s.names ==> Own(s, n)) && n in r.names
    ensures Own(r, n)
  {
  }

  lemma GrownAgain(s: State, q: State, r: State)
    requires Grown(s, q) && Grown(q, r)
    ensures Grown(s, r)
  {
    forall n | n in r.names && n !in s.names ensures Own(r, n) {
      OwnStays(q, r, n);
    }
  }

  // ----- the types on the way, by what they are -----

  lemma {:induction false} ApplyNext(d: Derived, ms: seq<Modifier>, i: nat)
    requires i < |ms|
    ensures Apply(d, ms[..i + 1]) == Wrap(Apply(d, ms[..i]), ms[i])
    decreases i
  {
    if i == 0 {
      assert ms[..1][1..] == [];
    } else {
      ApplyNext(Wrap(d, ms[0]), ms[1..], i - 1);
      assert ms[..i + 1][1..] == ms[1..][..i] && ms[..i][1..] == ms[1..][..i - 1];
    }
  }

  /** The type and all it is built from: under their own names if they are registered, or registered under them. */
  ghost predicate Along(s: State, d: Derived, complete: bool)
    requires Printable(d)
  {
    && (complete || Print(d) in s.names ==> Own(s, Print(d)))
    && (!d.Base? ==> Along(s, d.of, complete))
  }

  lemma {:induction false} CompleteIsHonest(s: State, d: Derived)
    requires Printable(d) && Along(s, d, true)
    ensures Along(s, d, false)
  {
    if !d.Base? {
      CompleteIsHonest(s, d.of);
    }
  }

  lemma {:induction false} AlongSteps(s: State, base: string, ms: seq<Modifier>, i: nat, complete: bool)
    requires i <= |ms| && Printable(Apply(Base(base), ms)) && Along(s, Apply(Base(base), ms), complete)
    ensures var d := Apply(Base(base), ms[..i]); Printable(d) && NameOf(base, ms[..i]) == Print(d) && Along(s, d, complete)
    decreases |ms| - i
  {
    if i == |ms| {
      assert ms[..i] == ms;
    } else {
      AlongSteps(s, base, ms, i + 1, complete);
      ApplyNext(Base(base), ms, i);
    }
    NameOfIsPrint(Base(base), ms[..i]);
  }

  lemma AlongIsHonest(s: State, base: string, ms: seq<Modifier>, complete: bool)
    requires Printable(Apply(Base(base), ms)) && Along(s, Apply(Base(base), ms), complete)
    ensures if complete then Complete(s, base, ms) else Honest(s, base, ms)
  {
    forall i | 0 <= i <= |ms| ensures complete || NameOf(base, ms[..i]) in s.names ==> Own(s, NameOf(base, ms[..i])) {
      AlongSteps(s, base, ms, i, complete);
    }
  }

  lemma {:induction false} CompleteIsAlong(s: State, base: string, ms: seq<Modifier>, i: nat)
    requires i <= |ms| && Complete(s, base, ms) && Printable(Apply(Base(base), ms[..i]))
    ensures Along(s, Apply(Base(base), ms[..i]), true)
    decreases i
  {
    assert Own(s, NameOf(base, ms[..i]));
    NameOfIsPrint(Base(base), ms[..i]);
    if i > 0 {
      ApplyNext(Base(base), ms, i - 1);
      CompleteIsAlong(s, base, ms, i - 1);
    }
  }

  lemma CompleteWhole(s: State, base: string, ms: seq<Modifier>)
    requires Complete(s, base, ms) && Printable(Apply(Base(base), ms))
    ensures Along(s, Apply(Base(base), ms), true)
  {
    assert ms[..|ms|] == ms;
    CompleteIsAlong(s, base, ms, |ms|);
  }

  lemma {:induction false} RootOfApply(d: Derived, ms: seq<Modifier>)
    ensures Root(Apply(d, ms)) == Root(d)
    decreases |ms|
  {
    if ms != [] {
      RootOfApply(Wrap(d, ms[0]), ms[1..]);
    }
  }

  /** A `size_t` that is kept as an `int`. */
  function AsInt(n: nat): int {
    var low := n % 0x1_0000_0000;
    if low < INT_LIMIT then low else low - 0x1_0000_0000
  }

  /** The type is not an array of arrays with a dimension beyond `int`. */
  ghost predicate SmallDimensions(s: State, t: nat)
    requires Valid(s) && t < |s.types|
    decreases t
  {
    assert Shaped(s, t);
    var shape := s.types[t].shape;
    shape.ArrayShape? ==> shape.dimension < INT_LIMIT && SmallDimensions(s, shape.of)
  }

  lemma KeepsSmall(n: nat)
    requires n < INT_LIMIT
    ensures Unsigned(AsInt(n)) == n
  {
  }

  /** Without its outermost dimension, an array has the name that the dimension is put on. */
  lemma Peels(s: State, t: nat, m: Modifier, ms: seq<Modifier>)
    requires Valid(s) && t < |s.types| && s.types[t].shape.ArrayShape? && SmallDimensions(s, t)
    requires m == Array(AsInt(s.types[t].shape.dimension))
    ensures var of := s.types[t].shape.of;
            of < t && SmallDimensions(s, of) && NameOf(s.types[of].name, [m] + ms) == NameOf(s.types[t].name, ms)
  {
    assert Shaped(s, t);
    KeepsSmall(s.types[t].shape.dimension);
    assert ([m] + ms)[1..] == ms;
  }

  /** The name cannot be read, or its base is not registered, or there is such a type. */
  datatype Outcome = Malformed | Unknown | Built(id: nat)

  class Registry {
    var types: seq<Node>
    var names: map<string, nat>

    constructor ()
      ensures Now() == State([], map[])
    {
      types, names := [], map[];
    }

    ghost function Now(): State
      reads this
    {
      State(types, names)
    }

    /** `addPointer` and `addArrayMajor`, one step: the type of that name, or a new one. */
    method Add(t: nat, m: Modifier) returns (r: nat)
      requires Valid(Now()) && t < |types|
      modifies this
      ensures Valid(Now()) && Grown(old(Now()), Now())
      ensures var key := Key(old(types)[t].name, m);
              key in names && names[key] == r && r < |types| && (key in old(names) ==> Now() == old(Now()))
    {
      var key := Key(types[t].name, m);
      if key in names {
        r := names[key];
      } else {
        r := |types|;
        types := types + [Node(key, if m.Pointer? then PointerShape(t) else ArrayShape(t, Unsigned(m.dimension)))];
        names := names[key := r];
        Added(old(Now()), Now(), t, m, key);
      }
    }

    /** `build` from a base type and modifiers. */
    method Build(base: nat, ms: seq<Modifier>) returns (r: nat)
      requires Valid(Now()) && base < |types|
      modifies this
      ensures Valid(Now()) && Grown(old(Now()), Now()) && r < |types|
      ensures var name := old(types)[base].name;
              Honest(old(Now()), name, ms) ==> types[r].name == NameOf(name, ms) && Complete(Now(), name, ms)
      ensures Complete(old(Now()), old(types)[base].name, ms) ==> Now() == old(Now())
    {
      ghost var s, name := Now(), types[base].name;
      r := base;
      for i := 0 to |ms|
        invariant Valid(Now()) && Grown(s, Now()) && r < |types|
        invariant Honest(s, name, ms) ==> types[r].name == NameOf(name, ms[..i])
        invariant Honest(s, name, ms) ==> forall j :: 0 <= j <= i ==> Own(Now(), NameOf(name, ms[..j]))
        invariant Complete(s, name, ms) ==> Now() == s
      {
        ghost var q, t := Now(), r;
        r := Add(r, ms[i]);
        GrownAgain(s, q, Now());
        NameOfNext(name, ms, i);
        Stepped(s, q, Now(), name, ms, i, t, r);
      }
      assert ms[..|ms|] == ms;
    }

    /** `build` from a name. */
    method BuildName(fullName: string) returns (r: Outcome)
      requires Valid(Now())
      modifies this
      ensures Valid(Now()) && Grown(old(Now()), Now())
      ensures r.Malformed? <==> Parse(fullName).None?
      ensures r.Unknown? <==> Parse(fullName).Some? && Root(Parse(fullName).value) !in old(names)
      ensures !r.Built? ==> Now() == old(Now())
      ensures r.Built? ==>
                var d := Parse(fullName).value;
                Printable(d) ==>
                  && (Along(old(Now()), d, false) ==>
                        r.id < |types| && types[r.id].name == Print(d) && Along(Now(), d, true) && names[Print(d)] == r.id)
                  && (Along(old(Now()), d, true) ==> Now() == old(Now()))
    {
      var parsed := ParseTypename(fullName);
      if parsed.None? {
        return Malformed;
      }
      var base, ms := parsed.value.base, parsed.value.modifiers;
      RootOfApply(Base(base), ms);
      if base !in names {
        return Unknown;
      }
      ghost var s, d := Now(), Apply(Base(base), ms);
      var id := Build(names[base], ms);
      r := Built(id);
      if Printable(d) {
        BuiltWhole(s, Now(), base, ms, id);
      }
    }

    /** Building a name twice gives one type, of that very name. */
    method BuildTwice(d: Derived) returns (first: Outcome, second: Outcome)
      requires Valid(Now()) && Printable(d) && Canonical(Root(d)) && Root(d) in names && Along(Now(), d, false)
      modifies this
      ensures Valid(Now()) && Grown(old(Now()), Now())
      ensures first.Built? && first == second && first.id < |types| && types[first.id].name == Print(d)
    {
      RoundTrip(d);
      first := BuildName(Print(d));
      CompleteIsHonest(Now(), d);
      second := BuildName(Print(d));
    }

    /** `addArrayMinor`: a new innermost dimension, below all those that the type already has. */
    method AddArrayMinor(t: nat, dimension: int) returns (r: nat, ghost base: nat, ghost dims: seq<Modifier>)
      requires Valid(Now()) && t < |types|
      modifies this
      ensures Valid(Now()) && Grown(old(Now()), Now()) && r < |types|
      ensures base < |old(types)| && !old(types)[base].shape.ArrayShape? && forall i :: 0 <= i < |dims| ==> dims[i].Array?
      ensures SmallDimensions(old(Now()), t) ==> old(types)[t].name == NameOf(old(types)[base].name, dims)
      ensures Honest(old(Now()), old(types)[base].name, [Array(dimension)] + dims) ==>
                types[r].name == NameOf(old(types)[base].name, [Array(dimension)] + dims)
    {
      ghost var s := Now();
      var ms: seq<Modifier> := [];
      var inner: nat := t;
      while types[inner].shape.ArrayShape?
        invariant inner < |types| && Now() == s
        invariant SmallDimensions(s, t) ==> SmallDimensions(s, inner) && types[t].name == NameOf(types[inner].name, ms)
        invariant forall i :: 0 <= i < |ms| ==> ms[i].Array?
        decreases inner
      {
        assert Shaped(s, inner);
        var m := Array(AsInt(types[inner].shape.dimension));
        if SmallDimensions(s, t) {
          Peels(s, inner, m, ms);
        }
        ms := [m] + ms;
        inner := types[inner].shape.of;
      }
      base, dims := inner, ms;
      r := Build(inner, [Array(dimension)] + ms);
    }
  }

  lemma BuiltWhole(s: State, r: State, base: string, ms: seq<Modifier>, id: nat)
    requires Valid(s) && Valid(r) && base in s.names && Printable(Apply(Base(base), ms)) && id < |r.types|
    requires var name := s.types[s.names[base]].name;
             && (Honest(s, name, ms) ==> r.types[id].name == NameOf(name, ms) && Complete(r, name, ms))
             && (Complete(s, name, ms) ==> r == s)
    ensures var d := Apply(Base(base), ms);
            && (Along(s, d, false) ==> r.types[id].name == Print(d) && Along(r, d, true) && Print(d) in r.names && r.names[Print(d)] == id)
            && (Along(s, d, true) ==> r == s)
  {
    var d := Apply(Base(base), ms);
    NameOfIsPrint(Base(base), ms);
    if Along(s, d, false) {
      AlongIsHonest(s, base, ms, false);
      AlongSteps(s, base, ms, 0, false);
      CompleteWhole(r, base, ms);
    }
    if Along(s, d, true) {
      AlongIsHonest(s, base, ms, true);
      AlongSteps(s, base, ms, 0, true);
    }
  }

  lemma Added(s: State, r: State, t: nat, m: Modifier, key: string)
    requires Valid(s) && t < |s.types| && key == Key(s.types[t].name, m) && key !in s.names
    requires r == State(s.types + [Node(key, if m.Pointer? then PointerShape(t) else ArrayShape(t, Unsigned(m.dimension)))],
                        s.names[key := |s.types|])
    ensures Valid(r) && Grown(s, r)
  {
    forall id: nat | id < |r.types| ensures Shaped(r, id) {
      assert id < |s.types| ==> Shaped(s, id);
    }
  }

  lemma Stepped(s: State, q: State, r: State, name: string, ms: seq<Modifier>, i: nat, t: nat, id: nat)
    requires i < |ms| && Grown(s, q) && Grown(q, r) && Grown(s, r) && t < |q.types| && id < |r.types|
    requires NameOf(name, ms[..i + 1]) == Key(NameOf(name, ms[..i]), ms[i])
    requires var key := Key(q.types[t].name, ms[i]); key in r.names && r.names[key] == id && (key in q.names ==> r == q)
    requires Honest(s, name, ms) ==> q.types[t].name == NameOf(name, ms[..i])
    requires Honest(s, name, ms) ==> forall j :: 0 <= j <= i ==> Own(q, NameOf(name, ms[..j]))
    requires Complete(s, name, ms) ==> q == s
    ensures Honest(s, name, ms) ==> r.types[id].name == NameOf(name, ms[..i + 1])
    ensures Honest(s, name, ms) ==> forall j :: 0 <= j <= i + 1 ==> Own(r, NameOf(name, ms[..j]))
    ensures Complete(s, name, ms) ==> r == s
  {
    if Honest(s, name, ms) {
      var key := NameOf(name, ms[..i + 1]);
      OwnStays(s, r, key);
      forall j | 0 <= j <= i ensures Own(r, NameOf(name, ms[..j])) {
        OwnStays(q, r, NameOf(name, ms[..j]));
      }
      if Complete(s, name, ms) {
        assert Own(s, key);
      }
    }
  }
}
