/**
 The table of memory zones behind the Ruby values.

 Every registered pointer has one entry. An entry is held by the Ruby object that wraps
 the pointer and by the entries rooted at it, and goes away with its last holder.
 */
module MemoryZones {
  /** `root` is 0 when the pointer has no root. */
  datatype Entry = Entry(refcount: nat, wrapper: nat, owned: bool, root: nat)

  type Table = map<nat, Entry>

  /** Live Ruby objects and the pointer each wraps, 0 once invalidated. */
  type Zones = map<nat, nat>

  // ----- who holds an entry -----

  /** Entries being removed have a count of 0 until they are out of the table. */
  predicate Alive(t: Table, p: nat) {
    p in t && t[p].refcount > 0
  }

  ghost predicate AllAlive(t: Table) {
    forall p :: Active(t, p)
  }

  ghost predicate Active(t: Table, p: nat) {
    p in t ==> Alive(t, p)
  }

  function Rooted(t: Table, p: nat): set<nat> {
    set q | q in t && Alive(t, q) && t[q].root == p
  }

  predicate Wrapped(t: Table, z: Zones, p: nat) {
    p in t && t[p].wrapper in z && z[t[p].wrapper] == p
  }

  function Holders(t: Table, z: Zones, p: nat): nat {
    |Rooted(t, p)| + if Wrapped(t, z, p) then 1 else 0
  }

  /** Every count is the number of holders, but that of `debt`, which is one too many. */
  ghost predicate Counted(t: Table, z: Zones, debt: nat) {
    forall p :: Exact(t, z, debt, p)
  }

  ghost predicate Exact(t: Table, z: Zones, debt: nat, p: nat) {
    Alive(t, p) ==> t[p].refcount == Holders(t, z, p) + if p == debt then 1 else 0
  }

  /** Roots are registered, before what is rooted at them, and only pointers without a root are owned. */
  ghost predicate Founded(t: Table, births: map<nat, nat>) {
    forall p :: Grounded(t, births, p)
  }

  ghost predicate Grounded(t: Table, births: map<nat, nat>, p: nat) {
    p in t ==>
      && p != 0 && p in births && (t[p].root != 0 ==> !t[p].owned)
      && (Alive(t, p) && t[p].root != 0 ==> t[p].root in births && Alive(t, t[p].root) && births[t[p].root] < births[p])
  }

  /** A live Ruby object that has a pointer is the one its entry knows. */
  ghost predicate Anchored(t: Table, z: Zones) {
    forall o :: Tied(t, z, o)
  }

  ghost predicate Tied(t: Table, z: Zones, o: nat) {
    o in z && z[o] != 0 ==> Alive(t, z[o]) && t[z[o]].wrapper == o
  }

  /** The pointers initialised as values of a type, which share its layout. */
  function Users(types: map<nat, nat>, k: nat): set<nat> {
    set p | p in types && types[p] == k
  }

  /** Every type in use has a layout, counted once per user. */
  ghost predicate Shared(t: Table, types: map<nat, nat>, layouts: map<nat, nat>) {
    types.Keys <= t.Keys && (forall p :: Laid(types, layouts, p)) && (forall k :: Fair(types, layouts, k))
  }

  ghost predicate Laid(types: map<nat, nat>, layouts: map<nat, nat>, p: nat) {
    p in types ==> types[p] in layouts
  }

  ghost predicate Fair(types: map<nat, nat>, layouts: map<nat, nat>, k: nat) {
    k in layouts ==> layouts[k] == |Users(types, k)| > 0
  }

  /** The pointers that will have to be freed. */
  function Owned(t: Table): set<nat> {
    set p | p in t && Alive(t, p) && t[p].owned
  }

  // ----- one holder less -----

  function Less(t: Table, p: nat): Table
    requires Alive(t, p)
  {
    t[p := t[p].(refcount := t[p].refcount - 1)]
  }

  /** An entry left without holders no longer holds its root. */
  lemma LessRooted(t: Table, p: nat, q: nat)
    requires Alive(t, p)
    ensures Rooted(Less(t, p), q) == if t[p].refcount == 1 && q == t[p].root then Rooted(t, q) - {p} else Rooted(t, q)
  {
  }

  /** Dropping a holder: either others are left, or the entry in turn is one holder too many for its root. */
  lemma LessCounted(t: Table, z: Zones, births: map<nat, nat>, p: nat)
    requires Counted(t, z, p) && Founded(t, births) && Alive(t, p)
    ensures Counted(Less(t, p), z, if t[p].refcount == 1 then t[p].root else 0)
    ensures t[p].refcount == 1 ==> Holders(t, z, p) == 0
  {
    var u, debt := Less(t, p), if t[p].refcount == 1 then t[p].root else 0;
    assert Exact(t, z, p, p);
    forall q ensures Exact(u, z, debt, q) {
      assert Exact(t, z, p, q) && Grounded(t, births, q);
      LessRooted(t, p, q);
      if t[p].refcount == 1 && q == t[p].root {
        assert p in Rooted(t, q);
      }
    }
  }

  lemma LessFounded(t: Table, births: map<nat, nat>, p: nat)
    requires Founded(t, births) && Alive(t, p) && (t[p].refcount == 1 ==> Rooted(t, p) == {})
    ensures Founded(Less(t, p), births)
  {
    forall q ensures Grounded(Less(t, p), births, q) {
      assert Grounded(t, births, q);
      if q in t && Alive(t, q) {
        assert q in Rooted(t, t[q].root);
      }
    }
  }

  lemma LessAnchored(t: Table, z: Zones, p: nat)
    requires Anchored(t, z) && Alive(t, p) && (t[p].refcount == 1 ==> !Wrapped(t, z, p))
    ensures Anchored(Less(t, p), z)
  {
    forall o ensures Tied(Less(t, p), z, o) {
      assert Tied(t, z, o);
    }
  }

  lemma LessOwned(t: Table, p: nat)
    requires Alive(t, p)
    ensures multiset(Owned(t)) == multiset(Owned(Less(t, p))) + if t[p].refcount == 1 && t[p].owned then multiset{p} else multiset{}
  {
    var u := Less(t, p);
    assert Owned(u) == if t[p].refcount == 1 then Owned(t) - {p} else Owned(t);
  }

  /** Taking an entry without holders out. */
  lemma Out(t: Table, z: Zones, births: map<nat, nat>, p: nat)
    requires Counted(t, z, 0) && Founded(t, births) && Anchored(t, z) && p in t && !Alive(t, p)
    ensures Counted(t - {p}, z, 0) && Founded(t - {p}, births) && Anchored(t - {p}, z) && Owned(t - {p}) == Owned(t)
  {
    var u := t - {p};
    forall q ensures Exact(u, z, 0, q) && Grounded(u, births, q) && Tied(u, z, q) {
      assert Exact(t, z, 0, q) && Grounded(t, births, q) && Tied(t, z, q);
      assert Rooted(u, q) == Rooted(t, q);
    }
  }

  /** A pointer gone, its type has one user less; the last one takes the layout along. */
  lemma OutShared(t: Table, types: map<nat, nat>, layouts: map<nat, nat>, p: nat)
    requires Shared(t, types, layouts) && p in types
    ensures var k := types[p];
            && k in layouts && layouts[k] > 0
            && Shared(t - {p}, types - {p}, if layouts[k] == 1 then layouts - {k} else layouts[k := layouts[k] - 1])
  {
    assert Laid(types, layouts, p);
    var k, rest := types[p], types - {p};
    assert Fair(types, layouts, k) && p in Users(types, k);
    assert Users(rest, k) == Users(types, k) - {p};
    var left := if layouts[k] == 1 then layouts - {k} else layouts[k := layouts[k] - 1];
    forall q ensures Fair(rest, left, q) {
      assert Fair(types, layouts, q);
      if q != k {
        assert Users(rest, q) == Users(types, q);
      }
    }
    forall q ensures Laid(rest, left, q) {
      assert Laid(types, layouts, q);
      if q in rest && rest[q] == k {
        assert q in Users(rest, k);
      }
    }
  }

  // ----- one entry more -----

  /** The table with a new entry, which holds its root. */
  function More(t: Table, p: nat, e: Entry): Table
    requires p !in t && e.root != p && (e.root != 0 ==> e.root in t)
  {
    var u := t[p := e];
    if e.root == 0 then u else u[e.root := u[e.root].(refcount := u[e.root].refcount + 1)]
  }

  lemma MoreRooted(t: Table, p: nat, e: Entry, q: nat)
    requires p !in t && e.root != p && e.refcount > 0 && (e.root != 0 ==> Alive(t, e.root))
    ensures Rooted(More(t, p, e), q) == if q == e.root then Rooted(t, q) + {p} else Rooted(t, q)
  {
  }

  lemma Unrooted(t: Table, births: map<nat, nat>, p: nat)
    requires Founded(t, births) && p !in t && p != 0
    ensures Rooted(t, p) == {}
  {
    forall r | r in t ensures r !in Rooted(t, p) {
      assert Grounded(t, births, r);
    }
  }

  lemma MoreCounted(t: Table, z: Zones, births: map<nat, nat>, p: nat, e: Entry)
    requires Counted(t, z, 0) && Founded(t, births) && p !in t && p != 0 && e.wrapper !in z
    requires e.refcount == 1 && e.root != p && (e.root != 0 ==> Alive(t, e.root))
    ensures Counted(More(t, p, e), z[e.wrapper := p], 0)
  {
    var v, y := More(t, p, e), z[e.wrapper := p];
    Unrooted(t, births, p);
    forall q ensures Exact(v, y, 0, q) {
      assert Exact(t, z, 0, q) && Grounded(t, births, q);
      MoreRooted(t, p, e, q);
    }
  }

  lemma MoreFounded(t: Table, z: Zones, births: map<nat, nat>, p: nat, e: Entry, now: nat)
    requires Founded(t, births) && Anchored(t, z) && p !in t && p != 0 && e.refcount > 0
    requires e.root != p && (e.root != 0 ==> !e.owned && Alive(t, e.root))
    requires forall q :: q in births ==> births[q] < now
    ensures Founded(More(t, p, e), births[p := now]) && Anchored(More(t, p, e), z[e.wrapper := p])
  {
    var v, y, b := More(t, p, e), z[e.wrapper := p], births[p := now];
    assert Grounded(t, births, e.root);
    forall q ensures Grounded(v, b, q) && Tied(v, y, q) {
      assert Grounded(t, births, q) && Tied(t, z, q);
    }
  }

  /** A Ruby object that lets go of its pointer leaves the entry with one holder too many. */
  lemma LooseEnd(t: Table, z: Zones, births: map<nat, nat>, o: nat)
    requires Counted(t, z, 0) && Founded(t, births) && Anchored(t, z) && o in z && z[o] != 0
    ensures Alive(t, z[o]) && Counted(t, z[o := 0], z[o]) && Anchored(t, z[o := 0])
  {
    var p, y := z[o], z[o := 0];
    assert Tied(t, z, o);
    forall q ensures Exact(t, y, p, q) && Tied(t, y, q) {
      assert Exact(t, z, 0, q) && Tied(t, z, q) && Grounded(t, births, q);
    }
  }

  // ----- dropping a holder -----

  /** What the operations change. */
  datatype State = State(table: Table, types: map<nat, nat>, layouts: map<nat, nat>, freed: seq<nat>)

  /** Everything in order, but for one holder too many of `debt`. */
  ghost predicate Sound(s: State, z: Zones, births: map<nat, nat>, debt: nat) {
    Counted(s.table, z, debt) && Founded(s.table, births) && Anchored(s.table, z) && Shared(s.table, s.types, s.layouts)
  }

  /** Everything that was to be freed, once per registration: already done, or still to do. */
  function Due(s: State): multiset<nat> {
    multiset(s.freed) + multiset(Owned(s.table))
  }

  /** Without holders left, an owned zone is freed. */
  function Dropped(s: State, p: nat): State
    requires Alive(s.table, p)
  {
    s.(table := Less(s.table, p),
    freed := if s.table[p].refcount == 1 && s.table[p].owned then s.freed + [p] else s.freed)
  }

  /** The entry goes, and the layout of its type too if no other value uses it. */
  function Forgotten(s: State, p: nat): State {
    if p in s.types && s.types[p] in s.layouts then
      var k := s.types[p];
      State(s.table - {p}, s.types - {p}, if s.layouts[k] <= 1 then s.layouts - {k} else s.layouts[k := s.layouts[k] - 1], s.freed)
    else s.(table := s.table - {p})
  }

  /** Drops one holder of `p`; without holders left, the entry stops holding its root, then goes. */
  ghost function Released(s: State, births: map<nat, nat>, p: nat): State
    decreases if p in births then births[p] else 0
  {
    if !Alive(s.table, p) then s
    else
      var root := s.table[p].root;
      if s.table[p].refcount > 1 then Dropped(s, p)
      else if root != 0 && root in births && p in births && births[root] < births[p] then
        Forgotten(Released(Dropped(s, p), births, root), p)
      else Forgotten(Dropped(s, p), p)
  }

  lemma DroppedSound(s: State, z: Zones, births: map<nat, nat>, p: nat)
    requires Sound(s, z, births, p) && Alive(s.table, p)
    ensures Sound(Dropped(s, p), z, births, if s.table[p].refcount == 1 then s.table[p].root else 0)
    ensures Due(Dropped(s, p)) == Due(s)
  {
    LessCounted(s.table, z, births, p);
    LessFounded(s.table, births, p);
    LessAnchored(s.table, z, p);
    LessOwned(s.table, p);
  }

  lemma ForgottenSound(s: State, z: Zones, births: map<nat, nat>, p: nat)
    requires Sound(s, z, births, 0) && p in s.table && !Alive(s.table, p)
    ensures Sound(Forgotten(s, p), z, births, 0) && Due(Forgotten(s, p)) == Due(s)
    ensures p in s.types ==> s.types[p] in s.layouts && s.layouts[s.types[p]] > 0
  {
    Out(s.table, z, births, p);
    if p in s.types {
      OutShared(s.table, s.types, s.layouts, p);
    }
  }

  /** Entries that are on their way out stay as they are, and no other joins them. */
  ghost predicate Narrows(old': State, new': State) {
    forall q :: Fades(old', new', q)
  }

  /** Entries change in nothing but their count. */
  predicate SameBut(a: Entry, b: Entry) {
    a.wrapper == b.wrapper && a.owned == b.owned && a.root == b.root
  }

  ghost predicate Fades(old': State, new': State, q: nat) {
    && (q in old'.table && !Alive(old'.table, q) ==> q in new'.table && new'.table[q] == old'.table[q])
    && (q in new'.table ==> q in old'.table && (Alive(old'.table, q) ==> Alive(new'.table, q)) && SameBut(old'.table[q], new'.table[q]))
    && (q in new'.table && q in old'.types ==> q in new'.types && new'.types[q] == old'.types[q])
  }

  lemma ForgottenNarrows(s: State, r: State, p: nat)
    requires Alive(s.table, p) && s.table[p].refcount == 1 && Narrows(Dropped(s, p), r)
    ensures p in r.table && !Alive(r.table, p) && Narrows(s, Forgotten(r, p))
  {
    assert Fades(Dropped(s, p), r, p);
    forall q ensures Fades(s, Forgotten(r, p), q) {
      assert Fades(Dropped(s, p), r, q);
    }
  }

  lemma {:induction false} ReleasedNarrows(s: State, births: map<nat, nat>, p: nat)
    ensures Narrows(s, Released(s, births, p))
    decreases if p in births then births[p] else 0
  {
    if Alive(s.table, p) && s.table[p].refcount == 1 {
      var d, root := Dropped(s, p), s.table[p].root;
      if root != 0 && root in births && p in births && births[root] < births[p] {
        ReleasedNarrows(d, births, root);
        ForgottenNarrows(s, Released(d, births, root), p);
      } else {
        ForgottenNarrows(s, d, p);
      }
    }
  }

  /** Dropping a holder leaves every count exact again, and frees each owned zone that goes, once. */
  lemma {:induction false} ReleasedSound(s: State, z: Zones, births: map<nat, nat>, p: nat)
    requires Sound(s, z, births, p) && Alive(s.table, p)
    ensures Sound(Released(s, births, p), z, births, 0) && Due(Released(s, births, p)) == Due(s)
    decreases if p in births then births[p] else 0
  {
    var d, root := Dropped(s, p), s.table[p].root;
    assert Grounded(s.table, births, p);
    DroppedSound(s, z, births, p);
    if s.table[p].refcount == 1 {
      if root == 0 {
        ForgottenSound(d, z, births, p);
      } else {
        assert Grounded(d.table, births, root);
        ReleasedSound(d, z, births, root);
        ReleasedNarrows(d, births, root);
        assert Fades(d, Released(d, births, root), p);
        ForgottenSound(Released(d, births, root), z, births, p);
      }
    }
  }

  // ----- nothing is forgotten -----

  lemma {:induction false} Youngest(s: set<nat>, births: map<nat, nat>) returns (p: nat)
    requires s != {} && s <= births.Keys
    ensures p in s && forall q :: q in s ==> births[q] <= births[p]
    decreases |s|
  {
    p :| p in s;
    var rest := s - {p};
    if rest != {} {
      var y := Youngest(rest, births);
      if births[y] > births[p] {
        p := y;
      }
    }
  }

  lemma Unused(types: map<nat, nat>, layouts: map<nat, nat>, k: nat)
    requires types == map[] && Fair(types, layouts, k)
    ensures k !in layouts
  {
    assert Users(types, k) == {};
  }

  lemma ChildlessIsLoose(t: Table, z: Zones, births: map<nat, nat>, p: nat)
    requires Founded(t, births) && Alive(t, p) && (forall o :: o in z ==> z[o] == 0)
    requires t.Keys <= births.Keys && forall q :: q in t ==> births[q] <= births[p]
    ensures !Exact(t, z, 0, p)
  {
    forall q | q in t ensures q !in Rooted(t, p) {
      assert Grounded(t, births, q) && Grounded(t, births, p);
    }
    assert Rooted(t, p) == {} && Grounded(t, births, p);
  }

  /** Once no Ruby object has a pointer any more, no entry is left, and everything owned has been freed. */
  lemma Drained(s: State, z: Zones, births: map<nat, nat>)
    requires Sound(s, z, births, 0) && AllAlive(s.table) && (forall o :: o in z ==> z[o] == 0)
    ensures s.table == map[] && s.types == map[] && s.layouts == map[] && Due(s) == multiset(s.freed)
  {
    forall p | p in s.table ensures p in births {
      assert Grounded(s.table, births, p);
    }
    if s.table.Keys != {} {
      var p := Youngest(s.table.Keys, births);
      assert Active(s.table, p);
      ChildlessIsLoose(s.table, z, births, p);
    }
    assert s.table.Keys == {} && s.types.Keys == {};
    forall k ensures k !in s.layouts {
      assert Fair(s.types, s.layouts, k);
      Unused(s.types, s.layouts, k);
    }
    assert Owned(s.table) == {};
  }

  // ----- the table -----

  class MemoryTable {
    var table: Table
    var zones: Zones
    var types: map<nat, nat>
    var layouts: map<nat, nat>
    var freed: seq<nat>

    ghost var births: map<nat, nat>
    ghost var now: nat
    ghost var registered: multiset<nat>

    ghost function Content(): State
      reads this
    {
      State(table, types, layouts, freed)
    }

    /** Counts are exact, and each owned registration is freed or still in the table. */
    ghost predicate Valid()
      reads this
    {
      Sound(Content(), zones, births, 0) && Due(Content()) == registered && Settled()
    }

    /** No entry is on its way out. */
    ghost predicate Settled()
      reads this
    {
      AllAlive(table) && forall q :: q in births ==> births[q] < now
    }

    constructor ()
      ensures Valid() && table == map[] && zones == map[] && freed == [] && registered == multiset{}
    {
      table, zones, types, layouts, freed := map[], map[], map[], map[], [];
      births, now, registered := map[], 0, multiset{};
    }

    /** `memory_unref`, on a pointer that has one holder less than its count. */
    method Unref(ptr: nat)
      requires Sound(Content(), zones, births, ptr) && Alive(table, ptr)
      modifies this`table, this`types, this`layouts, this`freed
      ensures Content() == Released(old(Content()), births, ptr)
      decreases if ptr in births then births[ptr] else 0
    {
      var entry := table[ptr];
      ghost var s := Content();
      ghost var d := Dropped(s, ptr);
      DroppedSound(s, zones, births, ptr);
      assert Grounded(table, births, ptr);
      table := table[ptr := entry.(refcount := entry.refcount - 1)];
      if entry.refcount - 1 != 0 {
        return;
      }
      if entry.owned {
        freed := freed + [ptr];
      }
      assert Content() == d;
      if entry.root != 0 {
        assert Grounded(d.table, births, entry.root);
        ReleasedSound(d, zones, births, entry.root);
        ReleasedNarrows(d, births, entry.root);
        assert Fades(d, Released(d, births, entry.root), ptr);
        Unref(entry.root);
      }
      ghost var r := Content();
      assert Released(s, births, ptr) == Forgotten(r, ptr);
      ForgottenSound(r, zones, births, ptr);
      Forget(ptr);
    }

    /** Takes an entry without holders out; the layout of its type is always found. */
    method Forget(ptr: nat)
      requires ptr in types ==> types[ptr] in layouts && layouts[types[ptr]] > 0
      modifies this`table, this`types, this`layouts
      ensures Content() == Forgotten(old(Content()), ptr)
    {
      table := table - {ptr};
      if ptr in types {
        var k := types[ptr];
        layouts := if layouts[k] - 1 == 0 then layouts - {k} else layouts[k := layouts[k] - 1];
        types := types - {ptr};
      }
    }

    /** Takes the pointer from a Ruby object, which then no longer holds its entry. */
    method Invalidate(zone: nat)
      requires Valid() && zone in zones
      modifies this
      ensures Valid() && registered == old(registered) && zones == old(zones)[zone := 0]
      ensures forall p :: p in table ==> p in old(table) && SameBut(old(table)[p], table[p])
    {
      var ptr := zones[zone];
      if ptr != 0 {
        LooseEnd(table, zones, births, zone);
        zones := zones[zone := 0];
        ghost var s := Content();
        ReleasedSound(s, zones, births, ptr);
        ReleasedNarrows(s, births, ptr);
        Unref(ptr);
        forall p ensures Active(table, p) && (p in table ==> p in s.table && SameBut(s.table[p], table[p])) {
          assert Fades(s, Content(), p) && Active(s.table, p);
        }
      }
    }

    /** The garbage collector takes a Ruby object. */
    method Collect(zone: nat)
      requires Valid() && zone in zones
      modifies this
      ensures Valid() && registered == old(registered) && zones == old(zones) - {zone}
      ensures forall p :: p in table ==> p in old(table) && SameBut(old(table)[p], table[p])
    {
      Invalidate(zone);
      assert Grounded(table, births, 0);
      Untied(table, zones, zone);
      zones := zones - {zone};
    }

    /**
     `memory_wrap`: the Ruby object of a pointer, a new one if the pointer is not registered. Refusing a
     registration comes too late to undo it: the table is left out of order exactly when it is refused. The
     object of a registered pointer may have been collected while other entries held the pointer: the result
     is live, and wraps the pointer, exactly when that has not happened.
     */
    method Wrap(ptr: nat, owned: bool, root: nat, newZone: nat) returns (zone: nat, ok: bool)
      requires Valid() && ptr != 0 && newZone !in zones
      modifies this
      ensures ok <==> ptr in old(table) || (ptr != root && !(owned && root != 0) && (root == 0 || root in old(table)))
      ensures ok <==> Valid()
      ensures ok ==> ptr in table && table[ptr].wrapper == zone
      ensures ok ==> (zone in zones && zones[zone] == ptr <==> ptr !in old(table) || Wrapped(old(table), old(zones), ptr))
      ensures ptr in old(table) ==> table == old(table) && zones == old(zones)
      ensures ptr !in old(table) && ok ==> zones == old(zones)[newZone := ptr] && zone == newZone && table == More(old(table), ptr, Entry(1, newZone, owned, root))
      ensures registered == old(registered) + if ok && owned && ptr !in old(table) then multiset{ptr} else multiset{}
    {
      if ptr in table {
        return table[ptr].wrapper, true;
      }
      zone := newZone;
      zones := zones[newZone := ptr];
      ok := Register(ptr, newZone, owned, root, old(zones));
    }

    /** `memory_aset`, for the Ruby object just made for a pointer that is not registered. */
    method Register(ptr: nat, zone: nat, owned: bool, root: nat, ghost z: Zones) returns (ok: bool)
      requires Sound(Content(), z, births, 0) && Due(Content()) == registered && Settled()
      requires ptr !in table && ptr != 0 && zone !in z && zones == z[zone := ptr]
      modifies this
      ensures zones == old(zones)
      ensures ok <==> ptr != root && !(owned && root != 0) && (root == 0 || root in old(table))
      ensures ok ==> Valid()
      ensures !ok ==> !Valid()
      ensures ok ==> table == More(old(table), ptr, Entry(1, zone, owned, root))
      ensures registered == old(registered) + if ok && owned then multiset{ptr} else multiset{}
    {
      ok := ptr != root && !(owned && root != 0);
      if !ok {
        assert !Tied(table, zones, zone);
        assert !Anchored(table, zones);
      } else if root != 0 && root !in table {
        ok := false;
        table := table[ptr := Entry(1, zone, owned, root)];
        assert !Grounded(table, births, ptr);
        assert !Founded(table, births);
      } else {
        Insert(ptr, zone, owned, root, z);
      }
    }

    method Insert(ptr: nat, zone: nat, owned: bool, root: nat, ghost z: Zones)
      requires Sound(Content(), z, births, 0) && Due(Content()) == registered && Settled()
      requires ptr !in table && ptr != 0 && zone !in z && zones == z[zone := ptr]
      requires ptr != root && (root != 0 ==> !owned && root in table)
      modifies this`table, this`births, this`now, this`registered
      ensures Valid() && table == More(old(table), ptr, Entry(1, zone, owned, root))
      ensures registered == old(registered) + if owned then multiset{ptr} else multiset{}
    {
      ghost var s := Content();
      var entry := Entry(1, zone, owned, root);
      MoreAlive(table, ptr, entry);
      Registered(s, z, births, ptr, entry, now);
      Add(ptr, entry);
      births, now := births[ptr := now], now + 1;
      registered := registered + if owned then multiset{ptr} else multiset{};
      assert Content() == s.(table := More(s.table, ptr, entry));
    }

    method Add(ptr: nat, entry: Entry)
      requires ptr !in table && entry.root != ptr && (entry.root != 0 ==> entry.root in table)
      modifies this`table
      ensures table == More(old(table), ptr, entry)
    {
      table := table[ptr := entry];
      var root := entry.root;
      if root != 0 {
        table := table[root := table[root].(refcount := table[root].refcount + 1)];
      }
    }

    /** `memory_allocate`: a zone of its own for newly allocated memory. */
    method Allocate(ptr: nat, newZone: nat) returns (zone: nat)
      requires Valid() && ptr != 0 && newZone !in zones
      modifies this
      ensures Valid() && ptr in table && table[ptr].wrapper == zone
      ensures ptr in old(table) ==> table == old(table) && zones == old(zones) && registered == old(registered)
      ensures ptr !in old(table) ==>
                && zone == newZone && zones == old(zones)[newZone := ptr]
                && table == More(old(table), ptr, Entry(1, newZone, true, 0)) && registered == old(registered) + multiset{ptr}
    {
      var ok;
      zone, ok := Wrap(ptr, true, 0, newZone);
    }

    /** `memory_init`: a zone holds at most one value, whose type then keeps its layout. */
    method Init(zone: nat, kind: nat) returns (ok: bool)
      requires Valid() && zone in zones && zones[zone] != 0
      modifies this`types, this`layouts
      ensures Valid()
      ensures ok <==> zones[zone] !in old(types)
      ensures types == if ok then old(types)[zones[zone] := kind] else old(types)
    {
      var ptr := zones[zone];
      ok := ptr !in types;
      if ok {
        assert Tied(table, zones, zone);
        Initialised(table, types, layouts, ptr, kind);
        layouts := layouts[kind := if kind in layouts then layouts[kind] + 1 else 1];
        types := types[ptr := kind];
      }
    }
  }

  lemma Untied(t: Table, z: Zones, o: nat)
    requires Counted(t, z, 0) && Anchored(t, z) && o in z && z[o] == 0 && 0 !in t
    ensures Counted(t, z - {o}, 0) && Anchored(t, z - {o})
  {
    var y := z - {o};
    forall q ensures Exact(t, y, 0, q) && Tied(t, y, q) {
      assert Exact(t, z, 0, q) && Tied(t, z, q);
    }
  }

  lemma Registered(s: State, z: Zones, births: map<nat, nat>, p: nat, e: Entry, now: nat)
    requires Sound(s, z, births, 0) && p !in s.table && p != 0 && e.wrapper !in z && e.refcount == 1
    requires e.root != p && (e.root != 0 ==> !e.owned && Alive(s.table, e.root))
    requires forall q :: q in births ==> births[q] < now
    ensures var r := s.(table := More(s.table, p, e));
            && Sound(r, z[e.wrapper := p], births[p := now], 0)
            && Due(r) == Due(s) + if e.owned then multiset{p} else multiset{}
  {
    MoreCounted(s.table, z, births, p, e);
    MoreFounded(s.table, z, births, p, e, now);
    MoreOwned(s.table, p, e);
  }

  lemma MoreAlive(t: Table, p: nat, e: Entry)
    requires AllAlive(t) && p !in t && e.refcount == 1 && e.root != p && (e.root != 0 ==> e.root in t)
    ensures AllAlive(More(t, p, e)) && (e.root != 0 ==> Alive(t, e.root))
  {
    assert Active(t, e.root);
    forall q ensures Active(More(t, p, e), q) {
      assert Active(t, q);
    }
  }

  lemma MoreOwned(t: Table, p: nat, e: Entry)
    requires p !in t && e.refcount == 1 && e.root != p && (e.root != 0 ==> Alive(t, e.root))
    ensures multiset(Owned(More(t, p, e))) == multiset(Owned(t)) + if e.owned then multiset{p} else multiset{}
  {
    assert Owned(More(t, p, e)) == if e.owned then Owned(t) + {p} else Owned(t);
  }

  lemma Initialised(t: Table, types: map<nat, nat>, layouts: map<nat, nat>, p: nat, k: nat)
    requires Shared(t, types, layouts) && p in t && p !in types
    ensures Shared(t, types[p := k], layouts[k := if k in layouts then layouts[k] + 1 else 1])
  {
    var more, laid := types[p := k], layouts[k := if k in layouts then layouts[k] + 1 else 1];
    assert Users(more, k) == Users(types, k) + {p};
    if k !in layouts {
      NoUsers(t, types, layouts, k);
    }
    forall q ensures Laid(more, laid, q) && Fair(more, laid, q) {
      assert Laid(types, layouts, q) && Fair(types, layouts, q);
      if q != k {
        assert Users(more, q) == Users(types, q);
      }
    }
  }

  lemma NoUsers(t: Table, types: map<nat, nat>, layouts: map<nat, nat>, k: nat)
    requires Shared(t, types, layouts) && k !in layouts
    ensures Users(types, k) == {}
  {
    forall r | r in types ensures r !in Users(types, k) {
      assert Laid(types, layouts, r);
    }
  }

  /** A run in which the object returned for a pointer is gone: its entry is held by what is rooted at it. */
  method StaleWrapper() returns (zone: nat, live: bool)
    ensures !live
  {
    var m := new MemoryTable();
    var root := m.Allocate(10, 1);
    var child, ok := m.Wrap(11, false, 10, 2);
    m.Collect(1);
    assert Tied(m.table, m.zones, 2);
    assert Grounded(m.table, m.births, 11);
    zone, ok := m.Wrap(10, false, 0, 3);
    live := zone in m.zones;
  }
}
