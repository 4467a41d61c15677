/**
 Loading a dump back.

 A load overwrites what the dump mentions and nothing else, and it leaves a container
 alone when the dump says it was empty. So the loaded value compares equal to the dumped
 one exactly when no container of the target holds elements where the dumped one is
 empty; a default-initialised target always meets that.
 */
module RoundTrip {
  import opened Bytecode
  import opened Tracing
  import opened Octets
  import opened Memory

  /** Memory whose containers, where the trace expects them, are empty. */
  ghost predicate Fresh(t: Atoms, mem: seq<Cell>) {
    match t
    case Nil => true
    case Byte(at, rest) => at < |mem| && mem[at].Raw? && Fresh(rest, mem)
    case Box(at, _, _, rest) => at < |mem| && mem[at] == Head([]) && Fresh(rest, mem)
  }

  /** The trace goes upwards from `lo`, and the default element of each of its containers is itself fresh. */
  ghost predicate Sound(vec: Vectors, t: Atoms, lo: nat) {
    match t
    case Nil => true
    case Byte(at, rest) => lo <= at && Sound(vec, rest, at + 1)
    case Box(at, h, elem, rest) =>
      && lo <= at && h in vec && Sound(vec, elem, 0)
      && |vec[h].blank| == vec[h].stride && Fresh(elem, vec[h].blank)
      && Sound(vec, rest, at + 1)
  }

  /** Every container of the program is a vector whose default element is an empty one of the size its block spans. */
  ghost predicate Backed(env: Sizes, vec: Vectors, c: Code) {
    match c
    case Done => true
    case Memcpy(_, next) => Backed(env, vec, next)
    case Skip(_, next) => Backed(env, vec, next)
    case Array(_, b, next) => Backed(env, vec, b) && Backed(env, vec, next)
    case Container(h, b, next) =>
      && h in env && env[h] > 0 && h in vec && Span(env, b) == vec[h].stride == |vec[h].blank|
      && Fresh(Trace(env, b, 0, Nil), vec[h].blank)
      && Backed(env, vec, b) && Backed(env, vec, next)
  }

  lemma {:induction false} SoundLater(vec: Vectors, t: Atoms, lo: nat, lo': nat)
    requires Sound(vec, t, lo') && lo <= lo'
    ensures Sound(vec, t, lo)
  {
  }

  lemma {:induction false} BytesSound(vec: Vectors, off: nat, n: nat, tail: Atoms)
    requires Sound(vec, tail, off + n)
    ensures Sound(vec, Bytes(off, n, tail), off)
    decreases n
  {
    if n > 0 {
      BytesSound(vec, off + 1, n - 1, tail);
    }
  }

  lemma {:induction false} TraceSound(env: Sizes, vec: Vectors, c: Code, off: nat, tail: Atoms)
    requires Backed(env, vec, c) && Sound(vec, tail, off + Span(env, c))
    ensures Sound(vec, Trace(env, c, off, tail), off)
    decreases c, 0
  {
    match c
    case Done =>
    case Memcpy(n, next) =>
      TraceSound(env, vec, next, off + n, tail);
      BytesSound(vec, off, n, Trace(env, next, off + n, tail));
    case Skip(n, next) =>
      TraceSound(env, vec, next, off + n, tail);
      SoundLater(vec, Trace(env, next, off + n, tail), off, off + n);
    case Array(k, b, next) =>
      var mid := off + Times(k, Span(env, b));
      TraceSound(env, vec, next, mid, tail);
      RepeatedSound(env, vec, b, k, off, Trace(env, next, mid, tail));
    case Container(h, b, next) =>
      var mid := off + SizeOf(env, h);
      TraceSound(env, vec, b, 0, Nil);
      TraceSound(env, vec, next, mid, tail);
      SoundLater(vec, Trace(env, next, mid, tail), off + 1, mid);
  }

  lemma {:induction false} RepeatedSound(env: Sizes, vec: Vectors, b: Code, k: nat, off: nat, tail: Atoms)
    requires Backed(env, vec, b) && Sound(vec, tail, off + Times(k, Span(env, b)))
    ensures Sound(vec, Repeated(env, b, k, off, tail), off)
    decreases b, k + 1
  {
    if k > 0 {
      var mid := off + Span(env, b);
      RepeatedSound(env, vec, b, k - 1, mid, tail);
      TraceSound(env, vec, b, off, Repeated(env, b, k - 1, mid, tail));
    }
  }

  /** The target holds no element where `mem` has an empty container, down to the elements that a load reuses. */
  ghost predicate Receives(t: Atoms, into: seq<Cell>, mem: seq<Cell>)
    decreases t, 0
  {
    match t
    case Nil => true
    case Byte(_, rest) => Receives(rest, into, mem)
    case Box(at, _, elem, rest) =>
      && at < |into| && into[at].Head? && at < |mem| && mem[at].Head?
      && (if mem[at].elems == [] then into[at].elems == [] else ReceivesEach(elem, into[at].elems, mem[at].elems))
      && Receives(rest, into, mem)
  }

  ghost predicate ReceivesEach(elem: Atoms, into: seq<seq<Cell>>, mem: seq<seq<Cell>>)
    decreases elem, 1
  {
    forall i :: 0 <= i < |into| && i < |mem| ==> Receives(elem, into[i], mem[i])
  }

  lemma {:induction false} FreshReceives(vec: Vectors, t: Atoms, into: seq<Cell>, mem: seq<Cell>)
    requires Fresh(t, into) && Shaped(vec, t, mem)
    ensures Receives(t, into, mem) && Shaped(vec, t, into)
  {
    if !t.Nil? {
      FreshReceives(vec, t.rest, into, mem);
    }
  }

  lemma {:induction false} UpdateBelow(vec: Vectors, t: Atoms, lo: nat, into: seq<Cell>, mem: seq<Cell>, at: nat, c: Cell)
    requires Sound(vec, t, lo) && at < lo && at < |into|
    ensures Shaped(vec, t, into) ==> Shaped(vec, t, into[at := c])
    ensures Receives(t, into[at := c], mem) <==> Receives(t, into, mem)
  {
    if !t.Nil? {
      UpdateBelow(vec, t.rest, t.at + 1, into, mem, at, c);
    }
  }

  /** The outcome of a load: equal to `mem` on the trace or not, as predicted, and unchanged below it. */
  ghost predicate Outcome(t: Atoms, lo: nat, v: seq<Cell>, mem: seq<Cell>, into: seq<Cell>) {
    && |v| == |into|
    && (Same(t, v, mem) <==> Receives(t, into, mem))
    && forall i :: 0 <= i < lo && i < |into| ==> v[i] == into[i]
  }

  /** A dump is always read to its end, and gives the dumped value back exactly when the target can receive it. */
  lemma {:induction false} LoadDumped(vec: Vectors, t: Atoms, lo: nat, mem: seq<Cell>, into: seq<Cell>, s: seq<octet>)
    requires Shaped(vec, t, mem) && Shaped(vec, t, into) && Sound(vec, t, lo)
    ensures var r := Load(vec, t, into, Dumped(vec, t, mem) + s);
            r.Loaded? && r.left == s && Outcome(t, lo, r.value, mem, into)
    decreases t, 1
  {
    match t
    case Nil =>
      assert [] + s == s;
    case Byte(at, rest) =>
      var b := mem[at].b;
      Uncons(b, Dumped(vec, rest, mem), s);
      UpdateBelow(vec, rest, at + 1, into, mem, at, Raw(b));
      LoadDumped(vec, rest, at + 1, mem, into[at := Raw(b)], s);
    case Box(_, _, _, _) =>
      LoadDumpedBox(vec, t, lo, mem, into, s);
  }

  lemma Uncons(b: octet, d: seq<octet>, s: seq<octet>)
    ensures ([b] + d + s)[0] == b && ([b] + d + s)[1..] == d + s
  {
  }

  lemma Uncount(c: seq<octet>, e: seq<octet>, d: seq<octet>, s: seq<octet>)
    requires |c| == 8
    ensures (c + e + d + s)[..8] == c && (c + e + d + s)[8..] == e + (d + s)
  {
  }

  lemma {:induction false} LoadDumpedBox(vec: Vectors, t: Atoms, lo: nat, mem: seq<Cell>, into: seq<Cell>, s: seq<octet>)
    requires t.Box? && Shaped(vec, t, mem) && Shaped(vec, t, into) && Sound(vec, t, lo)
    ensures var r := Load(vec, t, into, Dumped(vec, t, mem) + s);
            r.Loaded? && r.left == s && Outcome(t, lo, r.value, mem, into)
    decreases t, 0
  {
    var at, elems := t.at, mem[t.at].elems;
    var n, later := |elems|, Dumped(vec, t.rest, mem) + s;
    var each := DumpedEach(vec, t.handle, t.elem, elems);
    CountDecodes(n);
    Uncount(Count(n), each, Dumped(vec, t.rest, mem), s);
    if n == 0 {
      assert each + later == later;
      LoadDumped(vec, t.rest, at + 1, mem, into, s);
    } else {
      var targets := Resized(vec[t.handle], into[at].elems, n);
      ResizedReceives(vec, t.handle, t.elem, into[at].elems, elems);
      LoadEachDumped(vec, t.handle, t.elem, elems, targets, later);
      var loaded := LoadEach(vec, t.elem, targets, each + later).value;
      UpdateBelow(vec, t.rest, at + 1, into, mem, at, Head(loaded));
      LoadDumped(vec, t.rest, at + 1, mem, into[at := Head(loaded)], s);
    }
  }

  /** The default elements that a resize adds can receive anything. */
  lemma ResizedReceives(vec: Vectors, h: nat, elem: Atoms, into: seq<seq<Cell>>, elems: seq<seq<Cell>>)
    requires h in vec && ShapedEach(vec, h, elem, into) && ShapedEach(vec, h, elem, elems)
    requires |vec[h].blank| == vec[h].stride && Fresh(elem, vec[h].blank)
    ensures ShapedEach(vec, h, elem, Resized(vec[h], into, |elems|))
    ensures ReceivesEach(elem, Resized(vec[h], into, |elems|), elems) <==> ReceivesEach(elem, into, elems)
  {
    var targets := Resized(vec[h], into, |elems|);
    forall i | 0 <= i < |targets|
      ensures Shaped(vec, elem, targets[i]) && (i >= |into| ==> Receives(elem, targets[i], elems[i]))
    {
      if i >= |into| {
        FreshReceives(vec, elem, vec[h].blank, elems[i]);
      }
    }
    if ReceivesEach(elem, targets, elems) {
      forall i | 0 <= i < |into| && i < |elems| ensures Receives(elem, into[i], elems[i]) {
        assert targets[i] == into[i];
      }
    }
  }

  lemma {:induction false} LoadEachDumped(vec: Vectors, h: nat, elem: Atoms, elems: seq<seq<Cell>>, targets: seq<seq<Cell>>, s: seq<octet>)
    requires h in vec && ShapedEach(vec, h, elem, elems) && ShapedEach(vec, h, elem, targets)
    requires Sound(vec, elem, 0) && |targets| == |elems|
    ensures var r := LoadEach(vec, elem, targets, DumpedEach(vec, h, elem, elems) + s);
            r.Loaded? && r.left == s && (SameEach(elem, r.value, elems) <==> ReceivesEach(elem, targets, elems))
    decreases elem, 2, |elems|
  {
    if elems == [] {
      assert [] + s == s;
    } else {
      var later := DumpedEach(vec, h, elem, elems[1..]) + s;
      assert DumpedEach(vec, h, elem, elems) + s == Dumped(vec, elem, elems[0]) + later;
      LoadDumped(vec, elem, 0, elems[0], targets[0], later);
      LoadEachDumped(vec, h, elem, elems[1..], targets[1..], s);
      var first := Load(vec, elem, targets[0], Dumped(vec, elem, elems[0]) + later).value;
      var others := LoadEach(vec, elem, targets[1..], later).value;
      EachCons(elem, first, others, elems, targets);
    }
  }

  lemma EachCons(elem: Atoms, first: seq<Cell>, others: seq<seq<Cell>>, elems: seq<seq<Cell>>, targets: seq<seq<Cell>>)
    requires |elems| == |targets| == |others| + 1
    ensures SameEach(elem, [first] + others, elems) <==> Same(elem, first, elems[0]) && SameEach(elem, others, elems[1..])
    ensures ReceivesEach(elem, targets, elems) <==> Receives(elem, targets[0], elems[0]) && ReceivesEach(elem, targets[1..], elems[1..])
  {
    var all := [first] + others;
    assert all[0] == first && all[1..] == others;
    forall i | 0 <= i < |others| ensures all[i + 1] == others[i] && elems[i + 1] == elems[1..][i] && targets[i + 1] == targets[1..][i] {
    }
    if SameEach(elem, all, elems) {
      forall i | 0 <= i < |others| ensures Same(elem, others[i], elems[1..][i]) {
        assert Same(elem, all[i + 1], elems[i + 1]);
      }
    }
    if ReceivesEach(elem, targets, elems) {
      forall i | 0 <= i < |others| ensures Receives(elem, targets[1..][i], elems[1..][i]) {
        assert Receives(elem, targets[i + 1], elems[i + 1]);
      }
    }
    if Same(elem, first, elems[0]) && SameEach(elem, others, elems[1..]) {
      forall i | 0 <= i < |all| ensures Same(elem, all[i], elems[i]) {
        if i > 0 {
          assert Same(elem, others[i - 1], elems[1..][i - 1]);
        }
      }
    }
    if Receives(elem, targets[0], elems[0]) && ReceivesEach(elem, targets[1..], elems[1..]) {
      forall i | 0 <= i < |targets| ensures Receives(elem, targets[i], elems[i]) {
        if i > 0 {
          assert Receives(elem, targets[1..][i - 1], elems[1..][i - 1]);
        }
      }
    }
  }

  // ----- a target that cannot receive -----

  /** A vector of bytes. */
  function OneVector(h: nat): Atoms {
    Box(0, h, Byte(0, Nil), Nil)
  }

  /** Loading the dump of an empty vector into one that has an element leaves the element there. */
  lemma StaleTarget(vec: Vectors, h: nat, b: octet)
    requires h in vec && vec[h].stride == 1
    ensures var t, mem, into := OneVector(h), [Head([])], [Head([[Raw(b)]])];
            && Shaped(vec, t, mem) && Shaped(vec, t, into) && !Receives(t, into, mem)
            && Load(vec, t, into, Dumped(vec, t, mem)) == Loaded(into, []) && !Same(t, into, mem)
  {
    var t, mem, into := OneVector(h), [Head([])], [Head([[Raw(b)]])];
    assert Shaped(vec, Byte(0, Nil), [Raw(b)]);
    CountDecodes(0);
    assert DumpedEach(vec, h, Byte(0, Nil), []) == [];
    assert Dumped(vec, t, mem) == Count(0);
    assert Count(0)[..8] == Count(0) && Count(0)[8..] == [];
  }
}
