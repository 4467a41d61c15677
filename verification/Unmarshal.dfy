/** `ValueOps::load`, running the flat bytecode over a stream and writing memory in place. */
module Unmarshal {
  import opened Bytecode
  import opened Tracing
  import opened Simplification
  import opened Octets
  import opened Memory
  import opened RoundTrip
  import opened Marshal

  class InputStream {
    const buffer: seq<octet>
    var inIndex: nat

    ghost predicate Valid()
      reads this
    {
      inIndex <= |buffer|
    }

    /** The bytes not read yet. */
    function Left(): seq<octet>
      requires Valid()
      reads this
    {
      buffer[inIndex..]
    }

    constructor (buffer: seq<octet>)
      ensures this.buffer == buffer && inIndex == 0 && Valid() && Left() == buffer
    {
      this.buffer := buffer;
      inIndex := 0;
    }

    /** Refuses, without consuming anything, to read past the end. */
    method Read(size: nat) returns (data: seq<octet>, ok: bool)
      requires Valid()
      modifies this
      ensures Valid()
      ensures ok <==> size <= |old(Left())|
      ensures ok ==> data == old(Left())[..size] && Left() == old(Left())[size..]
      ensures !ok ==> Left() == old(Left())
    {
      ok := size + inIndex <= |buffer|;
      data := [];
      if ok {
        data := buffer[inIndex..inIndex + size];
        inIndex := inIndex + size;
      }
    }
  }

  /** A memory zone that is written in place. */
  class Zone {
    var cells: seq<Cell>

    constructor (cells: seq<Cell>)
      ensures this.cells == cells
    {
      this.cells := cells;
    }
  }

  // ----- single operations -----

  function Cells(data: seq<octet>): (r: seq<Cell>)
    ensures |r| == |data|
  {
    seq(|data|, i requires 0 <= i < |data| => Raw(data[i]))
  }

  /** `memcpy` of `data` to `off`. */
  function Overwritten(mem: seq<Cell>, off: nat, data: seq<octet>): (r: seq<Cell>)
    requires off + |data| <= |mem|
    ensures |r| == |mem|
  {
    mem[..off] + Cells(data) + mem[off + |data|..]
  }

  lemma OverwrittenFirst(mem: seq<Cell>, off: nat, data: seq<octet>)
    requires off + |data| <= |mem| && data != []
    ensures Overwritten(mem[off := Raw(data[0])], off + 1, data[1..]) == Overwritten(mem, off, data)
  {
  }

  lemma {:induction false} LoadBytes(vec: Vectors, off: nat, n: nat, tail: Atoms, mem: seq<Cell>, s: seq<octet>)
    requires off + n <= |mem|
    ensures Load(vec, Bytes(off, n, tail), mem, s)
            == if |s| < n then Short else Load(vec, tail, Overwritten(mem, off, s[..n]), s[n..])
    decreases n
  {
    if n == 0 {
      assert s[0..] == s && Overwritten(mem, off, s[..0]) == mem;
    } else if s != [] {
      LoadBytes(vec, off + 1, n - 1, tail, mem[off := Raw(s[0])], s[1..]);
      if |s| >= n {
        assert s[1..][..n - 1] == s[..n][1..] && s[1..][n - 1..] == s[n..];
        OverwrittenFirst(mem, off, s[..n]);
      }
    }
  }

  /** Loading one trace and then another. */
  lemma {:induction false} LoadThen(vec: Vectors, a: Atoms, b: Atoms, mem: seq<Cell>, s: seq<octet>)
    ensures Load(vec, Then(a, b), mem, s)
            == var r := Load(vec, a, mem, s); if r.Short? then Short else Load(vec, b, r.value, r.left)
    decreases a
  {
    match a
    case Nil =>
    case Byte(at, rest) =>
      if s != [] && at < |mem| {
        LoadThen(vec, rest, b, mem[at := Raw(s[0])], s[1..]);
      }
    case Box(at, h, elem, rest) =>
      if |s| >= 8 && at < |mem| && mem[at].Head? && h in vec {
        var n := Decoded(s[..8]);
        if n == 0 {
          LoadThen(vec, rest, b, mem, s[8..]);
        } else {
          var r := LoadEach(vec, elem, Resized(vec[h], mem[at].elems, n), s[8..]);
          if r.Loaded? {
            LoadThen(vec, rest, b, mem[at := Head(r.value)], r.left);
          }
        }
      }
  }

  lemma LoadBlock(env: Sizes, vec: Vectors, c: Code, off: nat, tail: Atoms, mem: seq<Cell>, s: seq<octet>)
    ensures Load(vec, Trace(env, c, off, tail), mem, s)
            == var r := Load(vec, Trace(env, c, off, Nil), mem, s); if r.Short? then Short else Load(vec, tail, r.value, r.left)
  {
    TraceThen(env, c, off, Nil, tail);
    LoadThen(vec, Trace(env, c, off, Nil), tail, mem, s);
  }

  // ----- what a load leaves alone -----

  /** The two memories are the same from `lo` on. */
  ghost predicate Alike(a: seq<Cell>, b: seq<Cell>, lo: nat) {
    |a| == |b| && forall i :: lo <= i < |a| ==> a[i] == b[i]
  }

  lemma {:induction false} LoadAlike(vec: Vectors, t: Atoms, lo: nat, hi: nat, mem: seq<Cell>, s: seq<octet>)
    requires Within(t, lo, hi)
    ensures var r := Load(vec, t, mem, s); r.Loaded? ==> Alike(r.value, mem, hi)
    decreases t
  {
    match t
    case Nil =>
    case Byte(at, rest) =>
      if s != [] && at < |mem| {
        LoadAlike(vec, rest, at + 1, hi, mem[at := Raw(s[0])], s[1..]);
      }
    case Box(at, h, elem, rest) =>
      if |s| >= 8 && at < |mem| && mem[at].Head? && h in vec {
        var n := Decoded(s[..8]);
        if n == 0 {
          LoadAlike(vec, rest, at + 1, hi, mem, s[8..]);
        } else {
          var r := LoadEach(vec, elem, Resized(vec[h], mem[at].elems, n), s[8..]);
          if r.Loaded? {
            LoadAlike(vec, rest, at + 1, hi, mem[at := Head(r.value)], r.left);
          }
        }
      }
  }

  lemma {:induction false} ShapedAlike(vec: Vectors, t: Atoms, lo: nat, a: seq<Cell>, b: seq<Cell>)
    requires Shaped(vec, t, a) && Sound(vec, t, lo) && Alike(a, b, lo)
    ensures Shaped(vec, t, b)
    decreases t
  {
    if !t.Nil? {
      ShapedAlike(vec, t.rest, t.at + 1, a, b);
    }
  }

  lemma {:induction false} BackedKnown(env: Sizes, vec: Vectors, c: Code)
    requires Backed(env, vec, c)
    ensures Known(env, c)
  {
    if !c.Done? {
      BackedKnown(env, vec, c.next);
      if HasBody(c) {
        BackedKnown(env, vec, c.body);
      }
    }
  }

  /** After loading a block from `off`, what follows it still fits the memory, and so does the block before it. */
  lemma BlockLeaves(env: Sizes, vec: Vectors, c: Code, off: nat, tail: Atoms, mem: seq<Cell>, s: seq<octet>)
    requires Backed(env, vec, c) && Shaped(vec, Trace(env, c, off, tail), mem) && Sound(vec, tail, off + Span(env, c))
    ensures Shaped(vec, Trace(env, c, off, Nil), mem)
    ensures var r := Load(vec, Trace(env, c, off, Nil), mem, s); r.Loaded? ==> Shaped(vec, tail, r.value)
  {
    var alone, r := Trace(env, c, off, Nil), Load(vec, Trace(env, c, off, Nil), mem, s);
    TraceThen(env, c, off, Nil, tail);
    ShapedThen(vec, alone, tail, mem);
    BackedKnown(env, vec, c);
    TraceWithin(env, c, off, Nil, off + Span(env, c));
    LoadAlike(vec, alone, off, off + Span(env, c), mem, s);
    if r.Loaded? {
      ShapedAlike(vec, tail, off + Span(env, c), mem, r.value);
    }
  }

  // ----- the interpreter -----

  /** `Vector::load` once the vector is resized, element by element. */
  method LoadEachElement(env: Sizes, vec: Vectors, h: nat, targets: seq<seq<Cell>>, stream: InputStream, w: seq<nat>, begin: nat, ghost b: Code)
    returns (elems: seq<seq<Cell>>, it: nat, ok: bool)
    requires Reads(w, begin, b) && Fits(env, vec, b) && Backed(env, vec, b) && h in vec && Span(env, b) == vec[h].stride
    requires targets != [] && stream.Valid() && ShapedEach(vec, h, Trace(env, b, 0, Nil), targets)
    modifies stream
    ensures stream.Valid()
    ensures var r := LoadEach(vec, Trace(env, b, 0, Nil), targets, old(stream.Left()));
            && (ok <==> r.Loaded?)
            && (ok ==> elems == r.value && stream.Left() == r.left && it == begin + Len(b))
    decreases |w| - begin, 3
  {
    ghost var elem, goal := Trace(env, b, 0, Nil), LoadEach(vec, Trace(env, b, 0, Nil), targets, stream.Left());
    elems, it, ok := [], begin, true;
    assert targets[0..] == targets && (goal.Loaded? ==> [] + goal.value == goal.value);
    for i := 0 to |targets|
      invariant stream.Valid() && |elems| == i
      invariant EachLeft(vec, elem, targets[i..], stream.Left(), elems) == goal
      invariant i > 0 ==> it == begin + Len(b)
    {
      assert targets[i..][0] == targets[i] && targets[i..][1..] == targets[i + 1..];
      var zone := new Zone(targets[i]);
      var off;
      off, it, ok := LoadFrom(env, vec, zone, 0, stream, w, begin, b);
      if !ok {
        return;
      }
      EachPrepend(elems, zone.cells, LoadEach(vec, elem, targets[i + 1..], stream.Left()));
      elems := elems + [zone.cells];
    }
    assert targets[|targets|..] == [];
    assert elems + [] == elems;
  }

  /** What a vector will hold once its remaining elements are loaded behind `done`. */
  ghost function EachLeft(vec: Vectors, elem: Atoms, targets: seq<seq<Cell>>, s: seq<octet>, done: seq<seq<Cell>>): Loading<seq<seq<Cell>>> {
    Prepend(done, LoadEach(vec, elem, targets, s))
  }

  ghost function Prepend(done: seq<seq<Cell>>, r: Loading<seq<seq<Cell>>>): Loading<seq<seq<Cell>>> {
    if r.Short? then Short else Loaded(done + r.value, r.left)
  }

  lemma EachPrepend(done: seq<seq<Cell>>, first: seq<Cell>, r: Loading<seq<seq<Cell>>>)
    ensures Prepend(done, if r.Short? then Short else Loaded([first] + r.value, r.left)) == Prepend(done + [first], r)
  {
    if r.Loaded? {
      assert done + ([first] + r.value) == (done + [first]) + r.value;
    }
  }

  /** A raw buffer cut into elements of `n` bytes. */
  function Chunks(data: seq<octet>, n: nat, count: nat): seq<seq<Cell>>
    requires |data| == Times(count, n)
  {
    if count == 0 then [] else [Cells(data[..n])] + Chunks(data[n..], n, count - 1)
  }

  /** One read of the whole buffer of a vector is as good as one read per element. */
  lemma {:induction false} LoadEachBulk(vec: Vectors, n: nat, targets: seq<seq<Cell>>, s: seq<octet>)
    requires forall i :: 0 <= i < |targets| ==> |targets[i]| == n
    ensures var size := Times(|targets|, n);
            LoadEach(vec, Bytes(0, n, Nil), targets, s)
            == if |s| < size then Short else Loaded(Chunks(s[..size], n, |targets|), s[size..])
    decreases |targets|
  {
    if targets == [] {
      assert s[0..] == s;
    } else {
      var more := Times(|targets| - 1, n);
      LoadBytes(vec, 0, n, Nil, targets[0], s);
      if |s| >= n {
        assert Overwritten(targets[0], 0, s[..n]) == Cells(s[..n]);
        LoadEachBulk(vec, n, targets[1..], s[n..]);
        if |s| >= n + more {
          ChunksFirst(s, n, |targets|);
        }
      }
    }
  }

  lemma ChunksFirst(s: seq<octet>, n: nat, count: nat)
    requires count > 0 && |s| >= n + Times(count - 1, n)
    ensures var more := Times(count - 1, n);
            && Chunks(s[..n + more], n, count) == [Cells(s[..n])] + Chunks(s[n..][..more], n, count - 1)
            && s[n..][more..] == s[n + more..]
  {
    var more := Times(count - 1, n);
    assert s[..n + more][..n] == s[..n] && s[..n + more][n..] == s[n..][..more];
  }

  method LoadElements(env: Sizes, vec: Vectors, h: nat, targets: seq<seq<Cell>>, stream: InputStream, w: seq<nat>, begin: nat, ghost b: Code)
    returns (elems: seq<seq<Cell>>, it: nat, ok: bool)
    requires Reads(w, begin, b) && Fits(env, vec, b) && Backed(env, vec, b) && h in vec && Span(env, b) == vec[h].stride
    requires IsBulk(vec, h) ==> b == Memcpy(vec[h].stride, Done)
    requires targets != [] && stream.Valid() && ShapedEach(vec, h, Trace(env, b, 0, Nil), targets)
    modifies stream
    ensures stream.Valid()
    ensures var r := LoadEach(vec, Trace(env, b, 0, Nil), targets, old(stream.Left()));
            && (ok <==> r.Loaded?)
            && (ok ==> elems == r.value && stream.Left() == r.left && it == begin + Len(b))
    decreases |w| - begin, 4
  {
    if IsMemcpy(vec[h].layout) {
      LoneTrace(env, vec[h].stride);
      LoadEachBulk(vec, vec[h].stride, targets, stream.Left());
      TimesIsProduct(|targets|, vec[h].stride);
      var data;
      data, ok := stream.Read(w[begin + 1] * |targets|);
      it, elems := begin + 2, [];
      if ok {
        elems := Chunks(data, vec[h].stride, |targets|);
      }
    } else {
      elems, it, ok := LoadEachElement(env, vec, h, targets, stream, w, begin, b);
    }
  }

  method LoadContainer(env: Sizes, vec: Vectors, zone: Zone, off: nat, stream: InputStream, w: seq<nat>, start: nat, ghost c: Code, ghost tail: Atoms, ghost goal: Loading<seq<Cell>>)
    returns (it: nat, ok: bool)
    requires c.Container? && Reads(w, start, c) && Fits(env, vec, c) && Backed(env, vec, c) && stream.Valid()
    requires var t := Box(off, c.handle, Trace(env, c.body, 0, Nil), tail);
             Shaped(vec, t, zone.cells) && Sound(vec, t, off) && Load(vec, t, zone.cells, stream.Left()) == goal
    modifies zone, stream
    ensures stream.Valid() && |zone.cells| == |old(zone.cells)|
    ensures !ok ==> goal.Short?
    ensures ok ==> it == start + 2 + Len(c.body)
    ensures ok ==> Shaped(vec, tail, zone.cells) && Load(vec, tail, zone.cells, stream.Left()) == goal
    decreases |w| - start, 0
  {
    ghost var elem := Trace(env, c.body, 0, Nil);
    it := start + 2;
    var bytes;
    bytes, ok := stream.Read(8);
    if !ok {
      return;
    }
    var count := Decoded(bytes);
    if count == 0 {
      it := SkipBlock(w, start + 2, c.body);
    } else {
      var h := w[start + 1];
      var targets := Resized(vec[h], zone.cells[off].elems, count);
      ResizedShaped(vec, h, elem, zone.cells[off].elems, count);
      var elems;
      elems, it, ok := LoadElements(env, vec, h, targets, stream, w, start + 2, c.body);
      if ok {
        UpdateBelow(vec, tail, off + 1, zone.cells, zone.cells, off, Head(elems));
        zone.cells := zone.cells[off := Head(elems)];
      }
    }
  }

  lemma ResizedShaped(vec: Vectors, h: nat, elem: Atoms, into: seq<seq<Cell>>, n: nat)
    requires h in vec && ShapedEach(vec, h, elem, into) && Sound(vec, elem, 0)
    requires |vec[h].blank| == vec[h].stride && Fresh(elem, vec[h].blank)
    ensures ShapedEach(vec, h, elem, Resized(vec[h], into, n))
  {
    FreshShaped(vec, elem, 0, vec[h].blank);
  }

  lemma {:induction false} FreshShaped(vec: Vectors, t: Atoms, lo: nat, mem: seq<Cell>)
    requires Fresh(t, mem) && Sound(vec, t, lo)
    ensures Shaped(vec, t, mem)
  {
    if !t.Nil? {
      FreshShaped(vec, t.rest, t.at + 1, mem);
    }
  }

  method LoadRepeated(env: Sizes, vec: Vectors, zone: Zone, off0: nat, stream: InputStream, w: seq<nat>, body: nat, count: nat,
                      ghost b: Code, ghost end: nat, ghost tail: Atoms, ghost goal: Loading<seq<Cell>>)
    returns (off: nat, it: nat, ok: bool)
    requires Reads(w, body, b) && Fits(env, vec, b) && Backed(env, vec, b) && stream.Valid() && count > 0
    requires end == off0 + Times(count, Span(env, b)) <= |zone.cells| && Sound(vec, tail, end)
    requires Going(vec, Repeated(env, b, count, off0, tail), zone.cells, stream.Left()) == Now(goal)
    modifies zone, stream
    ensures stream.Valid() && |zone.cells| == |old(zone.cells)|
    ensures !ok ==> goal == Short
    ensures ok ==> off == end && it == body + Len(b)
    ensures ok ==> Going(vec, tail, zone.cells, stream.Left()) == Now(goal)
    decreases |w| - body, 3
  {
    off, it, ok := off0, body, true;
    var i := 0;
    ghost var left, span := count, Span(env, b);
    while i < count
      invariant 0 <= i <= count && left == count - i && stream.Valid() && |zone.cells| == |old(zone.cells)|
      invariant i > 0 ==> it == body + Len(b)
      invariant off + Times(left, span) == end
      invariant Going(vec, Repeated(env, b, left, off, tail), zone.cells, stream.Left()) == Now(goal)
    {
      TimesStep(left, span);
      GoingRepeated(env, vec, b, left, off, tail, zone.cells, stream.Left(), goal);
      off, it, ok := LoadFrom(env, vec, zone, off, stream, w, body, b);
      if !ok {
        return;
      }
      i, left := i + 1, left - 1;
    }
  }

  datatype State = Stuck | Now(goal: Loading<seq<Cell>>)

  /** What loading the visits `t` will give, provided that they fit the memory. */
  ghost function Going(vec: Vectors, t: Atoms, mem: seq<Cell>, s: seq<octet>): State {
    if Shaped(vec, t, mem) then Now(Load(vec, t, mem, s)) else Stuck
  }

  lemma GoingBlock(env: Sizes, vec: Vectors, b: Code, off: nat, tail: Atoms, mem: seq<Cell>, s: seq<octet>, goal: Loading<seq<Cell>>)
    requires Backed(env, vec, b) && Sound(vec, tail, off + Span(env, b))
    requires Going(vec, Trace(env, b, off, tail), mem, s) == Now(goal)
    ensures Shaped(vec, Trace(env, b, off, Nil), mem)
    ensures var r := Load(vec, Trace(env, b, off, Nil), mem, s);
            if r.Short? then goal == Short else Going(vec, tail, r.value, r.left) == Now(goal)
  {
    BlockLeaves(env, vec, b, off, tail, mem, s);
    LoadBlock(env, vec, b, off, tail, mem, s);
  }

  lemma GoingRepeated(env: Sizes, vec: Vectors, b: Code, k: nat, off: nat, tail: Atoms, mem: seq<Cell>, s: seq<octet>, goal: Loading<seq<Cell>>)
    requires k > 0 && Backed(env, vec, b) && Sound(vec, tail, off + Times(k, Span(env, b)))
    requires Going(vec, Repeated(env, b, k, off, tail), mem, s) == Now(goal)
    ensures Shaped(vec, Trace(env, b, off, Nil), mem)
    ensures var r := Load(vec, Trace(env, b, off, Nil), mem, s);
            if r.Short? then goal == Short else Going(vec, Repeated(env, b, k - 1, off + Span(env, b), tail), r.value, r.left) == Now(goal)
  {
    var mid := off + Span(env, b);
    TimesStep(k, Span(env, b));
    RepeatedSound(env, vec, b, k - 1, mid, tail);
    GoingBlock(env, vec, b, off, Repeated(env, b, k - 1, mid, tail), mem, s, goal);
  }

  lemma GoingBytes(vec: Vectors, off: nat, n: nat, tail: Atoms, mem: seq<Cell>, s: seq<octet>, goal: Loading<seq<Cell>>)
    requires Going(vec, Bytes(off, n, tail), mem, s) == Now(goal) && off + n <= |mem| && Sound(vec, tail, off + n)
    ensures if |s| < n then goal == Short else Going(vec, tail, Overwritten(mem, off, s[..n]), s[n..]) == Now(goal)
  {
    LoadBytes(vec, off, n, tail, mem, s);
    ShapedBytes(vec, off, n, tail, mem);
    if |s| >= n {
      ShapedAlike(vec, tail, off + n, mem, Overwritten(mem, off, s[..n]));
    }
  }

  method LoadFrom(env: Sizes, vec: Vectors, zone: Zone, off0: nat, stream: InputStream, w: seq<nat>, begin: nat, ghost c: Code)
    returns (off: nat, it: nat, ok: bool)
    requires Reads(w, begin, c) && Fits(env, vec, c) && Backed(env, vec, c) && stream.Valid()
    requires off0 + Span(env, c) <= |zone.cells| && Shaped(vec, Trace(env, c, off0, Nil), zone.cells)
    modifies zone, stream
    ensures stream.Valid() && |zone.cells| == |old(zone.cells)|
    ensures var r := Load(vec, Trace(env, c, off0, Nil), old(zone.cells), old(stream.Left()));
            && (ok <==> r.Loaded?)
            && (ok ==> zone.cells == r.value && stream.Left() == r.left)
    ensures ok ==> off == off0 + Span(env, c) && it == begin + Len(c)
    decreases |w| - begin, 2
  {
    ghost var goal := Load(vec, Trace(env, c, off0, Nil), zone.cells, stream.Left());
    ghost var rest := c;
    off, it, ok := off0, begin, true;
    ReadsStops(w, begin, c);
    while it != |w| && w[it] != END
      invariant begin <= it <= |w| && it + Len(rest) == begin + Len(c)
      invariant off + Span(env, rest) == off0 + Span(env, c) && |zone.cells| == |old(zone.cells)|
      invariant Reads(w, it, rest) && Fits(env, vec, rest) && Backed(env, vec, rest) && stream.Valid()
      invariant Going(vec, Trace(env, rest, off, Nil), zone.cells, stream.Left()) == Now(goal)
      decreases |w| - it
    {
      ReadsNext(w, it, rest);
      off, it, ok := LoadNext(env, vec, zone, off, stream, w, it, rest, goal);
      if !ok {
        return;
      }
      rest := rest.next;
    }
  }

  /** One turn of the loop, on the operation at `start`. */
  method LoadNext(env: Sizes, vec: Vectors, zone: Zone, off0: nat, stream: InputStream, w: seq<nat>, start: nat, ghost c: Code, ghost goal: Loading<seq<Cell>>)
    returns (off: nat, it: nat, ok: bool)
    requires !c.Done? && Reads(w, start, c) && Fits(env, vec, c) && Backed(env, vec, c) && stream.Valid()
    requires off0 + Span(env, c) <= |zone.cells|
    requires Going(vec, Trace(env, c, off0, Nil), zone.cells, stream.Left()) == Now(goal)
    modifies zone, stream
    ensures stream.Valid() && |zone.cells| == |old(zone.cells)|
    ensures !ok ==> goal == Short
    ensures ok ==> off == off0 + HeadSpan(env, c) && it == start + HeadLen(c)
    ensures ok ==> Going(vec, Trace(env, c.next, off, Nil), zone.cells, stream.Left()) == Now(goal)
    decreases |w| - start, 1
  {
    off, it, ok := off0, start + 1, true;
    ghost var next := off0 + HeadSpan(env, c);
    ghost var tail := Trace(env, c.next, next, Nil);
    TraceSound(env, vec, c.next, next, Nil);
    if w[start] == MEMCPY {
      var size := w[it];
      GoingBytes(vec, off, size, tail, zone.cells, stream.Left(), goal);
      var data;
      data, ok := stream.Read(size);
      if ok {
        zone.cells := Overwritten(zone.cells, off, data);
      }
      off := off + size;
    } else if w[start] == ARRAY {
      off, it, ok := LoadArray(env, vec, zone, off, stream, w, start, c, next, tail, goal);
    } else if w[start] == SKIP {
      off := off + w[it];
    } else {
      var h := w[it];
      TraceSound(env, vec, c, off, Nil);
      it, ok := LoadContainer(env, vec, zone, off, stream, w, start, c, tail, goal);
      off := off + env[h];
    }
    it := it + 1;
  }

  method LoadArray(env: Sizes, vec: Vectors, zone: Zone, off0: nat, stream: InputStream, w: seq<nat>, start: nat,
                   ghost c: Code, ghost end: nat, ghost tail: Atoms, ghost goal: Loading<seq<Cell>>)
    returns (off: nat, it: nat, ok: bool)
    requires c.Array? && Reads(w, start, c) && Fits(env, vec, c) && Backed(env, vec, c) && stream.Valid()
    requires end == off0 + Times(c.count, Span(env, c.body)) <= |zone.cells| && Sound(vec, tail, end)
    requires Going(vec, Repeated(env, c.body, c.count, off0, tail), zone.cells, stream.Left()) == Now(goal)
    modifies zone, stream
    ensures stream.Valid() && |zone.cells| == |old(zone.cells)|
    ensures !ok ==> goal == Short
    ensures ok ==> off == end && it == start + 2 + Len(c.body)
    ensures ok ==> Going(vec, tail, zone.cells, stream.Left()) == Now(goal)
    decreases |w| - start, 0
  {
    var count, body := w[start + 1], start + 2;
    if count == 0 {
      off, ok := off0, true;
      it := SkipBlock(w, body, c.body);
    } else {
      off, it, ok := LoadRepeated(env, vec, zone, off0, stream, w, body, count, c.body, end, tail, goal);
    }
  }

  /**
   `Typelib::load` from a buffer: after the program, the buffer must be used up, except for as
   many bytes as the type has padding at its end. By then the memory is written.
   */
  method LoadBuffer(env: Sizes, vec: Vectors, zone: Zone, buffer: seq<octet>, w: seq<nat>, padding: nat, ghost c: Code) returns (ok: bool)
    requires Reads(w, 0, c) && Len(c) == |w| && Fits(env, vec, c) && Backed(env, vec, c)
    requires Span(env, c) <= |zone.cells| && Shaped(vec, Trace(env, c, 0, Nil), zone.cells)
    modifies zone
    ensures var r := Load(vec, Trace(env, c, 0, Nil), old(zone.cells), buffer);
            && (ok <==> r.Loaded? && (|r.left| == 0 || |r.left| == padding))
            && (r.Loaded? ==> zone.cells == r.value)
  {
    var stream := new InputStream(buffer);
    var off, it;
    off, it, ok := LoadFrom(env, vec, zone, 0, stream, w, 0, c);
    if ok {
      ok := it == |w| && (stream.inIndex == |buffer| || stream.inIndex + padding == |buffer|);
    }
  }
}
