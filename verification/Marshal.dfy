/** `ValueOps::dump` and `ValueOps::load`, running the flat bytecode over memory and a stream. */
module Marshal {
  import opened Bytecode
  import opened Tracing
  import opened Simplification
  import opened Octets
  import opened Seqs
  import opened Memory

  /** A vector that grows, or a byte array of fixed size that refuses to overflow. */
  datatype Limit = Unbounded | Bounded(size: nat)

  predicate Room(limit: Limit, n: nat) {
    limit.Bounded? ==> n <= limit.size
  }

  class OutputStream {
    var buffer: seq<octet>
    const limit: Limit

    /** What has been written fits. */
    ghost predicate Valid()
      reads this
    {
      Room(limit, |buffer|)
    }

    constructor (limit: Limit)
      ensures buffer == [] && this.limit == limit && Valid()
    {
      buffer := [];
      this.limit := limit;
    }

    method Write(data: seq<octet>) returns (ok: bool)
      requires Valid()
      modifies this
      ensures Valid()
      ensures ok <==> Room(limit, |old(buffer)| + |data|)
      ensures buffer == old(buffer) + (if ok then data else [])
    {
      ok := limit.Unbounded? || |buffer| + |data| <= limit.size;
      if ok {
        buffer := buffer + data;
      }
    }
  }

  // ----- what the bytecode must look like -----

  /** `Vector::isElementMemcpy`. */
  predicate IsBulk(vec: Vectors, h: nat) {
    h in vec && IsMemcpy(vec[h].layout)
  }

  /** Every container is a known vector, and one that is copied in bulk has a lone MEMCPY of its element for a block. */
  ghost predicate Fits(env: Sizes, vec: Vectors, c: Code) {
    match c
    case Done => true
    case Memcpy(_, next) => Fits(env, vec, next)
    case Skip(_, next) => Fits(env, vec, next)
    case Array(_, b, next) => Fits(env, vec, b) && Fits(env, vec, next)
    case Container(h, b, next) =>
      && h > END && h in env && h in vec && Fits(env, vec, b) && Fits(env, vec, next)
      && Span(env, b) == vec[h].stride && (IsBulk(vec, h) ==> b == Memcpy(vec[h].stride, Done))
  }

  // ----- lemmas about single operations -----

  /** The bytes of `n` cells from `off` on. */
  function Slice(mem: seq<Cell>, off: nat, n: nat): (s: seq<octet>)
    requires off + n <= |mem| && forall i :: off <= i < off + n ==> mem[i].Raw?
    ensures |s| == n
  {
    seq(n, i requires 0 <= i < n => mem[off + i].b)
  }

  lemma {:induction false} ShapedBytes(vec: Vectors, off: nat, n: nat, tail: Atoms, mem: seq<Cell>)
    requires Shaped(vec, Bytes(off, n, tail), mem)
    ensures Shaped(vec, tail, mem) && (n > 0 ==> off + n <= |mem|)
    ensures forall i :: off <= i < off + n ==> i < |mem| && mem[i].Raw?
    decreases n
  {
    if n > 0 {
      ShapedBytes(vec, off + 1, n - 1, tail, mem);
    }
  }

  lemma {:induction false} DumpedBytes(vec: Vectors, off: nat, n: nat, tail: Atoms, mem: seq<Cell>)
    requires Shaped(vec, Bytes(off, n, tail), mem) && off + n <= |mem|
    ensures Shaped(vec, tail, mem) && forall i :: off <= i < off + n ==> mem[i].Raw?
    ensures Dumped(vec, Bytes(off, n, tail), mem) == Slice(mem, off, n) + Dumped(vec, tail, mem)
    decreases n
  {
    ShapedBytes(vec, off, n, tail, mem);
    if n == 0 {
      assert [] + Dumped(vec, tail, mem) == Dumped(vec, tail, mem);
    } else {
      DumpedBytes(vec, off + 1, n - 1, tail, mem);
      SliceFirst(mem, off, n);
      Regroup([mem[off].b], Slice(mem, off + 1, n - 1), Dumped(vec, tail, mem));
    }
  }

  lemma SliceFirst(mem: seq<Cell>, off: nat, n: nat)
    requires n > 0 && off + n <= |mem| && forall i :: off <= i < off + n ==> mem[i].Raw?
    ensures Slice(mem, off, n) == [mem[off].b] + Slice(mem, off + 1, n - 1)
  {
  }

  datatype Maybe = Unfit | Just(bytes: seq<octet>)

  /** What a buffer will hold once the visits `t` are written too; nothing if they do not fit the memory. */
  ghost function Final(vec: Vectors, t: Atoms, mem: seq<Cell>, buffer: seq<octet>): Maybe {
    if Shaped(vec, t, mem) then Just(buffer + Dumped(vec, t, mem)) else Unfit
  }

  lemma FinalBytes(vec: Vectors, off: nat, n: nat, tail: Atoms, mem: seq<Cell>, buffer: seq<octet>, goal: seq<octet>)
    requires Final(vec, Bytes(off, n, tail), mem, buffer) == Just(goal) && off + n <= |mem|
    ensures forall i :: off <= i < off + n ==> mem[i].Raw?
    ensures Final(vec, tail, mem, buffer + Slice(mem, off, n)) == Just(goal) && |buffer| + n <= |goal|
  {
    DumpedBytes(vec, off, n, tail, mem);
    Regroup(buffer, Slice(mem, off, n), Dumped(vec, tail, mem));
  }

  /** A block, then `tail`, is the block alone, then `tail`. */
  lemma FinalBlock(env: Sizes, vec: Vectors, c: Code, off: nat, tail: Atoms, mem: seq<Cell>, buffer: seq<octet>, goal: seq<octet>)
    requires Final(vec, Trace(env, c, off, tail), mem, buffer) == Just(goal)
    ensures Shaped(vec, Trace(env, c, off, Nil), mem)
    ensures var d := Dumped(vec, Trace(env, c, off, Nil), mem);
            Final(vec, tail, mem, buffer + d) == Just(goal) && |buffer| + |d| <= |goal|
  {
    var alone := Trace(env, c, off, Nil);
    TraceThen(env, c, off, Nil, tail);
    ShapedThen(vec, alone, tail, mem);
    DumpedThen(vec, alone, tail, mem);
    Regroup(buffer, Dumped(vec, alone, mem), Dumped(vec, tail, mem));
  }

  /** The bytes of a container: its count, then its elements one by one. */
  function BoxBytes(vec: Vectors, h: nat, elem: Atoms, elems: seq<seq<Cell>>): seq<octet>
    requires h in vec && ShapedEach(vec, h, elem, elems)
  {
    Count(|elems|) + DumpedEach(vec, h, elem, elems)
  }

  lemma FinalBox(vec: Vectors, t: Atoms, mem: seq<Cell>, buffer: seq<octet>, goal: seq<octet>)
    requires t.Box? && Final(vec, t, mem, buffer) == Just(goal)
    ensures t.at < |mem| && mem[t.at].Head? && t.handle in vec && |mem[t.at].elems| < COUNT_LIMIT
    ensures ShapedEach(vec, t.handle, t.elem, mem[t.at].elems)
    ensures var d := BoxBytes(vec, t.handle, t.elem, mem[t.at].elems);
            Final(vec, t.rest, mem, buffer + d) == Just(goal) && |buffer| + |d| <= |goal|
  {
    Regroup(buffer, BoxBytes(vec, t.handle, t.elem, mem[t.at].elems), Dumped(vec, t.rest, mem));
  }

  /** What a buffer will hold once the elements `elems` are written too. */
  ghost function FinalEach(vec: Vectors, h: nat, elem: Atoms, elems: seq<seq<Cell>>, buffer: seq<octet>): Maybe {
    if h in vec && ShapedEach(vec, h, elem, elems) then Just(buffer + DumpedEach(vec, h, elem, elems)) else Unfit
  }

  lemma FinalElement(vec: Vectors, h: nat, elem: Atoms, elems: seq<seq<Cell>>, i: nat, buffer: seq<octet>, goal: seq<octet>)
    requires i < |elems| && FinalEach(vec, h, elem, elems[i..], buffer) == Just(goal)
    ensures |elems[i]| == vec[h].stride && Shaped(vec, elem, elems[i])
    ensures var d := Dumped(vec, elem, elems[i]);
            FinalEach(vec, h, elem, elems[i + 1..], buffer + d) == Just(goal) && |buffer| + |d| <= |goal|
  {
    var left := elems[i..];
    assert left[0] == elems[i] && left[1..] == elems[i + 1..];
    Regroup(buffer, Dumped(vec, elem, elems[i]), DumpedEach(vec, h, elem, elems[i + 1..]));
  }

  // ----- bulk copies of vectors -----

  /** The raw buffer behind a vector: its elements back to back. */
  function Flat(elems: seq<seq<Cell>>): seq<Cell> {
    if elems == [] then [] else elems[0] + Flat(elems[1..])
  }

  lemma {:induction false} FlatBytes(vec: Vectors, h: nat, elems: seq<seq<Cell>>)
    requires h in vec && ShapedEach(vec, h, Bytes(0, vec[h].stride, Nil), elems)
    ensures |Flat(elems)| == Times(|elems|, vec[h].stride)
    ensures forall i :: 0 <= i < |Flat(elems)| ==> Flat(elems)[i].Raw?
    ensures Slice(Flat(elems), 0, |Flat(elems)|) == DumpedEach(vec, h, Bytes(0, vec[h].stride, Nil), elems)
    decreases |elems|
  {
    if elems != [] {
      FlatBytes(vec, h, elems[1..]);
      WholeBytes(vec, vec[h].stride, elems[0]);
      SliceSplit(elems[0], Flat(elems[1..]));
    }
  }

  lemma WholeBytes(vec: Vectors, n: nat, mem: seq<Cell>)
    requires |mem| == n && Shaped(vec, Bytes(0, n, Nil), mem)
    ensures forall i :: 0 <= i < n ==> mem[i].Raw?
    ensures Dumped(vec, Bytes(0, n, Nil), mem) == Slice(mem, 0, n)
  {
    DumpedBytes(vec, 0, n, Nil, mem);
    assert Slice(mem, 0, n) + [] == Slice(mem, 0, n);
  }

  lemma SliceSplit(a: seq<Cell>, b: seq<Cell>)
    requires (forall i :: 0 <= i < |a| ==> a[i].Raw?) && (forall i :: 0 <= i < |b| ==> b[i].Raw?)
    ensures forall i :: 0 <= i < |a + b| ==> (a + b)[i].Raw?
    ensures Slice(a + b, 0, |a + b|) == Slice(a, 0, |a|) + Slice(b, 0, |b|)
  {
  }

  lemma LoneTrace(env: Sizes, n: nat)
    ensures Trace(env, Memcpy(n, Done), 0, Nil) == Bytes(0, n, Nil)
  {
  }

  /**
   When the bulk path of `Vector::dump` is right. It multiplies the second word of the block by the
   element count, writes that many bytes, and expects the END of the block two words on: for elements of
   positive size this agrees with the element by element path exactly when the block is a lone MEMCPY.
   */
  lemma BulkExact(env: Sizes, vec: Vectors, h: nat, b: Code, elems: seq<seq<Cell>>)
    requires h in vec && vec[h].stride > 0 && Span(env, b) == vec[h].stride && elems != []
    requires ShapedEach(vec, h, Trace(env, b, 0, Nil), elems)
    ensures Len(b) == 2 && Words(b)[1] * |elems| == |DumpedEach(vec, h, Trace(env, b, 0, Nil), elems)|
            <==> b == Memcpy(vec[h].stride, Done)
  {
    if b == Memcpy(vec[h].stride, Done) {
      BulkLength(env, vec, h, elems);
    } else if IsLone(b) {
      SilentEach(vec, h, elems);
    } else if b.Memcpy? || b.Skip? {
      assert Len(b) == 2 + Len(b.next);
    }
  }

  lemma BulkLength(env: Sizes, vec: Vectors, h: nat, elems: seq<seq<Cell>>)
    requires h in vec && ShapedEach(vec, h, Trace(env, Memcpy(vec[h].stride, Done), 0, Nil), elems)
    ensures |DumpedEach(vec, h, Trace(env, Memcpy(vec[h].stride, Done), 0, Nil), elems)| == vec[h].stride * |elems|
  {
    LoneTrace(env, vec[h].stride);
    FlatBytes(vec, h, elems);
    TimesIsProduct(|elems|, vec[h].stride);
  }

  lemma {:induction false} SilentEach(vec: Vectors, h: nat, elems: seq<seq<Cell>>)
    requires h in vec && ShapedEach(vec, h, Nil, elems)
    ensures DumpedEach(vec, h, Nil, elems) == []
    decreases |elems|
  {
    if elems != [] {
      SilentEach(vec, h, elems[1..]);
    }
  }

  // ----- the interpreter -----

  /** `Vector::dump`: one write for the whole buffer if the elements allow it, else element by element. */
  method DumpElements(env: Sizes, vec: Vectors, h: nat, elems: seq<seq<Cell>>, stream: OutputStream, w: seq<nat>, begin: nat, ghost b: Code)
    returns (it: nat, ok: bool)
    requires Reads(w, begin, b) && Fits(env, vec, b) && h in vec && elems != [] && stream.Valid()
    requires Span(env, b) == vec[h].stride && (IsBulk(vec, h) ==> b == Memcpy(vec[h].stride, Done))
    requires ShapedEach(vec, h, Trace(env, b, 0, Nil), elems)
    modifies stream
    ensures stream.Valid()
    ensures var d := DumpedEach(vec, h, Trace(env, b, 0, Nil), elems);
            && (ok <==> Room(stream.limit, |old(stream.buffer)| + |d|))
            && (ok ==> stream.buffer == old(stream.buffer) + d && it == begin + Len(b))
    decreases |w| - begin, 3
  {
    ghost var elem := Trace(env, b, 0, Nil);
    if IsMemcpy(vec[h].layout) {
      LoneTrace(env, vec[h].stride);
      FlatBytes(vec, h, elems);
      TimesIsProduct(|elems|, vec[h].stride);
      var size := w[begin + 1] * |elems|;
      ok := stream.Write(Slice(Flat(elems), 0, size));
      it := begin + 2;
      return;
    }
    ghost var goal := stream.buffer + DumpedEach(vec, h, elem, elems);
    ok, it := true, begin;
    assert elems[0..] == elems;
    for i := 0 to |elems|
      invariant stream.Valid()
      invariant FinalEach(vec, h, elem, elems[i..], stream.buffer) == Just(goal)
      invariant i > 0 ==> it == begin + Len(b)
    {
      FinalElement(vec, h, elem, elems, i, stream.buffer, goal);
      var off;
      off, it, ok := Dump(env, vec, elems[i], 0, stream, w, begin, b);
      if !ok {
        return;
      }
    }
    assert elems[|elems|..] == [];
  }

  method DumpContainer(env: Sizes, vec: Vectors, mem: seq<Cell>, off: nat, stream: OutputStream, w: seq<nat>, start: nat, ghost c: Code)
    returns (it: nat, ok: bool)
    requires c.Container? && Reads(w, start, c) && Fits(env, vec, c) && stream.Valid()
    requires off < |mem| && mem[off].Head? && |mem[off].elems| < COUNT_LIMIT
    requires ShapedEach(vec, c.handle, Trace(env, c.body, 0, Nil), mem[off].elems)
    modifies stream
    ensures stream.Valid()
    ensures var d := BoxBytes(vec, c.handle, Trace(env, c.body, 0, Nil), mem[off].elems);
            && (ok <==> Room(stream.limit, |old(stream.buffer)| + |d|))
            && (ok ==> stream.buffer == old(stream.buffer) + d && it == start + 2 + Len(c.body))
    decreases |w| - start, 0
  {
    var elems := mem[off].elems;
    it := start + 2;
    ok := stream.Write(Count(|elems|));
    if !ok {
      return;
    }
    if |elems| == 0 {
      it := SkipBlock(w, start + 2, c.body);
    } else {
      it, ok := DumpElements(env, vec, w[start + 1], elems, stream, w, start + 2, c.body);
      Regroup(old(stream.buffer), Count(|elems|), DumpedEach(vec, c.handle, Trace(env, c.body, 0, Nil), elems));
    }
  }

  method DumpArray(env: Sizes, vec: Vectors, mem: seq<Cell>, off0: nat, stream: OutputStream, w: seq<nat>, start: nat,
                   ghost c: Code, ghost end: nat, ghost tail: Atoms, ghost goal: seq<octet>)
    returns (off: nat, it: nat, ok: bool)
    requires c.Array? && Reads(w, start, c) && Fits(env, vec, c) && stream.Valid()
    requires end == off0 + Times(c.count, Span(env, c.body)) <= |mem|
    requires Final(vec, Repeated(env, c.body, c.count, off0, tail), mem, stream.buffer) == Just(goal)
    modifies stream
    ensures stream.Valid()
    ensures ok ==> off == end && it == start + 2 + Len(c.body)
    ensures ok ==> Final(vec, tail, mem, stream.buffer) == Just(goal)
    ensures !ok ==> !Room(stream.limit, |goal|)
    decreases |w| - start, 0
  {
    var count, body := w[start + 1], start + 2;
    if count == 0 {
      off, ok := off0, true;
      it := SkipBlock(w, body, c.body);
    } else {
      off, it, ok := DumpRepeated(env, vec, mem, off0, stream, w, body, count, c.body, end, tail, goal);
    }
  }

  method DumpRepeated(env: Sizes, vec: Vectors, mem: seq<Cell>, off0: nat, stream: OutputStream, w: seq<nat>, body: nat, count: nat,
                      ghost b: Code, ghost end: nat, ghost tail: Atoms, ghost goal: seq<octet>)
    returns (off: nat, it: nat, ok: bool)
    requires Reads(w, body, b) && Fits(env, vec, b) && stream.Valid() && count > 0
    requires end == off0 + Times(count, Span(env, b)) <= |mem|
    requires Final(vec, Repeated(env, b, count, off0, tail), mem, stream.buffer) == Just(goal)
    modifies stream
    ensures stream.Valid()
    ensures ok ==> off == end && it == body + Len(b) && Final(vec, tail, mem, stream.buffer) == Just(goal)
    ensures !ok ==> !Room(stream.limit, |goal|)
    decreases |w| - body, 3
  {
    off, it, ok := off0, body, true;
    var i := 0;
    ghost var left, span := count, Span(env, b);
    while i < count
      invariant 0 <= i <= count && left == count - i && stream.Valid()
      invariant i > 0 ==> it == body + Len(b)
      invariant off + Times(left, span) == end
      invariant Final(vec, Repeated(env, b, left, off, tail), mem, stream.buffer) == Just(goal)
    {
      TimesStep(left, span);
      FinalBlock(env, vec, b, off, Repeated(env, b, left - 1, off + span, tail), mem, stream.buffer, goal);
      off, it, ok := Dump(env, vec, mem, off, stream, w, body, b);
      if !ok {
        return;
      }
      i, left := i + 1, left - 1;
    }
  }

  method Dump(env: Sizes, vec: Vectors, mem: seq<Cell>, off0: nat, stream: OutputStream, w: seq<nat>, begin: nat, ghost c: Code)
    returns (off: nat, it: nat, ok: bool)
    requires Reads(w, begin, c) && Fits(env, vec, c) && off0 + Span(env, c) <= |mem| && stream.Valid()
    requires Shaped(vec, Trace(env, c, off0, Nil), mem)
    modifies stream
    ensures stream.Valid()
    ensures var d := Dumped(vec, Trace(env, c, off0, Nil), mem);
            && (ok <==> Room(stream.limit, |old(stream.buffer)| + |d|))
            && (ok ==> stream.buffer == old(stream.buffer) + d)
    ensures ok ==> off == off0 + Span(env, c) && it == begin + Len(c)
    decreases |w| - begin, 2
  {
    ghost var goal := stream.buffer + Dumped(vec, Trace(env, c, off0, Nil), mem);
    ghost var rest := c;
    off, it, ok := off0, begin, true;
    ReadsStops(w, begin, c);
    while it != |w| && w[it] != END
      invariant begin <= it <= |w| && it + Len(rest) == begin + Len(c)
      invariant off + Span(env, rest) == off0 + Span(env, c)
      invariant Reads(w, it, rest) && Fits(env, vec, rest) && stream.Valid()
      invariant Final(vec, Trace(env, rest, off, Nil), mem, stream.buffer) == Just(goal)
      decreases |w| - it
    {
      ReadsNext(w, it, rest);
      off, it, ok := DumpNext(env, vec, mem, off, stream, w, it, rest, goal);
      if !ok {
        return;
      }
      rest := rest.next;
    }
  }

  /** One turn of the loop, on the operation at `start`. */
  method DumpNext(env: Sizes, vec: Vectors, mem: seq<Cell>, off0: nat, stream: OutputStream, w: seq<nat>, start: nat, ghost c: Code, ghost goal: seq<octet>)
    returns (off: nat, it: nat, ok: bool)
    requires !c.Done? && Reads(w, start, c) && Fits(env, vec, c) && off0 + Span(env, c) <= |mem| && stream.Valid()
    requires Final(vec, Trace(env, c, off0, Nil), mem, stream.buffer) == Just(goal)
    modifies stream
    ensures stream.Valid()
    ensures !ok ==> !Room(stream.limit, |goal|)
    ensures ok ==> off == off0 + HeadSpan(env, c) && it == start + HeadLen(c)
    ensures ok ==> Final(vec, Trace(env, c.next, off, Nil), mem, stream.buffer) == Just(goal)
    decreases |w| - start, 1
  {
    off, it, ok := off0, start + 1, true;
    ghost var next := off0 + HeadSpan(env, c);
    ghost var tail := Trace(env, c.next, next, Nil);
    if w[start] == MEMCPY {
      var size := w[it];
      FinalBytes(vec, off, size, tail, mem, stream.buffer, goal);
      ok := stream.Write(Slice(mem, off, size));
      off := off + size;
    } else if w[start] == ARRAY {
      off, it, ok := DumpArray(env, vec, mem, off, stream, w, start, c, next, tail, goal);
    } else if w[start] == SKIP {
      off := off + w[it];
    } else {
      var h := w[it];
      FinalBox(vec, Trace(env, c, off, Nil), mem, stream.buffer, goal);
      it, ok := DumpContainer(env, vec, mem, off, stream, w, start, c);
      off := off + env[h];
    }
    it := it + 1;
  }

  /** `Typelib::dump` into a byte array: how many bytes were written, 0 if the array is too small. */
  method DumpBuffer(env: Sizes, vec: Vectors, mem: seq<Cell>, size: nat, w: seq<nat>, ghost c: Code) returns (n: nat, buffer: seq<octet>)
    requires Reads(w, 0, c) && Len(c) == |w| && Fits(env, vec, c)
    requires Span(env, c) <= |mem| && Shaped(vec, Trace(env, c, 0, Nil), mem)
    ensures var d := Dumped(vec, Trace(env, c, 0, Nil), mem);
            if |d| <= size then n == |d| && buffer == d else n == 0
  {
    var stream := new OutputStream(Bounded(size));
    var off, it, ok := Dump(env, vec, mem, 0, stream, w, 0, c);
    assert [] + Dumped(vec, Trace(env, c, 0, Nil), mem) == Dumped(vec, Trace(env, c, 0, Nil), mem);
    buffer := stream.buffer;
    n := if ok then |buffer| else 0;
  }
}
