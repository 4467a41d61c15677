/** `ValueOps::init`, running the flat initialisation program over memory in place. */
module Initializer {
  import opened Tracing
  import opened Layouts
  import opened Octets
  import opened InitCode
  import opened Memory
  import opened Defaults
  import opened Unmarshal

  /**
   The programs that run to their end. The interpreter does not step over the block of an
   empty array, and refuses to go on unless that block has no operation.
   */
  ghost predicate Runs(c: Init) {
    match c
    case Stop => true
    case Data(_, next) => Runs(next)
    case Pass(_, next) => Runs(next)
    case Repeat(k, b, next) => (if k == 0 then b.Stop? else Runs(b)) && Runs(next)
    case Empty(_, next) => Runs(next)
  }

  /** The first operation of a program runs to its end. */
  ghost predicate HeadRuns(c: Init) {
    c.Repeat? ==> if c.count == 0 then c.body.Stop? else Runs(c.body)
  }

  /** Words stored as bytes. */
  function Stored(d: seq<nat>): (r: seq<octet>)
    ensures |r| == |d|
  {
    seq(|d|, i requires 0 <= i < |d| => d[i] % 256)
  }

  lemma {:induction false} SetsApplied(env: Sizes, off: nat, d: seq<nat>, tail: Writes, mem: seq<Cell>)
    requires off + |d| <= |mem|
    ensures Applied(env, Sets(off, d, tail), mem) == Applied(env, tail, Overwritten(mem, off, Stored(d)))
    decreases |d|
  {
    if d == [] {
      assert Overwritten(mem, off, Stored(d)) == mem;
    } else {
      SetsApplied(env, off + 1, d[1..], tail, mem[off := Raw(d[0] % 256)]);
      assert Stored(d)[1..] == Stored(d[1..]);
      OverwrittenFirst(mem, off, Stored(d));
    }
  }

  /** Running a block, then the rest. */
  lemma {:induction false} AppliedBlock(env: Sizes, c: Init, off: nat, tail: Writes, mem: seq<Cell>)
    requires off + InitSpan(env, c) <= |mem|
    ensures Applied(env, Effect(env, c, off, tail), mem) == Applied(env, tail, Applied(env, Effect(env, c, off, NoWrite), mem))
    decreases c, 0
  {
    match c
    case Stop =>
    case Data(d, next) =>
      SetsApplied(env, off, d, Effect(env, next, off + |d|, tail), mem);
      SetsApplied(env, off, d, Effect(env, next, off + |d|, NoWrite), mem);
      AppliedBlock(env, next, off + |d|, tail, Overwritten(mem, off, Stored(d)));
    case Pass(n, next) => AppliedBlock(env, next, off + n, tail, mem);
    case Repeat(k, b, next) =>
      var mid := off + Times(k, InitSpan(env, b));
      AppliedEach(env, b, k, off, Effect(env, next, mid, tail), mem);
      AppliedEach(env, b, k, off, Effect(env, next, mid, NoWrite), mem);
      AppliedBlock(env, next, mid, tail, Applied(env, EffectEach(env, b, k, off, NoWrite), mem));
    case Empty(h, next) =>
      AppliedBlock(env, next, off + SizeOf(env, h), tail, Emptied(mem, off, SizeOf(env, h)));
  }

  lemma {:induction false} AppliedEach(env: Sizes, b: Init, k: nat, off: nat, tail: Writes, mem: seq<Cell>)
    requires off + Times(k, InitSpan(env, b)) <= |mem|
    ensures Applied(env, EffectEach(env, b, k, off, tail), mem) == Applied(env, tail, Applied(env, EffectEach(env, b, k, off, NoWrite), mem))
    decreases b, k + 1
  {
    if k > 0 {
      var mid, m := off + InitSpan(env, b), Applied(env, Effect(env, b, off, NoWrite), mem);
      AppliedBlock(env, b, off, EffectEach(env, b, k - 1, mid, tail), mem);
      AppliedBlock(env, b, off, EffectEach(env, b, k - 1, mid, NoWrite), mem);
      AppliedEach(env, b, k - 1, mid, tail, m);
    }
  }

  lemma AppliedFirst(env: Sizes, b: Init, k: nat, off: nat, tail: Writes, mem: seq<Cell>)
    requires k > 0 && off + InitSpan(env, b) <= |mem|
    ensures Applied(env, EffectEach(env, b, k, off, tail), mem)
            == Applied(env, EffectEach(env, b, k - 1, off + InitSpan(env, b), tail), Applied(env, Effect(env, b, off, NoWrite), mem))
  {
    AppliedBlock(env, b, off, EffectEach(env, b, k - 1, off + InitSpan(env, b), tail), mem);
  }

  method InitFrom(env: Sizes, zone: Zone, off0: nat, w: seq<nat>, begin: nat, ghost c: Init) returns (off: nat, it: nat, ok: bool)
    requires ReadsInit(w, begin, c) && off0 + InitSpan(env, c) <= |zone.cells|
    modifies zone
    ensures |zone.cells| == |old(zone.cells)|
    ensures ok <==> Runs(c)
    ensures ok ==> off == off0 + InitSpan(env, c) && it == begin + InitLen(c)
    ensures ok ==> zone.cells == Applied(env, Effect(env, c, off0, NoWrite), old(zone.cells))
    decreases |w| - begin, 2
  {
    ghost var goal := Applied(env, Effect(env, c, off0, NoWrite), zone.cells);
    ghost var rest := c;
    off, it, ok := off0, begin, true;
    ReadsInitStops(w, begin, c);
    while it != |w| && w[it] != INIT_END
      invariant begin <= it <= |w| && it + InitLen(rest) == begin + InitLen(c)
      invariant off + InitSpan(env, rest) == off0 + InitSpan(env, c) && |zone.cells| == |old(zone.cells)|
      invariant ReadsInit(w, it, rest) && Runs(c) == Runs(rest)
      invariant Applied(env, Effect(env, rest, off, NoWrite), zone.cells) == goal
      decreases |w| - it
    {
      ReadsInitNext(w, it, rest);
      off, it, ok := InitNext(env, zone, off, w, it, rest, goal);
      if !ok {
        return;
      }
      rest := rest.next;
    }
  }

  /** One turn of the loop, on the operation at `start`. */
  method InitNext(env: Sizes, zone: Zone, off0: nat, w: seq<nat>, start: nat, ghost c: Init, ghost goal: seq<Cell>)
    returns (off: nat, it: nat, ok: bool)
    requires !c.Stop? && ReadsInit(w, start, c) && off0 + InitSpan(env, c) <= |zone.cells|
    requires Applied(env, Effect(env, c, off0, NoWrite), zone.cells) == goal
    modifies zone
    ensures |zone.cells| == |old(zone.cells)|
    ensures ok <==> HeadRuns(c)
    ensures ok ==> off == off0 + HeadSpan(env, c) && it == start + HeadLen(c)
    ensures ok ==> Applied(env, Effect(env, c.next, off, NoWrite), zone.cells) == goal
    decreases |w| - start, 1
  {
    off, it, ok := off0, start + 1, true;
    if w[start] == INIT {
      var size := w[it];
      var data := w[it + 1..it + 1 + size];
      assert data == c.bytes;
      SetsApplied(env, off, c.bytes, Effect(env, c.next, off + |c.bytes|, NoWrite), zone.cells);
      zone.cells := Overwritten(zone.cells, off, Stored(data));
      off, it := off + size, it + size;
    } else if w[start] == INIT_SKIP {
      off := off + w[it];
    } else if w[start] == INIT_REPEAT {
      off, it, ok := InitRepeat(env, zone, off, w, start, c, goal);
    } else {
      var h := w[it];
      zone.cells := Emptied(zone.cells, off, SizeOf(env, h));
      off := off + SizeOf(env, h);
    }
    it := it + 1;
  }

  method InitRepeat(env: Sizes, zone: Zone, off0: nat, w: seq<nat>, start: nat, ghost c: Init, ghost goal: seq<Cell>)
    returns (off: nat, it: nat, ok: bool)
    requires c.Repeat? && ReadsInit(w, start, c) && off0 + InitSpan(env, c) <= |zone.cells|
    requires Applied(env, Effect(env, c, off0, NoWrite), zone.cells) == goal
    modifies zone
    ensures |zone.cells| == |old(zone.cells)|
    ensures ok <==> HeadRuns(c)
    ensures ok ==> off == off0 + HeadSpan(env, c) && it == start + 2 + InitLen(c.body)
    ensures ok ==> Applied(env, Effect(env, c.next, off, NoWrite), zone.cells) == goal
    decreases |w| - start, 0
  {
    ghost var end := off0 + Times(c.count, InitSpan(env, c.body));
    var count, body := w[start + 1], start + 2;
    ReadsInitStops(w, body, c.body);
    if count == 0 {
      if !c.body.Stop? {
        ReadsInitNext(w, body, c.body);
      }
      off, it, ok := off0, body, w[body] == INIT_END;
    } else {
      off, it, ok := InitEach(env, zone, off0, w, body, count, c.body, end, Effect(env, c.next, end, NoWrite), goal);
    }
  }

  method InitEach(env: Sizes, zone: Zone, off0: nat, w: seq<nat>, body: nat, count: nat, ghost b: Init, ghost end: nat, ghost tail: Writes, ghost goal: seq<Cell>)
    returns (off: nat, it: nat, ok: bool)
    requires ReadsInit(w, body, b) && body + InitLen(b) < |w| && count > 0
    requires end == off0 + Times(count, InitSpan(env, b)) <= |zone.cells|
    requires Applied(env, EffectEach(env, b, count, off0, tail), zone.cells) == goal
    modifies zone
    ensures |zone.cells| == |old(zone.cells)|
    ensures ok <==> Runs(b)
    ensures ok ==> off == end && it == body + InitLen(b) && Applied(env, tail, zone.cells) == goal
    decreases |w| - body, 3
  {
    off, it, ok := off0, body, true;
    var i := 0;
    ghost var left, span := count, InitSpan(env, b);
    ReadsInitStops(w, body, b);
    while i < count
      invariant 0 <= i <= count && left == count - i && |zone.cells| == |old(zone.cells)|
      invariant i > 0 ==> it == body + InitLen(b) && Runs(b)
      invariant off + Times(left, span) == end
      invariant Applied(env, EffectEach(env, b, left, off, tail), zone.cells) == goal
    {
      TimesStep(left, span);
      AppliedFirst(env, b, left, off, tail, zone.cells);
      off, it, ok := InitFrom(env, zone, off, w, body, b);
      if !ok {
        return;
      }
      i, left := i + 1, left - 1;
    }
    ok := it != |w| && w[it] == INIT_END;
  }
}
