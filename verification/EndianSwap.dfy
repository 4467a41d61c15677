/** `CompileEndianSwapVisitor`, writing words. */
module EndianSwap {
  import opened Tracing
  import opened Seqs
  import opened Types
  import opened EndianCode
  import opened EndianCompiler

  // ----- the end of a program -----

  lemma {:induction false} WordsAppend(a: Code, b: Code)
    ensures Words(Append(a, b)) == Words(a) + Words(b)
  {
    if a.Done? {
      assert [] + Words(b) == Words(b);
    } else {
      WordsAppend(a.next, b);
      WordsOfStep(a, Append(a.next, b));
      WordsOfStep(a, a.next);
      Regroup(StepWords(a), Words(a.next), Words(b));
    }
  }

  /** The words of the first operation. */
  function StepWords(c: Code): seq<int>
    requires !c.Done?
  {
    match c
    case Skip(n, _) => [FLAG_SKIP, n]
    case Swap(width, _) => [if width == 4 then FLAG_SWAP_4 else FLAG_SWAP_8]
    case Take(index, _) => [index as int]
    case Array(count, size, body, _) => [FLAG_ARRAY, count, size] + Words(body) + [FLAG_END]
  }

  lemma WordsOfStep(c: Code, next: Code)
    requires !c.Done?
    ensures Words(c.(next := next)) == StepWords(c) + Words(next)
  {
  }

  predicate EndsInSkip(c: Code) {
    !c.Done? && if c.next.Done? then c.Skip? else EndsInSkip(c.next)
  }

  /** What the last two words tell about the last operation. */
  ghost predicate Closing(w: seq<int>, skip: bool) {
    |w| > 0 && (if skip then |w| > 1 && w[|w| - 2] == FLAG_SKIP else |w| > 1 ==> w[|w| - 2] != FLAG_SKIP) && w[|w| - 1] != FLAG_SKIP
  }

  lemma {:induction false} LastWords(c: Code)
    requires !c.Done?
    ensures Closing(Words(c), EndsInSkip(c))
    decreases c, 1
  {
    WordsOfStep(c, c.next);
    StepCloses(c);
    if c.next.Done? {
      assert StepWords(c) + [] == StepWords(c);
    } else {
      LastWords(c.next);
      ClosesAfter(StepWords(c), Words(c.next), EndsInSkip(c.next));
    }
  }

  lemma StepCloses(c: Code)
    requires !c.Done?
    ensures Closing(StepWords(c), c.Skip?)
    decreases c, 0
  {
    if c.Array? && !c.body.Done? {
      LastWords(c.body);
      var w := StepWords(c);
      assert w[|w| - 2] == Words(c.body)[|Words(c.body)| - 1];
    }
  }

  lemma ClosesAfter(v: seq<int>, w: seq<int>, skip: bool)
    requires Closing(w, skip) && |v| > 0 && v[|v| - 1] != FLAG_SKIP
    ensures Closing(v + w, skip)
  {
  }

  /** The last word raised by `n`. */
  function Bumped(w: seq<int>, n: nat): seq<int>
    requires |w| > 0
  {
    w[|w| - 1 := w[|w| - 1] + n]
  }

  lemma BumpedAfter(v: seq<int>, w: seq<int>, n: nat)
    requires |w| > 0
    ensures Bumped(v + w, n) == v + Bumped(w, n)
  {
  }

  /** Merging a skip changes the last word, or adds two. */
  lemma {:induction false} AddSkipWords(c: Code, n: nat)
    ensures EndsInSkip(c) ==> Len(c) > 0 && Words(AddSkip(c, n)) == Bumped(Words(c), n)
    ensures !EndsInSkip(c) ==> Words(AddSkip(c, n)) == Words(c) + [FLAG_SKIP, n]
  {
    if c.Done? {
      assert [] + [FLAG_SKIP, n] == [FLAG_SKIP, n];
    } else if c.next.Done? && c.Skip? {
      assert Words(c) == [FLAG_SKIP, c.n];
    } else {
      AddSkipWords(c.next, n);
      WordsOfStep(c, AddSkip(c.next, n));
      WordsOfStep(c, c.next);
      if EndsInSkip(c.next) {
        BumpedAfter(StepWords(c), Words(c.next), n);
      } else {
        Regroup(StepWords(c), Words(c.next), [FLAG_SKIP, n]);
      }
    }
  }

  // ----- the visitor -----

  /** The types that the visitor accepts. */
  predicate Supported(t: Type)
    decreases t
  {
    match t
    case NumericType(size) => size == 1 || size == 2 || size == 4 || size == 8
    case EnumType(_, _) => true
    case ArrayType(_, elem) => Supported(elem)
    case CompoundType(fields, _) => SupportedFields(fields, 0)
    case _ => false
  }

  /** Fields that start before `at`, where the last one ended, are not looked at. */
  predicate SupportedFields(fs: Fields, at: nat)
    decreases fs
  {
    match fs
    case NoMore => true
    case FieldAt(_, offset, typ, rest) =>
      if offset < at then SupportedFields(rest, at) else Supported(typ) && SupportedFields(rest, offset + Size(typ))
  }

  /** What precedes the program being emitted: nothing, or the head of an array. */
  ghost predicate Opening(pre: seq<int>) {
    pre == [] || (|pre| > 1 && pre[|pre| - 1] >= 0 && pre[|pre| - 2] >= 0)
  }

  lemma Appended(pre: seq<int>, c: Code, d: Code)
    ensures pre + Words(Append(c, d)) == pre + Words(c) + Words(d)
  {
    WordsAppend(c, d);
    Regroup(pre, Words(c), Words(d));
  }

  /** The operation for an array is an array or a skip: its second word counts. */
  lemma {:induction false} ArrayOpWords(k: nat, elem: Type, idx: nat)
    ensures var op := ArrayOp(k, elem, idx); (op.Array? || op.Skip?) && op.next.Done?
    decreases elem
  {
    if elem.ArrayType? {
      ArrayOpWords(elem.dimension, elem.elem, idx);
    }
  }

  lemma MultipliedWords(before: seq<int>, op: Code, k: nat)
    requires (op.Array? || op.Skip?) && op.next.Done?
    ensures var w := before + Words(op);
            Len(op) > 1 && before + Words(Multiplied(k, op)) == w[|before| + 1 := w[|before| + 1] * k]
  {
    var count := if op.Array? then op.count else op.n;
    TimesIsProduct(k, count);
    WordsOfStep(op, Done);
    WordsOfStep(Multiplied(k, op), Done);
    assert Words(op)[1] == count;
    assert Words(Multiplied(k, op)) == Words(op)[1 := count * k];
  }

  lemma PackedWords(before: seq<int>, k: nat, size: nat, body: Code)
    ensures var w := before + [FLAG_ARRAY, k, size] + Words(body);
            var at := |before| + 3;
            if |w| == at + 2 && w[at] == FLAG_SKIP
            then w[at - 3 := FLAG_SKIP][at - 2 := w[at + 1] * k][..|w| - 3] == before + Words(Packed(k, size, body))
            else w + [FLAG_END] == before + Words(Packed(k, size, body))
  {
    LoneSkipWords(body);
    if body.Skip? && body.next.Done? {
      TimesIsProduct(k, body.n);
      Squashed(before, k, size, Words(body));
      assert Words(Packed(k, size, body)) == [FLAG_SKIP, Words(body)[1] * k];
    } else {
      WordsOfStep(Packed(k, size, body), Done);
      Spread(before, [FLAG_ARRAY, k, size], Words(body), [FLAG_END]);
    }
  }

  lemma Spread(p: seq<int>, q: seq<int>, r: seq<int>, s: seq<int>)
    ensures p + q + r + s == p + (q + r + s + [])
  {
  }

  lemma Squashed(before: seq<int>, k: int, size: int, body: seq<int>)
    requires |body| == 2 && body[0] == FLAG_SKIP
    ensures var w := before + [FLAG_ARRAY, k, size] + body;
            var at := |before| + 3;
            w[at] == FLAG_SKIP && w[at - 3 := FLAG_SKIP][at - 2 := w[at + 1] * k][..|w| - 3] == before + [FLAG_SKIP, body[1] * k]
  {
  }

  lemma LoneSkipWords(c: Code)
    ensures c.Skip? && c.next.Done? <==> Len(c) == 2 && Words(c)[0] == FLAG_SKIP
  {
    if !c.Done? {
      WordsOfStep(c, c.next);
    }
  }

  class SwapCompiler {
    var compiled: seq<int>
    var outputIndex: nat

    constructor ()
      ensures compiled == [] && outputIndex == 0
    {
      compiled, outputIndex := [], 0;
    }

    method EmitSkip(n: nat, ghost pre: seq<int>, ghost c: Code)
      requires Opening(pre) && compiled == pre + Words(c)
      modifies this`compiled
      ensures compiled == pre + Words(AddSkip(c, n))
    {
      var size := |compiled|;
      AddSkipWords(c, n);
      if !c.Done? {
        LastWords(c);
        if pre != [] {
          ClosesAfter(pre, Words(c), EndsInSkip(c));
        }
      }
      if size > 1 && compiled[size - 2] == FLAG_SKIP {
        BumpedAfter(pre, Words(c), n);
        compiled := compiled[size - 1 := compiled[size - 1] + n];
      } else {
        Regroup(pre, Words(c), [FLAG_SKIP, n]);
        compiled := compiled + [FLAG_SKIP, n];
      }
    }

    /** `n` input positions, back to front. */
    method EmitTakes(n: nat)
      modifies this`compiled
      ensures compiled == old(compiled) + Words(Takes(outputIndex, n))
    {
      ghost var goal := compiled + Words(Takes(outputIndex, n));
      var i := n;
      while i > 0
        invariant 0 <= i <= n && compiled + Words(Takes(outputIndex, i)) == goal
      {
        i := i - 1;
        Regroup(compiled, [outputIndex + i], Words(Takes(outputIndex, i)));
        compiled := compiled + [outputIndex + i];
      }
    }

    method Visit(t: Type, ghost pre: seq<int>, ghost c: Code) returns (ok: bool)
      requires Opening(pre) && compiled == pre + Words(c)
      modifies this
      ensures ok <==> Supported(t)
      ensures ok ==> compiled == pre + Words(Emitted(c, t, old(outputIndex)))
      decreases t, 1
    {
      ok := true;
      match t
      case NumericType(size) =>
        if size == 1 {
          EmitSkip(1, pre, c);
        } else if size == 2 {
          EmitTakes(2);
          Appended(pre, c, Takes(outputIndex, 2));
        } else if size == 4 {
          compiled := compiled + [FLAG_SWAP_4];
          Appended(pre, c, Swap(4, Done));
        } else if size == 8 {
          compiled := compiled + [FLAG_SWAP_8];
          Appended(pre, c, Swap(8, Done));
        } else {
          ok := false;
        }
      case EnumType(_, _) =>
        EmitTakes(SIZE_OF_ENUM);
        Appended(pre, c, Takes(outputIndex, SIZE_OF_ENUM));
      case ArrayType(dimension, elem) =>
        ok := VisitArray(dimension, elem, pre, c);
      case CompoundType(fields, _) =>
        ok := VisitFields(fields, pre, c);
      case _ =>
        ok := false;
    }

    method VisitArray(dimension: nat, elem: Type, ghost pre: seq<int>, ghost c: Code) returns (ok: bool)
      requires Opening(pre) && compiled == pre + Words(c)
      modifies this
      ensures ok <==> Supported(elem)
      ensures ok ==> compiled == pre + Words(Append(c, ArrayOp(dimension, elem, old(outputIndex))))
      decreases elem, 2
    {
      ghost var idx := outputIndex;
      var current := |compiled|;
      if elem.ArrayType? {
        ok := VisitArray(elem.dimension, elem.elem, pre, c);
        if ok {
          ghost var op := ArrayOp(elem.dimension, elem.elem, idx);
          Appended(pre, c, op);
          ArrayOpWords(elem.dimension, elem.elem, idx);
          MultipliedWords(pre + Words(c), op, dimension);
          compiled := compiled[current + 1 := compiled[current + 1] * dimension];
          Appended(pre, c, Multiplied(dimension, op));
        }
      } else {
        var size := Size(elem);
        ghost var head := pre + Words(c) + [FLAG_ARRAY, dimension, size];
        compiled := compiled + [FLAG_ARRAY, dimension, size];
        assert head + [] == head;
        ok := Visit(elem, head, Done);
        if ok {
          ghost var body := Emitted(Done, elem, idx);
          PackedWords(pre + Words(c), dimension, size, body);
          current := current + 3;
          if |compiled| == current + 2 && compiled[current] == FLAG_SKIP {
            compiled := compiled[current - 3 := FLAG_SKIP][current - 2 := compiled[current + 1] * dimension];
            compiled := compiled[..|compiled| - 3];
          } else {
            compiled := compiled + [FLAG_END];
          }
          Appended(pre, c, Packed(dimension, size, body));
        }
      }
    }

    method VisitFields(fields: Fields, ghost pre: seq<int>, ghost c: Code) returns (ok: bool)
      requires Opening(pre) && compiled == pre + Words(c)
      modifies this
      ensures ok <==> SupportedFields(fields, 0)
      ensures ok ==> compiled == pre + Words(EmittedFields(c, fields, old(outputIndex), old(outputIndex)))
      decreases fields, 2
    {
      var base, fs := outputIndex, fields;
      ghost var e := c;
      ok := true;
      while fs.FieldAt?
        invariant fs == fields || fs < fields
        invariant ok && compiled == pre + Words(e)
        invariant base <= outputIndex && SupportedFields(fields, 0) == SupportedFields(fs, outputIndex - base)
        invariant EmittedFields(e, fs, base, outputIndex) == EmittedFields(c, fields, base, base)
        decreases fs
      {
        ok, e := VisitField(fs, base, pre, e);
        if !ok {
          return;
        }
        fs := fs.rest;
      }
    }

    /** One field: passed over if it starts before the end of the last one, else with the padding in front of it. */
    method VisitField(fs: Fields, base: nat, ghost pre: seq<int>, ghost c: Code) returns (ok: bool, ghost e: Code)
      requires fs.FieldAt? && Opening(pre) && compiled == pre + Words(c) && base <= outputIndex
      modifies this
      ensures ok <==> base + fs.offset < old(outputIndex) || Supported(fs.typ)
      ensures ok ==> outputIndex == if base + fs.offset < old(outputIndex) then old(outputIndex) else base + fs.offset + Size(fs.typ)
      ensures ok ==> compiled == pre + Words(e) && EmittedFields(e, fs.rest, base, outputIndex) == EmittedFields(c, fs, base, old(outputIndex))
      decreases fs, 1
    {
      e, ok := c, true;
      if base + fs.offset < outputIndex {
        PassedOver(c, fs, base, outputIndex);
      } else {
        ok, e := EmitField(fs, base, base + fs.offset, pre, c);
      }
    }

    method EmitField(fs: Fields, ghost base: nat, start: nat, ghost pre: seq<int>, ghost c: Code) returns (ok: bool, ghost e: Code)
      requires fs.FieldAt? && Opening(pre) && compiled == pre + Words(c) && start == base + fs.offset && start >= outputIndex
      modifies this
      ensures ok <==> Supported(fs.typ)
      ensures ok ==> outputIndex == start + Size(fs.typ) && compiled == pre + Words(e)
      ensures ok ==> EmittedFields(e, fs.rest, base, outputIndex) == EmittedFields(c, fs, base, old(outputIndex))
      decreases fs, 0
    {
      ghost var idx, d := outputIndex, c;
      d := EmitGap(start, pre, c);
      e := Emitted(d, fs.typ, start);
      FirstEmitted(c, d, e, fs, base, idx, start - idx, start + Size(fs.typ));
      ok := Visit(fs.typ, pre, d);
      outputIndex := start + Size(fs.typ);
    }

    /** Up to `start`, if that is ahead. */
    method EmitGap(start: nat, ghost pre: seq<int>, ghost c: Code) returns (ghost d: Code)
      requires Opening(pre) && compiled == pre + Words(c) && start >= outputIndex
      modifies this
      ensures outputIndex == start && compiled == pre + Words(d)
      ensures d == if start > old(outputIndex) then AddSkip(c, start - old(outputIndex)) else c
    {
      d := c;
      if start > outputIndex {
        EmitSkip(start - outputIndex, pre, c);
        d := AddSkip(c, start - outputIndex);
      }
      outputIndex := start;
    }
  }
}
