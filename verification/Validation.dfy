/** `MemoryLayout::validate`, and what the programs it accepts are. */
module Validation {
  import opened Bytecode
  import opened Layouts
  import IC = InitCode

  datatype Verdict = Accepted | StrayEnd | Unclosed | BadOpcode | ShortData | Truncated

  /** From `it` on, with `indent` blocks open, every block is closed and every operation is complete. */
  predicate Balanced(w: seq<nat>, it: nat, indent: nat)
    requires it <= |w|
    decreases |w| - it
  {
    if it == |w| then indent == 0
    else if w[it] == END then indent > 0 && Balanced(w, it + 1, indent - 1)
    else if w[it] == MEMCPY || w[it] == SKIP then it + 2 <= |w| && Balanced(w, it + 2, indent)
    else if w[it] == ARRAY || w[it] == CONTAINER then it + 2 <= |w| && Balanced(w, it + 2, indent + 1)
    else false
  }

  /**
   The first half of `validate`. An operation without its operand, on which its
   iterator runs past the end of the vector, is reported as `Truncated`.
   */
  method Validate(w: seq<nat>) returns (r: Verdict)
    ensures r.Accepted? <==> Balanced(w, 0, 0)
  {
    var indent, it := 0, 0;
    while it != |w|
      invariant 0 <= it <= |w| && 0 <= indent
      invariant Balanced(w, 0, 0) == Balanced(w, it, indent)
      decreases |w| - it
    {
      if w[it] == MEMCPY || w[it] == SKIP {
        it := it + 1;
      } else if w[it] == ARRAY || w[it] == CONTAINER {
        it := it + 1;
        indent := indent + 1;
      } else if w[it] == END {
        if indent == 0 {
          return StrayEnd;
        }
        indent := indent - 1;
      } else {
        return BadOpcode;
      }
      if it == |w| {
        return Truncated;
      }
      it := it + 1;
    }
    r := if indent > 0 then Unclosed else Accepted;
  }

  /** Balanced words spell, level by level, what is left of every open block. */
  lemma {:induction false} BalancedSpells(w: seq<nat>, it: nat, indent: nat) returns (todo: seq<Code>)
    requires it <= |w| && Balanced(w, it, indent)
    ensures |todo| == indent + 1 && ReadsDeep(w, it, todo) && DeepEnd(it, todo) == |w|
    decreases |w| - it
  {
    if it == |w| {
      todo := [Done];
    } else if w[it] == END {
      var outer := BalancedSpells(w, it + 1, indent - 1);
      todo := [Done] + outer;
      assert todo[1..] == outer;
    } else if w[it] == MEMCPY || w[it] == SKIP {
      var rest := BalancedSpells(w, it + 2, indent);
      var head := if w[it] == MEMCPY then Memcpy(w[it + 1], rest[0]) else Skip(w[it + 1], rest[0]);
      todo := [head] + rest[1..];
      assert todo[1..] == rest[1..];
    } else {
      var rest := BalancedSpells(w, it + 2, indent + 1);
      todo := [if w[it] == ARRAY then Array(w[it + 1], rest[0], rest[1]) else Container(w[it + 1], rest[0], rest[1])] + rest[2..];
      assert todo[1..] == rest[2..] == rest[1..][1..];
    }
  }

  lemma {:induction false} SpelledIsBalanced(w: seq<nat>, it: nat, todo: seq<Code>)
    requires todo != [] && ReadsDeep(w, it, todo) && DeepEnd(it, todo) == |w|
    ensures it <= |w| && Balanced(w, it, |todo| - 1)
    decreases |w| - it
  {
    var c, outer := todo[0], todo[1..];
    assert todo == [c] + outer;
    if c.Done? {
      if outer != [] {
        SpelledIsBalanced(w, it + 1, outer);
      }
    } else if c.Memcpy? || c.Skip? {
      DeepNext(w, it, c, outer);
      SpelledIsBalanced(w, it + 2, [c.next] + outer);
    } else {
      DeepEnter(w, it, c, outer);
      SpelledIsBalanced(w, it + 2, [c.body, c.next] + outer);
    }
  }

  /** `validate` accepts exactly the words of a block structure. */
  lemma ValidateExact(w: seq<nat>)
    ensures Balanced(w, 0, 0) <==> exists c :: Reads(w, 0, c) && Len(c) == |w|
  {
    if Balanced(w, 0, 0) {
      var todo := BalancedSpells(w, 0, 0);
      assert Reads(w, 0, todo[0]) && Len(todo[0]) == |w|;
    }
    if c :| Reads(w, 0, c) && Len(c) == |w| {
      SpelledIsBalanced(w, 0, [c]);
    }
  }

  /** Words of a block structure are accepted. */
  lemma WordsAreBalanced(c: Code)
    ensures Balanced(Words(c), 0, 0)
  {
    ReadsWords(Words(c), 0, c);
    SpelledIsBalanced(Words(c), 0, [c]);
  }

  // ----- the initialisation program -----

  /** Every block is closed and every operation complete; words that are no operation are passed over. */
  predicate InitBalanced(w: seq<nat>, it: nat, indent: nat)
    requires it <= |w|
    decreases |w| - it
  {
    if it == |w| then indent == 0
    else if w[it] == INIT_END then indent > 0 && InitBalanced(w, it + 1, indent - 1)
    else if w[it] == INIT_SKIP || w[it] == INIT_CONTAINER then it + 2 <= |w| && InitBalanced(w, it + 2, indent)
    else if w[it] == INIT_REPEAT then it + 2 <= |w| && InitBalanced(w, it + 2, indent + 1)
    else if w[it] == INIT then it + 2 <= |w| && it + 2 + w[it + 1] <= |w| && InitBalanced(w, it + 2 + w[it + 1], indent)
    else InitBalanced(w, it + 1, indent)
  }

  /**
   The second half of `validate`. Its bound on constant data counts the word that holds the length, so
   data one word short is not refused: there its iterator runs past the end (`Truncated`).
   */
  method ValidateInit(w: seq<nat>) returns (r: Verdict)
    ensures r.Accepted? <==> InitBalanced(w, 0, 0)
  {
    var indent, it := 0, 0;
    while it != |w|
      invariant 0 <= it <= |w| && 0 <= indent
      invariant InitBalanced(w, 0, 0) == InitBalanced(w, it, indent)
      decreases |w| - it
    {
      if w[it] == INIT_SKIP || w[it] == INIT_CONTAINER {
        it := it + 1;
      } else if w[it] == INIT_REPEAT {
        it := it + 1;
        indent := indent + 1;
      } else if w[it] == INIT_END {
        if indent == 0 {
          return StrayEnd;
        }
        indent := indent - 1;
      } else if w[it] == INIT {
        it := it + 1;
        if it == |w| {
          return Truncated;
        }
        var size := w[it];
        if |w| - it < size {
          return ShortData;
        }
        it := it + size;
      }
      if it == |w| {
        return Truncated;
      }
      it := it + 1;
    }
    r := if indent > 0 then Unclosed else Accepted;
  }

  /** The words of an initialisation program are accepted, wherever they stand. */
  lemma {:induction false} ReadsInitIsBalanced(w: seq<nat>, i: nat, c: IC.Init, indent: nat)
    requires IC.ReadsInit(w, i, c)
    ensures i + IC.InitLen(c) <= |w|
    ensures InitBalanced(w, i, indent) <==> InitBalanced(w, i + IC.InitLen(c), indent)
    decreases c
  {
    IC.ReadsInitStops(w, i, c);
    if !c.Stop? {
      IC.ReadsInitNext(w, i, c);
      if c.Repeat? {
        ReadsInitIsBalanced(w, i + 2, c.body, indent + 1);
        IC.ReadsInitStops(w, i + 2, c.body);
      }
      ReadsInitIsBalanced(w, i + IC.HeadLen(c), c.next, indent);
    }
  }

  lemma InitWordsAreBalanced(c: IC.Init)
    ensures InitBalanced(IC.InitWords(c), 0, 0)
  {
    IC.ReadsInitWords(IC.InitWords(c), 0, c);
    ReadsInitIsBalanced(IC.InitWords(c), 0, c, 0);
  }
}
