/** `layout_of`: the visitor, then both optimisers. */
module Builder {
  import opened Bytecode
  import opened Tracing
  import opened Simplification
  import opened Layouts
  import opened Types
  import opened Compiler
  import opened Validation
  import O = Optimizer
  import IC = InitCode
  import IO = InitOptimizer

  /** Both passes get through the programs of the type without taking back words they did not write. */
  predicate Safe(t: Type, merge: bool)
    requires Ordered(t)
  {
    !O.Stumbles(merge, Types.Raw(t), Nothing) && !IO.Stumbles(RawInit(t), IC.Nothing)
  }

  /** `simplifyInit()`: an initialisation that only steps over bytes is dropped. */
  method SimplifyInit(w: seq<nat>, ghost c: IC.Init) returns (r: seq<nat>, ok: bool)
    requires w == IC.InitWords(c)
    ensures ok <==> !IO.Stumbles(c, IC.Nothing)
    ensures ok ==> r == IC.InitWords(IC.Cleared(IC.Simplified(true, c, IC.Nothing)))
  {
    var result := new MemoryLayout();
    IC.ReadsInitWords(w, 0, c);
    var it;
    it, ok := IO.SimplifyInitFrom(w, 0, result, true, c);
    r := result.initOps;
    ghost var s := IC.Simplified(true, c, IC.Nothing);
    assert [] + IC.InitWords(s) == IC.InitWords(s);
    LonePassWords(s);
    if |r| == 2 && r[0] == INIT_SKIP {
      r := [];
    }
  }

  lemma LonePassWords(c: IC.Init)
    ensures IC.IsLonePass(c) <==> |IC.InitWords(c)| == 2 && IC.InitWords(c)[0] == INIT_SKIP
  {
    if !c.Stop? {
      assert IC.InitWords(c) == IC.HeadWords(c) + IC.InitWords(c.next);
    }
  }

  /** Fails exactly on the types that have no layout, and on those whose passes would spoil it. */
  method LayoutOf(t: Type, pointers: bool, opaques: bool, merge: bool, remove: bool) returns (layout: MemoryLayout, ok: bool)
    requires Ordered(t)
    ensures ok <==> Accepts(t, pointers, opaques) && Safe(t, merge)
    ensures ok <==> AllPermitted(Leaves(t, false), pointers, opaques) && Safe(t, merge)
    ensures ok ==> layout.ops == Words(Types.LayoutOf(t, merge, remove)) && layout.initOps == IC.InitWords(InitLayoutOf(t))
    ensures ok ==> Balanced(layout.ops, 0, 0) && InitBalanced(layout.initOps, 0, 0)
  {
    layout := new MemoryLayout();
    var raw := new MemoryLayout();
    ok := Visit(t, pointers, opaques, raw);
    if ok {
      ghost var c, init := Types.Raw(t), RawInit(t);
      assert [] + Words(c) == Words(c) && [] + IC.InitWords(init) == IC.InitWords(init);
      ReadsWords(raw.ops, 0, c);
      var it;
      it, ok := O.SimplifyFrom(merge, remove, raw.ops, 0, 0, layout, c);
      if ok {
        var initOps;
        initOps, ok := SimplifyInit(raw.initOps, init);
        layout.initOps := initOps;
        WordsAreBalanced(Types.LayoutOf(t, merge, remove));
        InitWordsAreBalanced(InitLayoutOf(t));
      }
    }
  }

  /** What the visitor produced passes `validate` too. */
  lemma RawIsBalanced(t: Type)
    requires Ordered(t)
    ensures Balanced(Words(Types.Raw(t)), 0, 0) && InitBalanced(IC.InitWords(RawInit(t)), 0, 0)
  {
    WordsAreBalanced(Types.Raw(t));
    InitWordsAreBalanced(RawInit(t));
  }

  // ----- the types that are safe -----

  /** Every repeated block, at any depth, covers at least one byte. */
  ghost predicate InitSolid(env: Sizes, c: IC.Init) {
    match c
    case Stop => true
    case Data(_, next) => InitSolid(env, next)
    case Pass(_, next) => InitSolid(env, next)
    case Repeat(_, b, next) => IC.InitSpan(env, b) > 0 && InitSolid(env, b) && InitSolid(env, next)
    case Empty(_, next) => InitSolid(env, next)
  }

  lemma {:induction false} InitSolidNeverStumbles(env: Sizes, c: IC.Init, p: IC.Pending)
    requires InitSolid(env, c) && IC.Valid(p)
    ensures !IO.Stumbles(c, p)
    decreases c
  {
    if !c.Stop? {
      if c.Repeat? {
        InitSolidNeverStumbles(env, c.body, IC.Nothing);
        IC.SimplifiedKeeps(env, false, c.body, IC.Nothing, 0, IC.NoWrite);
      }
      InitSolidNeverStumbles(env, c.next, IC.After(c, p).pending);
    }
  }

  lemma {:induction false} RawInitIsSolid(env: Sizes, t: Type)
    requires Ordered(t) && Described(env, t) && NoEmptyElement(t)
    ensures InitSolid(env, RawInit(t))
    decreases t
  {
    match t
    case ArrayType(_, elem) => RawInitIsSolid(env, elem); RawInitIsExact(env, elem, 0, IC.NoWrite);
    case CompoundType(fields, size) => RawInitFieldsAreSolid(env, fields, 0, size);
    case _ =>
  }

  lemma {:induction false} RawInitFieldsAreSolid(env: Sizes, fs: Fields, at: nat, size: nat)
    requires OrderedFields(fs, at, size) && DescribedFields(env, fs) && NoEmptyElementIn(fs)
    ensures InitSolid(env, RawInitFields(fs, at, size))
    decreases fs
  {
    match fs
    case NoMore =>
    case FieldAt(_, offset, typ, rest) =>
      RawInitIsSolid(env, typ);
      RawInitFieldsAreSolid(env, rest, offset + Size(typ), size);
      InitSolidJoin(env, RawInit(typ), RawInitFields(rest, offset + Size(typ), size));
  }

  lemma {:induction false} InitSolidJoin(env: Sizes, a: IC.Init, b: IC.Init)
    requires InitSolid(env, a) && InitSolid(env, b)
    ensures InitSolid(env, IC.Join(a, b))
  {
    if !a.Stop? {
      InitSolidJoin(env, a.next, b);
    }
  }

  /** Types whose array elements cover at least a byte always get their layout. */
  lemma LayoutIsSafe(env: Sizes, t: Type, merge: bool)
    requires Ordered(t) && Described(env, t) && NoEmptyElement(t)
    ensures Safe(t, merge)
  {
    LayoutNeverStumbles(env, merge, t);
    RawInitIsSolid(env, t);
    InitSolidNeverStumbles(env, RawInit(t), IC.Nothing);
  }
}
