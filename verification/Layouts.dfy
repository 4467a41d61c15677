/** The layout object: two word vectors that the visitor and the optimiser extend in place. */
module Layouts {
  import opened Bytecode

  // The initialisation program reuses the numbers of the main one.
  const INIT: nat := 0
  const INIT_REPEAT: nat := 1
  const INIT_CONTAINER: nat := CONTAINER
  const INIT_SKIP: nat := SKIP
  const INIT_END: nat := END

  class MemoryLayout {
    var ops: seq<nat>
    var initOps: seq<nat>

    constructor ()
      ensures ops == [] && initOps == []
    {
      ops, initOps := [], [];
    }

    method PushGenericOp(op: nat, arg: nat)
      modifies this`ops
      ensures ops == old(ops) + [op, arg]
    {
      ops := ops + [op, arg];
    }

    method PushEnd()
      modifies this`ops
      ensures ops == old(ops) + [END]
    {
      ops := ops + [END];
    }

    /** `ops.resize(size)`, used by the optimiser to take words back. */
    method Truncate(size: nat)
      requires size <= |ops|
      modifies this`ops
      ensures ops == old(ops)[..size]
    {
      ops := ops[..size];
    }

    method PushInitGenericOp(op: nat, arg: nat)
      modifies this`initOps
      ensures initOps == old(initOps) + [op, arg]
    {
      initOps := initOps + [op, arg];
    }

    method PushInitSkip(size: nat)
      modifies this`initOps
      ensures initOps == old(initOps) + [INIT_SKIP, size]
    {
      PushInitGenericOp(INIT_SKIP, size);
    }

    method PushInit(data: seq<nat>)
      modifies this`initOps
      ensures initOps == old(initOps) + [INIT, |data|] + data
    {
      PushInitGenericOp(INIT, |data|);
      initOps := initOps + data;
    }

    method PushInitEnd()
      modifies this`initOps
      ensures initOps == old(initOps) + [INIT_END]
    {
      initOps := initOps + [INIT_END];
    }

    method TruncateInit(size: nat)
      requires size <= |initOps|
      modifies this`initOps
      ensures initOps == old(initOps)[..size]
    {
      initOps := initOps[..size];
    }

    /** Refuses, after writing the MEMCPY, initialisation data of another length than the data itself. */
    method PushMemcpy(size: nat, initData: seq<nat>) returns (ok: bool)
      modifies this
      ensures ok <==> initData == [] || |initData| == size
      ensures ops == old(ops) + [MEMCPY, size]
      ensures initOps == old(initOps)
                         + (if initData == [] then [INIT_SKIP, size] else if ok then [INIT, size] + initData else [])
    {
      ops := ops + [MEMCPY, size];
      ok := true;
      if initData == [] {
        PushInitSkip(size);
      } else if size != |initData| {
        ok := false;
      } else {
        PushInit(initData);
      }
    }

    method PushSkip(size: nat)
      modifies this
      ensures ops == old(ops) + [SKIP, size]
      ensures initOps == old(initOps) + [INIT_SKIP, size]
    {
      ops := ops + [SKIP, size];
      PushInitSkip(size);
    }

    method PushArray(dimension: nat, body: MemoryLayout)
      requires body != this
      modifies this
      ensures ops == old(ops) + [ARRAY, dimension] + body.ops + [END]
      ensures initOps == old(initOps) + [INIT_REPEAT, dimension] + body.initOps + [INIT_END]
    {
      ops := ops + [ARRAY, dimension] + body.ops + [END];
      PushInitGenericOp(INIT_REPEAT, dimension);
      initOps := initOps + body.initOps;
      PushInitEnd();
    }

    method PushContainer(handle: nat, body: MemoryLayout)
      requires body != this
      modifies this
      ensures ops == old(ops) + [CONTAINER, handle] + body.ops + [END]
      ensures initOps == old(initOps) + [INIT_CONTAINER, handle]
    {
      ops := ops + [CONTAINER, handle] + body.ops + [END];
      PushInitGenericOp(INIT_CONTAINER, handle);
    }
  }
}
