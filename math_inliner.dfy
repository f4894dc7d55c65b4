/**
 * MathInliner: collects every forwarding wrapper of the module up front,
 * then inlines calls to them and folds `int.Parse` of literals inside
 * each block.
 */
module MathInliner {
  import opened IL
  import opened Inlining

  /**
   * The map the constructor builds from the module's methods: exactly the
   * forwarders, each to its forwarded instruction; methods without a body,
   * shorter than two instructions or not ending in `ret` never appear.
   */
  function Wrappers(methods: seq<MethodRef>, bodies: Bodies): (r: map<MethodRef, Inline>)
    ensures forall m :: m in r <==> m in methods && m in bodies && IsForwarder(bodies[m], ParamCount(m))
    ensures forall m :: m in r ==> m in bodies && IsForwarder(bodies[m], ParamCount(m)) && r[m] == ForwardTarget(bodies[m])
    decreases |methods|
  {
    if |methods| == 0 then map[]
    else
      var m := methods[|methods| - 1];
      var p := methods[..|methods| - 1];
      assert forall x :: x in methods <==> x in p || x == m;
      var r := Wrappers(p, bodies);
      if m in bodies && IsForwarder(bodies[m], ParamCount(m)) then r[m := ForwardTarget(bodies[m])] else r
  }

  /** No method body shorter than two instructions or not ending in `ret` is ever mapped. */
  lemma WrappersExclude(methods: seq<MethodRef>, bodies: Bodies, m: MethodRef)
    requires m !in bodies || |bodies[m]| < 2 || bodies[m][|bodies[m]| - 1].op != Ret
    ensures m !in Wrappers(methods, bodies)
  {
  }

  /** The constructor's test of one method: a body of two or more instructions ending in `ret` that forwards. */
  method IsForwarderMethod(m: MethodRef, bodies: Bodies) returns (isForwarder: bool)
    ensures isForwarder <==> m in bodies && IsForwarder(bodies[m], ParamCount(m))
  {
    isForwarder := false;
    if m in bodies {
      var ins := bodies[m];
      if |ins| >= 2 {
        if ins[|ins| - 1].op == Ret {
          isForwarder := CheckForwarder(ins, ParamCount(m));
        }
      }
    }
  }

  class MathInliner {
    const bodies: Bodies
    /** `Map`: the forwarders found by the constructor. */
    var wrappers: map<MethodRef, Inline>

    /**
     * The constructor's loop over every method of every type, each of
     * which appears once (a second `Map.Add` of one method would throw).
     */
    constructor(methods: seq<MethodRef>, bodies: Bodies)
      requires forall i, j :: 0 <= i < j < |methods| ==> methods[i] != methods[j]
      ensures this.bodies == bodies && wrappers == Wrappers(methods, bodies)
    {
      this.bodies := bodies;
      wrappers := map[];
      new;
      var k := 0;
      while k < |methods|
        invariant 0 <= k <= |methods|
        invariant wrappers == Wrappers(methods[..k], bodies)
      {
        var m := methods[k];
        var isForwarder := IsForwarderMethod(m, bodies);
        if isForwarder {
          wrappers := wrappers[m := ForwardTarget(bodies[m])];
        }
        assert methods[..k + 1][..k] == methods[..k];
        k := k + 1;
      }
      assert methods[..k] == methods;
    }

    /** The wrapper lookup of the map. */
    function Lookup(): (r: MethodRef -> Option<Inline>)
      reads this
      ensures forall m :: r(m) == if m in wrappers then Some(wrappers[m]) else None
    {
      var w := wrappers;
      m => if m in w then Some(w[m]) else None
    }

    /** The first loop of `Deobfuscate` over one block: each call of a mapped method takes its entry in place. */
    method InlineCalls(b: Block) returns (changed: bool)
      modifies b
      ensures b.instrs == RewireAll(old(b.instrs), Lookup())
      ensures changed <==> AnyInlinable(old(b.instrs), Lookup())
    {
      ghost var s0 := b.instrs;
      changed := false;
      var k := 0;
      while k < |b.instrs|
        invariant 0 <= k <= |b.instrs| == |s0|
        invariant forall j :: 0 <= j < k ==> b.instrs[j] == Rewired(s0[j], Lookup())
        invariant forall j :: k <= j < |s0| ==> b.instrs[j] == s0[j]
        invariant changed <==> exists j :: 0 <= j < k && Inlinable(s0[j], Lookup())
      {
        var ins := b.instrs[k];
        if ins.op == Call && IsMethodDefOp(ins.operand) && ins.operand.m in wrappers {
          var entry := wrappers[ins.operand.m];
          changed := true;
          b.instrs := b.instrs[k := Instr(entry.op, entry.target)];
        }
        k := k + 1;
      }
      assert b.instrs == RewireAll(s0, Lookup());
    }

    /** What one pass does to a block: the call rewrite, then the int.Parse folds. */
    function Outcome(s: seq<Instr>, parse: string -> Result<Int32>): Result<Rewritten>
      reads this
    {
      Processed(s, Lookup(), parse, MathRules)
    }

    /** The body of `Deobfuscate`'s loop for one block. */
    method ProcessBlock(b: Block, parse: string -> Result<Int32>) returns (r: Result<bool>)
      modifies b
      ensures r.Ok? <==> Outcome(old(b.instrs), parse).Ok?
      ensures r.Ok? ==> b.instrs == Outcome(old(b.instrs), parse).value.instrs
                        && r.value == Outcome(old(b.instrs), parse).value.fired
      ensures r.Throws? ==> Outcome(old(b.instrs), parse) == Throws(r.error)
    {
      if |b.instrs| == 0 {
        return Ok(false);
      }
      var changed := InlineCalls(b);
      var folded := RunPeephole(b, parse, MathRules);
      if folded.Throws? {
        return Throws(folded.error);
      }
      return Ok(changed || folded.value);
    }

    /**
     * A pass that failed at block `j`: the blocks before it ended as their
     * pass, the blocks after it kept their instructions.
     */
    predicate StoppedAt(olds: seq<seq<Instr>>, news: seq<seq<Instr>>, j: nat, parse: string -> Result<Int32>)
      requires |olds| == |news| && j < |olds|
      reads this
    {
      (forall k :: 0 <= k < j ==> Outcome(olds[k], parse).Ok? && news[k] == Outcome(olds[k], parse).value.instrs)
      && forall k :: j < k < |olds| ==> news[k] == olds[k]
    }

    /**
     * `Deobfuscate` over the method's blocks: each block in turn, the
     * result saying whether any call rewrite or fold fired.
     */
    method Deobfuscate(blocks: seq<Block>, parse: string -> Result<Int32>) returns (r: Result<bool>)
      requires Distinct(blocks)
      modifies blocks
      ensures r.Ok? ==> forall j :: 0 <= j < |blocks| ==>
                Outcome(old(blocks[j].instrs), parse).Ok?
                && blocks[j].instrs == Outcome(old(blocks[j].instrs), parse).value.instrs
      ensures r.Ok? ==> (r.value <==> (exists j :: 0 <= j < |blocks| && Outcome(old(blocks[j].instrs), parse).value.fired))
      ensures r.Throws? ==> exists j :: 0 <= j < |blocks| && Outcome(old(blocks[j].instrs), parse) == Throws(r.error)
                                       && StoppedAt(old(InstrsOf(blocks)), InstrsOf(blocks), j, parse)
    {
      ghost var olds := InstrsOf(blocks);
      ghost var outs: seq<Rewritten> := [];
      var modified := false;
      var i := 0;
      while i < |blocks|
        invariant 0 <= i <= |blocks| && |outs| == i
        invariant forall j :: 0 <= j < i ==> Outcome(olds[j], parse) == Ok(outs[j])
        invariant forall j :: 0 <= j < i ==> blocks[j].instrs == outs[j].instrs
        invariant forall j :: i <= j < |blocks| ==> blocks[j].instrs == olds[j]
        invariant modified == AnyFired(outs)
      {
        assert forall j :: 0 <= j < |blocks| && j != i ==> blocks[j] != blocks[i];
        var res := ProcessBlock(blocks[i], parse);
        if res.Throws? {
          assert Outcome(olds[i], parse) == Throws(res.error);
          assert StoppedAt(olds, InstrsOf(blocks), i, parse);
          return Throws(res.error);
        }
        AnyFiredAppend(outs, Rewritten(blocks[i].instrs, res.value));
        outs := outs + [Rewritten(blocks[i].instrs, res.value)];
        modified := modified || res.value;
        i := i + 1;
      }
      AnyFiredExists(outs);
      return Ok(modified);
    }
  }
}
