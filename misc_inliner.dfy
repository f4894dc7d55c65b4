/**
 * MiscInliner: inlines calls to forwarding wrappers, detected lazily and
 * memoised per method, and folds `new T()`, `Type.EmptyTypes.Length` and
 * `int.Parse` of literals inside each block.
 */
module MiscInliner {
  import opened IL
  import opened Inlining

  /**
   * `Detect`'s verdict on a method: a forwarder of two or more
   * instructions maps to its forwarded instruction; a parameterless static
   * method whose body is a lone `ret` maps to `nop`; nothing else maps.
   */
  function Detected(bodies: Bodies, m: MethodRef): Option<Inline> {
    if m !in bodies then None
    else
      var ins := bodies[m];
      if |ins| >= 2 then
        if IsForwarder(ins, ParamCount(m)) then Some(ForwardTarget(ins)) else None
      else if |ins| == 1 && ins[0].op == Ret && ParamCount(m) == 0 && m.isStatic then Some(Inline(Nop, NoOperand))
      else None
  }

  /**
   * A method maps only when its body ends in `ret` and holds one `ldarg`
   * per parameter before the forwarded instruction, or is a lone `ret` of a
   * parameterless static method, which maps to `nop`.
   */
  lemma DetectedShape(bodies: Bodies, m: MethodRef)
    ensures var r := Detected(bodies, m);
            r.Some? ==> m in bodies && |bodies[m]| >= 1 && bodies[m][|bodies[m]| - 1].op == Ret
    ensures var r := Detected(bodies, m);
            r.Some? ==> |bodies[m]| == ParamCount(m) + 2
                        || (|bodies[m]| == 1 && ParamCount(m) == 0 && m.isStatic && r.value == Inline(Nop, NoOperand))
  {
  }

  /** A wrapper of one or more parameters maps to what it forwards to, whatever its kind. */
  lemma DetectedWrapper(bodies: Bodies, m: MethodRef, ins: Instr)
    requires m in bodies && bodies[m] == ForwarderBody(ParamCount(m), ins)
    ensures Detected(bodies, m) == Some(Inline(ins.op, AsMemberRef(ins.operand)))
  {
    ForwarderRoundTrip(ParamCount(m), ins);
  }

  /**
   * A body of two or more instructions maps exactly when it is a
   * forwarder; an instance method never maps as an empty method, since
   * its parameters include the hidden `this`.
   */
  lemma DetectedCases(bodies: Bodies, m: MethodRef)
    requires m in bodies
    ensures |bodies[m]| >= 2 ==> (Detected(bodies, m).Some? <==> IsForwarder(bodies[m], ParamCount(m)))
    ensures |bodies[m]| < 2 && Detected(bodies, m).Some? ==> m.isStatic && Detected(bodies, m) == Some(Inline(Nop, NoOperand))
    ensures !m.isStatic && |bodies[m]| < 2 ==> Detected(bodies, m).None?
  {
  }

  /** The methods called in a block that `Detect` maps. */
  function CalledWrappers(bodies: Bodies, s: seq<Instr>): set<MethodRef> {
    set k | 0 <= k < |s| && s[k].op == Call && IsMethodDefOp(s[k].operand) && Detected(bodies, s[k].operand.m).Some?
      :: s[k].operand.m
  }

  /** The method one instruction calls, when `Detect` maps it. */
  function CalledWrapper(bodies: Bodies, ins: Instr): set<MethodRef> {
    if ins.op == Call && IsMethodDefOp(ins.operand) && Detected(bodies, ins.operand.m).Some? then {ins.operand.m} else {}
  }

  class MiscInliner {
    /** The bodies of the module's method definitions, which detection reads. */
    const bodies: Bodies
    /** `Map`: the memo of detected wrappers. */
    var wrappers: map<MethodRef, Inline>

    /** Every memoised entry is what `Detect` finds for its method. */
    ghost predicate Valid()
      reads this
    {
      forall m :: m in wrappers ==> Detected(bodies, m) == Some(wrappers[m])
    }

    /** The wrapper lookup the memo stands for. */
    function Lookup(): (r: MethodRef -> Option<Inline>)
      ensures forall m :: r(m) == Detected(bodies, m)
    {
      m => Detected(bodies, m)
    }

    constructor(bodies: Bodies)
      ensures this.bodies == bodies && wrappers == map[] && Valid()
    {
      this.bodies := bodies;
      wrappers := map[];
    }

    /** `Detect`: records the method's entry when it has one. */
    method Detect(m: MethodRef)
      requires m !in wrappers
      modifies this`wrappers
      ensures wrappers == if Detected(bodies, m).Some? then old(wrappers)[m := Detected(bodies, m).value] else old(wrappers)
    {
      if m !in bodies {
        return;
      }
      var ins := bodies[m];
      if |ins| >= 2 {
        if ins[|ins| - 1].op == Ret {
          var isForwarder := CheckForwarder(ins, ParamCount(m));
          if isForwarder {
            wrappers := wrappers[m := ForwardTarget(ins)];
          }
        }
      } else {
        if |ins| == 1 && ins[0].op == Ret && ParamCount(m) == 0 {
          if m.isStatic {
            wrappers := wrappers[m := Inline(Nop, NoOperand)];
          }
        }
      }
    }

    /**
     * `ShouldInline`: detection runs only for a method not yet in the
     * memo; the answer is the memo's entry, which is what `Detect` finds.
     */
    method ShouldInline(m: MethodRef) returns (r: Option<Inline>)
      requires Valid()
      modifies this`wrappers
      ensures Valid()
      ensures r == Detected(bodies, m)
      ensures wrappers == if m in old(wrappers) || Detected(bodies, m).None? then old(wrappers)
                     else old(wrappers)[m := Detected(bodies, m).value]
      ensures r.Some? <==> m in wrappers
      ensures r.Some? ==> wrappers[m] == r.value
    {
      if m !in wrappers {
        Detect(m);
      }
      if m in wrappers {
        return Some(wrappers[m]);
      }
      return None;
    }

    /**
     * The first loop of `Deobfuscate` over one block: each call of a
     * mapped method takes the entry's opcode and member in place.
     */
    method InlineCalls(b: Block) returns (changed: bool)
      requires Valid()
      modifies b, this`wrappers
      ensures Valid()
      ensures b.instrs == RewireAll(old(b.instrs), Lookup())
      ensures changed <==> AnyInlinable(old(b.instrs), Lookup())
      ensures wrappers.Keys == old(wrappers).Keys + CalledWrappers(bodies, old(b.instrs))
    {
      ghost var s0 := b.instrs;
      changed := false;
      var k := 0;
      while k < |b.instrs|
        invariant 0 <= k <= |b.instrs| == |s0|
        invariant Valid()
        invariant Progress(s0, b.instrs, k, changed)
        invariant wrappers.Keys == old(wrappers).Keys + CalledWrappers(bodies, s0[..k])
      {
        changed := InlineStep(b, k, s0, old(wrappers).Keys, changed);
        k := k + 1;
      }
      assert s0[..k] == s0;
      assert b.instrs == RewireAll(s0, Lookup());
    }

    /** `InlineCalls` after its first `k` instructions: those rewritten, the rest untouched. */
    ghost predicate Progress(s0: seq<Instr>, s: seq<Instr>, k: nat, changed: bool) {
      k <= |s| == |s0|
      && (forall j :: 0 <= j < k ==> s[j] == Rewired(s0[j], Lookup()))
      && (forall j :: k <= j < |s0| ==> s[j] == s0[j])
      && (changed <==> exists j :: 0 <= j < k && Inlinable(s0[j], Lookup()))
    }

    /** One round of that loop. */
    method InlineStep(b: Block, k: nat, ghost s0: seq<Instr>, ghost keys0: set<MethodRef>, changed: bool) returns (changed': bool)
      requires Valid() && k < |b.instrs| && Progress(s0, b.instrs, k, changed)
      requires wrappers.Keys == keys0 + CalledWrappers(bodies, s0[..k])
      modifies b, this`wrappers
      ensures Valid() && Progress(s0, b.instrs, k + 1, changed')
      ensures wrappers.Keys == keys0 + CalledWrappers(bodies, s0[..k + 1])
    {
      var fired := InlineAt(b, k);
      changed' := changed || fired;
      CalledWrappersStep(bodies, s0, k);
    }

    /** One instruction of that loop. */
    method InlineAt(b: Block, k: nat) returns (fired: bool)
      requires Valid() && k < |b.instrs|
      modifies b, this`wrappers
      ensures Valid()
      ensures b.instrs == old(b.instrs)[k := Rewired(old(b.instrs)[k], Lookup())]
      ensures fired <==> Inlinable(old(b.instrs)[k], Lookup())
      ensures wrappers.Keys == old(wrappers).Keys + CalledWrapper(bodies, old(b.instrs)[k])
    {
      var ins := b.instrs[k];
      fired := false;
      if ins.op == Call && IsMethodDefOp(ins.operand) {
        var entry := ShouldInline(ins.operand.m);
        if entry.Some? {
          fired := true;
          b.instrs := b.instrs[k := Instr(entry.value.op, entry.value.target)];
        }
      }
    }

    /** What one pass does to a block: the call rewrite, then the folds with the bounds check. */
    function Outcome(s: seq<Instr>, parse: string -> Result<Int32>): Result<Rewritten> {
      Processed(s, Lookup(), parse, MiscRules(true))
    }

    /** The body of `Deobfuscate`'s loop for one block. */
    method ProcessBlock(b: Block, parse: string -> Result<Int32>) returns (r: Result<bool>)
      requires Valid()
      modifies b, this`wrappers
      ensures Valid()
      ensures r.Ok? <==> Outcome(old(b.instrs), parse).Ok?
      ensures r.Ok? ==> b.instrs == Outcome(old(b.instrs), parse).value.instrs
                        && r.value == Outcome(old(b.instrs), parse).value.fired
      ensures r.Throws? ==> Outcome(old(b.instrs), parse) == Throws(r.error)
    {
      if |b.instrs| == 0 {
        return Ok(false);
      }
      var changed := InlineCalls(b);
      var folded := RunPeephole(b, parse, MiscRules(true));
      if folded.Throws? {
        return Throws(folded.error);
      }
      return Ok(changed || folded.value);
    }

    /**
     * A pass that failed at block `j`: the blocks before it ended as their
     * pass, the blocks after it kept their instructions.
     */
    predicate StoppedAt(olds: seq<seq<Instr>>, news: seq<seq<Instr>>, j: nat, parse: string -> Result<Int32>)
      requires |olds| == |news| && j < |olds|
    {
      (forall k :: 0 <= k < j ==> Outcome(olds[k], parse).Ok? && news[k] == Outcome(olds[k], parse).value.instrs)
      && forall k :: j < k < |olds| ==> news[k] == olds[k]
    }

    /** The loop's state when block `i` fails is a pass stopped at `i`. */
    lemma StoppedAfter(olds: seq<seq<Instr>>, news: seq<seq<Instr>>, outs: seq<Rewritten>, i: nat, parse: string -> Result<Int32>)
      requires |olds| == |news| && i < |olds| && |outs| == i
      requires forall j :: 0 <= j < i ==> Outcome(olds[j], parse) == Ok(outs[j]) && news[j] == outs[j].instrs
      requires forall j :: i < j < |olds| ==> news[j] == olds[j]
      ensures StoppedAt(olds, news, i, parse)
    {
    }

    /**
     * `Deobfuscate` over the method's blocks: each block in turn, the
     * result saying whether anything fired in any of them; the `new T()`
     * fold checks that its third instruction exists (see the findings).
     */
    method Deobfuscate(blocks: seq<Block>, parse: string -> Result<Int32>) returns (r: Result<bool>)
      requires Valid() && Distinct(blocks)
      modifies this`wrappers, blocks
      ensures Valid()
      ensures r.Ok? ==> forall j :: 0 <= j < |blocks| ==>
                Outcome(old(blocks[j].instrs), parse).Ok?
                && blocks[j].instrs == Outcome(old(blocks[j].instrs), parse).value.instrs
      ensures r.Ok? ==> (r.value <==> (exists j :: 0 <= j < |blocks| && Outcome(old(blocks[j].instrs), parse).value.fired))
      ensures r.Throws? ==> exists j :: 0 <= j < |blocks| && Outcome(old(blocks[j].instrs), parse) == Throws(r.error)
                                       && StoppedAt(old(InstrsOf(blocks)), InstrsOf(blocks), j, parse)
    {
      ghost var olds := InstrsOf(blocks);
      ghost var outs: seq<Rewritten> := [];
      var modified := false;
      var i := 0;
      while i < |blocks|
        invariant 0 <= i <= |blocks| && |outs| == i
        invariant Valid()
        invariant forall j :: 0 <= j < i ==> Outcome(olds[j], parse) == Ok(outs[j])
        invariant forall j :: 0 <= j < i ==> blocks[j].instrs == outs[j].instrs
        invariant forall j :: i <= j < |blocks| ==> blocks[j].instrs == olds[j]
        invariant modified == AnyFired(outs)
      {
        assert forall j :: 0 <= j < |blocks| && j != i ==> blocks[j] != blocks[i];
        var res := ProcessBlock(blocks[i], parse);
        if res.Throws? {
          assert Outcome(olds[i], parse) == Throws(res.error);
          assert olds == old(InstrsOf(blocks));
          StoppedAfter(olds, InstrsOf(blocks), outs, i, parse);
          assert Outcome(old(blocks[i].instrs), parse) == Throws(res.error) && StoppedAt(old(InstrsOf(blocks)), InstrsOf(blocks), i, parse);
          return Throws(res.error);
        }
        AnyFiredAppend(outs, Rewritten(blocks[i].instrs, res.value));
        outs := outs + [Rewritten(blocks[i].instrs, res.value)];
        modified := modified || res.value;
        i := i + 1;
      }
      AnyFiredExists(outs);
      return Ok(modified);
    }
  }


  /** Growing the scanned prefix by one instruction adds at most that instruction's method. */
  lemma CalledWrappersStep(bodies: Bodies, s: seq<Instr>, k: nat)
    requires k < |s|
    ensures CalledWrappers(bodies, s[..k + 1]) == CalledWrappers(bodies, s[..k]) + CalledWrapper(bodies, s[k])
  {
    var a, c := s[..k + 1], s[..k];
    assert forall j :: 0 <= j < k ==> a[j] == c[j];
    assert a[k] == s[k];
  }
}
