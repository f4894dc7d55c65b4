/**
 * What MiscInliner and MathInliner share: the shape of a forwarding
 * wrapper (`ldarg 0 … ldarg n-1; op; ret`), the rewrite of a call to such a
 * wrapper, the blocks they edit and the peephole pass over one block.
 */
module Inlining {
  import opened IL

  /** A map entry: the opcode and member that replace a call to a wrapper. */
  datatype Inline = Inline(op: OpCode, target: Operand)

  /** `operand as IMemberRef`: the operand itself for a member, otherwise null. */
  function AsMemberRef(o: Operand): (r: Operand)
    ensures IsMemberRefOp(o) ==> r == o
    ensures !IsMemberRefOp(o) ==> r == NoOperand
  {
    if IsMemberRefOp(o) then o else NoOperand
  }

  /**
   * A forwarding wrapper with `paramCount` parameters: `ret` last, and
   * before the single forwarded instruction exactly one ldarg per
   * parameter, in order.
   */
  predicate IsForwarder(body: seq<Instr>, paramCount: nat) {
    |body| >= 2 && body[|body| - 1].op == Ret && |body| - 2 == paramCount
    && forall j :: 0 <= j < |body| - 2 ==> IsLdarg(body[j]) && ParameterIndex(body[j]) == j
  }

  /** The entry a wrapper contributes: its forwarded instruction's opcode and member. */
  function ForwardTarget(body: seq<Instr>): Inline
    requires |body| >= 2
  {
    Inline(body[|body| - 2].op, AsMemberRef(body[|body| - 2].operand))
  }

  /** The wrapper of `n` parameters around one instruction. */
  function ForwarderBody(n: nat, ins: Instr): (r: seq<Instr>)
    ensures |r| == n + 2 && r[n] == ins && r[n + 1] == RetInstr
    ensures forall j :: 0 <= j < n ==> r[j] == Instr(Ldarg, ArgOp(j))
  {
    seq(n, j => Instr(Ldarg, ArgOp(j))) + [ins, RetInstr]
  }

  /**
   * A body is a forwarder exactly when it is the wrapper of its forwarded
   * instruction, up to the operand of its `ret`.
   */
  lemma ForwarderShape(body: seq<Instr>, n: nat)
    requires |body| == n + 2 && body[n + 1].op == Ret
    ensures IsForwarder(body, n) <==> body[..n + 1] == ForwarderBody(n, body[n])[..n + 1]
  {
    var w := ForwarderBody(n, body[n]);
    if IsForwarder(body, n) {
      var p, q := body[..n + 1], w[..n + 1];
      forall j | 0 <= j <= n
        ensures p[j] == q[j]
      {
        if j < n {
          assert IsLdarg(body[j]) && ParameterIndex(body[j]) == j;
          assert body[j] == Instr(Ldarg, ArgOp(j));
        }
      }
    }
    if body[..n + 1] == w[..n + 1] {
      forall j | 0 <= j < n
        ensures IsLdarg(body[j]) && ParameterIndex(body[j]) == j
      {
        assert body[j] == body[..n + 1][j] == w[..n + 1][j] == w[j];
      }
    }
  }

  /** A wrapper built around an instruction maps to that instruction's opcode and member. */
  lemma ForwarderRoundTrip(n: nat, ins: Instr)
    ensures IsForwarder(ForwarderBody(n, ins), n)
    ensures ForwardTarget(ForwarderBody(n, ins)) == Inline(ins.op, AsMemberRef(ins.operand))
  {
  }

  /**
   * The ldarg scan of both inliners over a body that ends in `ret`: a
   * flag loop that stops at the first ldarg out of place, then the
   * parameter-count comparison.
   */
  method CheckForwarder(body: seq<Instr>, paramCount: nat) returns (isForwarder: bool)
    requires |body| >= 2 && body[|body| - 1].op == Ret
    ensures isForwarder <==> IsForwarder(body, paramCount)
  {
    isForwarder := true;
    var i := 0;
    while i < |body| - 2
      invariant 0 <= i <= |body| - 2
      invariant forall j :: 0 <= j < i ==> IsLdarg(body[j]) && ParameterIndex(body[j]) == j
    {
      if !IsLdarg(body[i]) {
        isForwarder := false;
        break;
      }
      if ParameterIndex(body[i]) != i {
        isForwarder := false;
        break;
      }
      i := i + 1;
    }
    if |body| - 2 != paramCount {
      isForwarder := false;
    }
  }

  // ---- the call rewrite -----------------------------------------------------

  /** A call of a method definition that the lookup maps. */
  predicate Inlinable(ins: Instr, lookup: MethodRef -> Option<Inline>) {
    ins.op == Call && IsMethodDefOp(ins.operand) && lookup(ins.operand.m).Some?
  }

  /** The instruction after the call rewrite: a mapped call takes the entry's opcode and member. */
  function Rewired(ins: Instr, lookup: MethodRef -> Option<Inline>): (r: Instr)
    ensures !Inlinable(ins, lookup) ==> r == ins
    ensures Inlinable(ins, lookup) ==>
              r.op == lookup(ins.operand.m).value.op && r.operand == lookup(ins.operand.m).value.target
  {
    if Inlinable(ins, lookup) then
      var e := lookup(ins.operand.m).value;
      Instr(e.op, e.target)
    else ins
  }

  /** The call rewrite over a whole block. */
  function RewireAll(s: seq<Instr>, lookup: MethodRef -> Option<Inline>): (r: seq<Instr>)
    ensures |r| == |s|
  {
    seq(|s|, k requires 0 <= k < |s| => Rewired(s[k], lookup))
  }

  predicate AnyInlinable(s: seq<Instr>, lookup: MethodRef -> Option<Inline>) {
    exists k :: 0 <= k < |s| && Inlinable(s[k], lookup)
  }

  /** The rewrite changes a block exactly at its mapped calls and never adds or removes one. */
  lemma RewireAllChanges(s: seq<Instr>, lookup: MethodRef -> Option<Inline>, k: nat)
    requires k < |s|
    ensures |RewireAll(s, lookup)| == |s|
    ensures !Inlinable(s[k], lookup) ==> RewireAll(s, lookup)[k] == s[k]
    ensures Inlinable(s[k], lookup) ==> RewireAll(s, lookup)[k] == Instr(lookup(s[k].operand.m).value.op, lookup(s[k].operand.m).value.target)
  {
  }

  /** A basic block of de4dot's block graph, whose instruction list the passes edit in place. */
  class Block {
    var instrs: seq<Instr>

    constructor(s: seq<Instr>)
      ensures instrs == s
    {
      instrs := s;
    }
  }

  /** No block appears twice in the list. */
  predicate Distinct(blocks: seq<Block>) {
    forall i, j :: 0 <= i < j < |blocks| ==> blocks[i] != blocks[j]
  }

  /** The instructions of each block. */
  function InstrsOf(blocks: seq<Block>): (r: seq<seq<Instr>>)
    reads blocks
    ensures |r| == |blocks| && forall j :: 0 <= j < |blocks| ==> r[j] == blocks[j].instrs
  {
    seq(|blocks|, j requires 0 <= j < |blocks| reads blocks => blocks[j].instrs)
  }

  /** Some block's pass fired. */
  function AnyFired(outs: seq<Rewritten>): bool {
    |outs| > 0 && (outs[|outs| - 1].fired || AnyFired(outs[..|outs| - 1]))
  }

  lemma AnyFiredAppend(outs: seq<Rewritten>, w: Rewritten)
    ensures AnyFired(outs + [w]) == (AnyFired(outs) || w.fired)
  {
    assert (outs + [w])[..|outs|] == outs;
  }

  lemma {:induction false} AnyFiredExists(outs: seq<Rewritten>)
    ensures AnyFired(outs) <==> exists j :: 0 <= j < |outs| && outs[j].fired
  {
    if |outs| > 0 {
      var p := outs[..|outs| - 1];
      AnyFiredExists(p);
      assert forall j :: 0 <= j < |p| ==> p[j] == outs[j];
    }
  }

  // ---- the peephole pass ------------------------------------------------------

  /**
   * Which folds a pass applies. MiscInliner also turns `new T()` and
   * `Type.EmptyTypes.Length` into single instructions; `boundsChecked`
   * says whether its `new T()` match checks that a third instruction
   * exists. MathInliner only folds int.Parse.
   */
  datatype Rules = MiscRules(boundsChecked: bool) | MathRules

  /** The outcome of looking at position i: nothing, a replacement of s[i] with `removed` followers dropped, or an exception. */
  datatype Step = NoRewrite | Rewrite(ins: Instr, removed: nat) | Fault(error: Exception)

  /** `nins.Operand is MemberRef mr` with `mr` being `System.Int32::Parse`. */
  predicate IsInt32ParseRef(o: Operand) {
    o.MethodOp? && !o.m.isDef && o.m.name == Int32Parse
  }

  /** The `new T()` pattern's first two instructions: `ldtoken <TypeSpec>; call Type(RuntimeTypeHandle)`. */
  predicate TypeofPrefix(s: seq<Instr>, i: nat)
    requires i + 1 < |s|
  {
    s[i].op == Ldtoken && IsTypeSpecOp(s[i].operand)
    && s[i + 1].op == Call && OperandIsMethod(s[i + 1].operand, TypeClassSig, [TypeHandleSig])
  }

  /** The third instruction of `new T()`: `call Object(Type)`. */
  predicate ActivatorCall(ins: Instr) {
    ins.op == Call && OperandIsMethod(ins.operand, ObjectSig, [TypeClassSig])
  }

  /** The `.ctor` reference that replaces `Activator.CreateInstance(typeof(T))`. */
  function NewObjOf(t: TypeSig): Instr {
    Instr(Newobj, CtorOp(t, ContainsGenericParameter(t)))
  }

  /** `ldtoken <TypeSpec>; call Type(RuntimeTypeHandle); call Object(Type)` becomes one newobj. */
  function TypeofStep(s: seq<Instr>, i: nat, boundsChecked: bool): (r: Step)
    requires i + 1 < |s|
    ensures r.Rewrite? ==> r.removed == 2 && i + 3 <= |s| && r.ins.op == Newobj
    ensures r.Fault? ==> r.error == ArgumentOutOfRange && !boundsChecked
  {
    if TypeofPrefix(s, i) && (i + 2 < |s| || !boundsChecked) then
      if i + 2 >= |s| then Fault(ArgumentOutOfRange)
      else if ActivatorCall(s[i + 2]) then Rewrite(NewObjOf(s[i].operand.t), 2)
      else NoRewrite
    else NoRewrite
  }

  /** `ldsfld System.Type::EmptyTypes; ldlen` becomes `ldc.i4.0`, which keeps the field operand. */
  predicate EmptyTypesLength(s: seq<Instr>, i: nat)
    requires i + 1 < |s|
  {
    s[i].op == Ldsfld && s[i + 1].op == Ldlen && s[i].operand.FieldOp?
    && s[i].operand.f.declType.name == SystemType && s[i].operand.f.name == EmptyTypes
  }

  /**
   * `ldstr; call Int32::Parse` becomes `ldc.i4` of the parsed value.
   * `parse` is int.Parse with the exception it raises on bad text.
   */
  function ParseStep(s: seq<Instr>, i: nat, parse: string -> Result<Int32>): (r: Step)
    requires i + 1 < |s|
    ensures r.Rewrite? ==> r.removed == 1 && r.ins.op == LdcI4
    ensures r.Rewrite? <==> IsInt32ParseRef(s[i + 1].operand) && s[i].op == Ldstr && s[i].operand.StrOp? && parse(s[i].operand.s).Ok?
    ensures r.Rewrite? ==> LdcI4Value(r.ins) == parse(s[i].operand.s).value
  {
    if IsInt32ParseRef(s[i + 1].operand) && s[i].op == Ldstr then
      match s[i].operand
      case StrOp(text) =>
        (match parse(text)
         case Ok(v) => Rewrite(Instr(LdcI4, IntOp(v)), 1)
         case Throws(e) => Fault(e))
      case NoOperand => Fault(ArgumentNull)
      case _ => Fault(InvalidCast)
    else NoRewrite
  }

  /** The fold that fires at position i, tried in the order the pass tries them. */
  function StepAt(s: seq<Instr>, i: nat, parse: string -> Result<Int32>, rules: Rules): (r: Step)
    requires i + 1 < |s|
    ensures r.Rewrite? ==> 1 <= r.removed && i + 1 + r.removed <= |s|
    ensures r.Rewrite? ==> r.ins.op != Ldstr
  {
    match rules
    case MathRules => ParseStep(s, i, parse)
    case MiscRules(checked) =>
      var t := TypeofStep(s, i, checked);
      if !t.NoRewrite? then t
      else if EmptyTypesLength(s, i) then Rewrite(Instr(LdcI4, s[i].operand), 1)
      else ParseStep(s, i, parse)
  }

  /** A block after the pass, and whether any fold fired. */
  datatype Rewritten = Rewritten(instrs: seq<Instr>, fired: bool)

  /**
   * The pass from position i on: look at each position in turn; after a
   * fold the next position is the instruction that followed the dropped
   * ones, and the folded instruction is not looked at again.
   */
  function Peephole(s: seq<Instr>, i: nat, parse: string -> Result<Int32>, rules: Rules): Result<Rewritten>
    decreases |s| - i
  {
    if i + 1 >= |s| then Ok(Rewritten(s, false))
    else
      match StepAt(s, i, parse, rules)
      case NoRewrite => Peephole(s, i + 1, parse, rules)
      case Fault(e) => Throws(e)
      case Rewrite(x, k) =>
        match Peephole(s[..i] + [x] + s[i + 1 + k..], i + 1, parse, rules)
        case Ok(w) => Ok(Rewritten(w.instrs, true))
        case Throws(e) => Throws(e)
  }

  /** The pass never lengthens a block and reports a fold exactly when the block got shorter. */
  lemma {:induction false} PeepholeShrinks(s: seq<Instr>, i: nat, parse: string -> Result<Int32>, rules: Rules)
    ensures var r := Peephole(s, i, parse, rules);
            r.Ok? ==> |r.value.instrs| <= |s| && (r.value.fired <==> |r.value.instrs| < |s|)
    decreases |s| - i
  {
    if i + 1 < |s| {
      match StepAt(s, i, parse, rules)
      case NoRewrite =>
        PeepholeShrinks(s, i + 1, parse, rules);
      case Fault(e) =>
      case Rewrite(x, k) =>
        PeepholeShrinks(s[..i] + [x] + s[i + 1 + k..], i + 1, parse, rules);
    }
  }

  /** A fired result reported under an earlier fold too. */
  function OrFired(r: Result<Rewritten>, fired: bool): Result<Rewritten> {
    match r
    case Ok(w) => Ok(Rewritten(w.instrs, w.fired || fired))
    case Throws(e) => Throws(e)
  }

  /** One block under a whole pass: the call rewrite, then the folds; empty blocks are skipped. */
  function Processed(s: seq<Instr>, lookup: MethodRef -> Option<Inline>, parse: string -> Result<Int32>, rules: Rules): (r: Result<Rewritten>)
    ensures r.Ok? ==> |r.value.instrs| <= |s|
    ensures r.Ok? && !AnyInlinable(s, lookup) ==> (r.value.fired <==> |r.value.instrs| < |s|)
  {
    if |s| == 0 then Ok(Rewritten(s, false))
    else
      PeepholeShrinks(RewireAll(s, lookup), 0, parse, rules);
      OrFired(Peephole(RewireAll(s, lookup), 0, parse, rules), AnyInlinable(s, lookup))
  }

  /**
   * The peephole loop of both inliners over one block: the index moves on
   * after every position, a fold replaces the instruction at i and removes
   * its followers from the block.
   */
  method RunPeephole(b: Block, parse: string -> Result<Int32>, rules: Rules) returns (r: Result<bool>)
    modifies b
    ensures r.Ok? <==> Peephole(old(b.instrs), 0, parse, rules).Ok?
    ensures r.Ok? ==> b.instrs == Peephole(old(b.instrs), 0, parse, rules).value.instrs
                      && r.value == Peephole(old(b.instrs), 0, parse, rules).value.fired
    ensures r.Throws? ==> r.error == Peephole(old(b.instrs), 0, parse, rules).error
  {
    var s := b.instrs;
    var modified := false;
    var i := 0;
    while i + 1 < |s|
      invariant OrFired(Peephole(s, i, parse, rules), modified) == OrFired(Peephole(old(b.instrs), 0, parse, rules), false)
      decreases |s| - i
    {
      var step := StepAt(s, i, parse, rules);
      PeepholeAdvance(s, i, parse, rules, modified);
      if step.Fault? {
        b.instrs := s;
        return Throws(step.error);
      }
      if step.Rewrite? {
        modified := true;
      }
      s := Advanced(s, i, step);
      i := i + 1;
    }
    assert Peephole(s, i, parse, rules) == Ok(Rewritten(s, false));
    b.instrs := s;
    return Ok(modified);
  }

  /** The block once the step at position i is applied. */
  function Advanced(s: seq<Instr>, i: nat, step: Step): (r: seq<Instr>)
    requires i + 1 < |s|
    requires step.Rewrite? ==> 1 <= step.removed && i + 1 + step.removed <= |s|
    ensures |r| <= |s|
  {
    if step.Rewrite? then s[..i] + [step.ins] + s[i + 1 + step.removed..] else s
  }

  /** One position of the loop of `RunPeephole` in terms of the pass. */
  lemma PeepholeAdvance(s: seq<Instr>, i: nat, parse: string -> Result<Int32>, rules: Rules, modified: bool)
    requires i + 1 < |s|
    ensures var step := StepAt(s, i, parse, rules);
            step.Fault? ==> OrFired(Peephole(s, i, parse, rules), modified) == Throws(step.error)
    ensures var step := StepAt(s, i, parse, rules);
            !step.Fault? ==> OrFired(Peephole(s, i, parse, rules), modified)
                             == OrFired(Peephole(Advanced(s, i, step), i + 1, parse, rules), modified || step.Rewrite?)
  {
    PeepholeUnfold(s, i, parse, rules);
    var step := StepAt(s, i, parse, rules);
    if step.Rewrite? {
      OrFiredTwice(Peephole(Advanced(s, i, step), i + 1, parse, rules), true, modified);
    }
  }

  lemma OrFiredTwice(r: Result<Rewritten>, a: bool, b: bool)
    ensures OrFired(OrFired(r, a), b) == OrFired(r, a || b)
  {
  }

  /** One position of the pass: what Peephole does at i in terms of the rest of the pass. */
  lemma PeepholeUnfold(s: seq<Instr>, i: nat, parse: string -> Result<Int32>, rules: Rules)
    requires i + 1 < |s|
    ensures StepAt(s, i, parse, rules).NoRewrite? ==> Peephole(s, i, parse, rules) == Peephole(s, i + 1, parse, rules)
    ensures StepAt(s, i, parse, rules).Fault? ==> Peephole(s, i, parse, rules) == Throws(StepAt(s, i, parse, rules).error)
    ensures StepAt(s, i, parse, rules).Rewrite? ==>
              var st := StepAt(s, i, parse, rules);
              Peephole(s, i, parse, rules)
              == OrFired(Peephole(s[..i] + [st.ins] + s[i + 1 + st.removed..], i + 1, parse, rules), true)
  {
  }

  // ---- the folds as the pass applies them -------------------------------------

  /** `Type.EmptyTypes.Length` becomes a zero constant and the block loses exactly one instruction. */
  lemma EmptyTypesFold(s: seq<Instr>, i: nat, parse: string -> Result<Int32>, checked: bool)
    requires i + 1 < |s| && EmptyTypesLength(s, i) && !TypeofPrefix(s, i)
    ensures Peephole(s, i, parse, MiscRules(checked))
            == OrFired(Peephole(s[..i] + [Instr(LdcI4, s[i].operand)] + s[i + 2..], i + 1, parse, MiscRules(checked)), true)
    ensures LdcI4Value(Instr(LdcI4, s[i].operand)) == 0
    ensures |s[..i] + [Instr(LdcI4, s[i].operand)] + s[i + 2..]| == |s| - 1
  {
  }

  /** `Activator.CreateInstance(typeof(T))` becomes one newobj and the block loses exactly two instructions. */
  lemma TypeofFold(s: seq<Instr>, i: nat, parse: string -> Result<Int32>, checked: bool)
    requires i + 2 < |s| && TypeofPrefix(s, i) && ActivatorCall(s[i + 2])
    ensures Peephole(s, i, parse, MiscRules(checked))
            == OrFired(Peephole(s[..i] + [NewObjOf(s[i].operand.t)] + s[i + 3..], i + 1, parse, MiscRules(checked)), true)
    ensures |s[..i] + [NewObjOf(s[i].operand.t)] + s[i + 3..]| == |s| - 2
  {
  }

  /** `int.Parse` of a literal becomes that constant and the block loses exactly one instruction. */
  lemma ParseFold(s: seq<Instr>, i: nat, parse: string -> Result<Int32>, rules: Rules)
    requires i + 1 < |s| && IsInt32ParseRef(s[i + 1].operand) && s[i].op == Ldstr && s[i].operand.StrOp?
    requires parse(s[i].operand.s).Ok?
    ensures Peephole(s, i, parse, rules)
            == OrFired(Peephole(s[..i] + [Instr(LdcI4, IntOp(parse(s[i].operand.s).value))] + s[i + 2..], i + 1, parse, rules), true)
  {
    var v := parse(s[i].operand.s).value;
    assert ParseStep(s, i, parse) == Rewrite(Instr(LdcI4, IntOp(v)), 1);
    assert StepAt(s, i, parse, rules) == Rewrite(Instr(LdcI4, IntOp(v)), 1);
  }

  // ---- the missing bounds check of the `new T()` match -------------------------

  /** Every ldstr of the block carries text that int.Parse accepts. */
  predicate StringsParse(s: seq<Instr>, parse: string -> Result<Int32>) {
    forall k :: 0 <= k < |s| && s[k].op == Ldstr ==> s[k].operand.StrOp? && parse(s[k].operand.s).Ok?
  }

  /**
   * As written, a block ending in `ldtoken <TypeSpec>; call Type(RuntimeTypeHandle)`
   * makes the match read a third instruction that is not there.
   */
  lemma TrailingTypeofThrows(t: TypeSig, h: MethodRef, parse: string -> Result<Int32>)
    requires !t.ClassSig? && !t.ValueTypeSig? && !t.CorLib? && IsMethod(h, TypeClassSig, [TypeHandleSig])
    ensures Peephole([Instr(Ldtoken, TypeOp(t)), Instr(Call, MethodOp(h))], 0, parse, MiscRules(false))
            == Throws(ArgumentOutOfRange)
    ensures Peephole([Instr(Ldtoken, TypeOp(t)), Instr(Call, MethodOp(h))], 0, parse, MiscRules(true)).Ok?
  {
    var s := [Instr(Ldtoken, TypeOp(t)), Instr(Call, MethodOp(h))];
    assert TypeofPrefix(s, 0);
    assert TypeofStep(s, 0, false) == Fault(ArgumentOutOfRange);
  }

  /** With the bounds check, the pass raises nothing but the exceptions of int.Parse. */
  lemma {:induction false} CheckedPeepholeTotal(s: seq<Instr>, i: nat, parse: string -> Result<Int32>)
    requires StringsParse(s, parse)
    ensures Peephole(s, i, parse, MiscRules(true)).Ok?
    decreases |s| - i
  {
    if i + 1 < |s| {
      CheckedStepNoFault(s, i, parse);
      var step := StepAt(s, i, parse, MiscRules(true));
      PeepholeAdvance(s, i, parse, MiscRules(true), false);
      var t := Advanced(s, i, step);
      if step.Rewrite? {
        SpliceParses(s, i, step.ins, step.removed, parse);
      }
      CheckedPeepholeTotal(t, i + 1, parse);
    }
  }

  /** Replacing s[i] and dropping followers keeps every other ldstr parsable; the new instruction is no ldstr. */
  lemma SpliceParses(s: seq<Instr>, i: nat, x: Instr, k: nat, parse: string -> Result<Int32>)
    requires i + 1 + k <= |s| && StringsParse(s, parse) && x.op != Ldstr
    ensures StringsParse(s[..i] + [x] + s[i + 1 + k..], parse)
  {
    var t := s[..i] + [x] + s[i + 1 + k..];
    forall j | 0 <= j < |t| && t[j].op == Ldstr
      ensures t[j].operand.StrOp? && parse(t[j].operand.s).Ok?
    {
      if j < i {
        assert t[j] == s[j];
      } else if j > i {
        assert t[j] == s[j + k];
      }
    }
  }

  /** With the bounds check and parsable strings, no single position raises. */
  lemma CheckedStepNoFault(s: seq<Instr>, i: nat, parse: string -> Result<Int32>)
    requires i + 1 < |s| && StringsParse(s, parse)
    ensures !StepAt(s, i, parse, MiscRules(true)).Fault?
  {
  }
}
