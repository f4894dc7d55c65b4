/**
 * ConstantsDecrypter: finds the ConfuserEx constants initialiser in the
 * module constructor (or a method it calls), cuts the initialiser down to
 * the part that decrypts the embedded array, recognises the generic
 * decryptor methods of the global type and dispatches a call site to the
 * decoder for its generic argument.
 */
module ConstantsDecrypter {
  import opened IL
  import opened ConstantDecrypterBase

  // ---- the initialiser recogniser -------------------------------------------

  /** The two adjacent pairs `IsStringDecrypterInit` looks for. */
  datatype PairKind =
    | ArrayInit    // ldtoken <FieldDef>; call void(Array, RuntimeFieldHandle)
    | Decompress   // call byte[](byte[]); stsfld <FieldDef of <Module>>

  predicate IsPair(kind: PairKind, ins: Instr, next: Instr) {
    match kind
    case ArrayInit =>
      ins.op == Ldtoken && next.op == Call && IsFieldDefOp(ins.operand)
      && OperandIsMethod(next.operand, VoidSig, [ArrayClassSig, FieldHandleSig])
    case Decompress =>
      ins.op == Call && next.op == Stsfld && OperandIsMethod(ins.operand, ByteArraySig, [ByteArraySig])
      && IsFieldDefOp(next.operand) && next.operand.f.declType.name == ModuleType
  }

  /** The field a pair names: the ldtoken operand, or the stsfld operand. */
  function PairField(kind: PairKind, ins: Instr, next: Instr): FieldRef
    requires IsPair(kind, ins, next)
  {
    if kind == ArrayInit then ins.operand.f else next.operand.f
  }

  /** The field of the last pair of `kind` starting before `upto`: the value the scan leaves in its out-variable. */
  function LastPairField(body: seq<Instr>, kind: PairKind, upto: nat): Option<FieldRef>
    requires upto < |body|
  {
    if upto == 0 then None
    else if IsPair(kind, body[upto - 1], body[upto]) then Some(PairField(kind, body[upto - 1], body[upto]))
    else LastPairField(body, kind, upto - 1)
  }

  /** No pair of `kind` starts at a position in `[from, upto)`. */
  predicate NoPairIn(body: seq<Instr>, kind: PairKind, from: nat, upto: nat)
    requires upto < |body|
  {
    forall j :: from <= j < upto ==> !IsPair(kind, body[j], body[j + 1])
  }

  /** The out-variable is unset iff no pair starts before `upto`. */
  lemma {:induction false} LastPairFieldNone(body: seq<Instr>, kind: PairKind, upto: nat)
    requires upto < |body|
    ensures LastPairField(body, kind, upto).None? <==> NoPairIn(body, kind, 0, upto)
  {
    if upto > 0 && !IsPair(kind, body[upto - 1], body[upto]) {
      LastPairFieldNone(body, kind, upto - 1);
    }
  }

  /** A pair after which no other pair starts before `upto` is the one whose field the out-variable holds. */
  lemma {:induction false} LastPairFieldIsLast(body: seq<Instr>, kind: PairKind, i: nat, upto: nat)
    requires i < upto < |body| && IsPair(kind, body[i], body[i + 1]) && NoPairIn(body, kind, i + 1, upto)
    ensures LastPairField(body, kind, upto) == Some(PairField(kind, body[i], body[i + 1]))
  {
    if upto > i + 1 {
      assert !IsPair(kind, body[upto - 1], body[upto]);
      LastPairFieldIsLast(body, kind, i, upto - 1);
    }
  }

  /**
   * `IsStringDecrypterInit`: a body of at least 15 instructions is an
   * initialiser iff it holds both pairs; each out-field is the field of
   * the LAST pair of its kind, since the scan never stops early.
   */
  method IsStringDecrypterInit(body: seq<Instr>) returns (found: bool, aField: Option<FieldRef>, dField: Option<FieldRef>)
    ensures |body| < 15 ==> !found && aField.None? && dField.None?
    ensures |body| >= 15 ==> aField == LastPairField(body, ArrayInit, |body| - 1)
    ensures |body| >= 15 ==> dField == LastPairField(body, Decompress, |body| - 1)
    ensures found <==> aField.Some? && dField.Some?
  {
    aField := None;
    dField := None;
    if |body| < 15 {
      return false, aField, dField;
    }
    var i := 0;
    while i < |body| - 1
      invariant 0 <= i <= |body| - 1
      invariant aField == LastPairField(body, ArrayInit, i)
      invariant dField == LastPairField(body, Decompress, i)
    {
      if IsPair(ArrayInit, body[i], body[i + 1]) {
        aField := Some(PairField(ArrayInit, body[i], body[i + 1]));
      }
      if IsPair(Decompress, body[i], body[i + 1]) {
        dField := Some(PairField(Decompress, body[i], body[i + 1]));
      }
      i := i + 1;
    }
    found := aField.Some? && dField.Some?;
  }

  // ---- the IL surgery on the cloned initialiser ---------------------------------

  /** `ldc.i4; newarr; dup; ldtoken; call` starting at `i`: the default array of the initialiser. */
  predicate IsInitWindow(body: seq<Instr>, i: nat)
    requires i + 5 <= |body|
  {
    IsLdcI4(body[i]) && body[i + 1].op == Newarr && body[i + 2].op == Dup
    && body[i + 3].op == Ldtoken && body[i + 4].op == Call
  }

  /** The first window at or after `from`; the search stops before `|body| - 5`, or -1. */
  function FirstInitWindow(body: seq<Instr>, from: nat): (r: int)
    decreases |body| - from
    ensures r == -1 || (from <= r && r + 5 < |body| && IsInitWindow(body, r))
  {
    if from + 5 >= |body| then -1
    else if IsInitWindow(body, from) then from
    else FirstInitWindow(body, from + 1)
  }
  /** No match starts from `from` on before the answer, nor anywhere from `from` on when the answer is -1. */
  lemma {:induction false} FirstInitWindowIsFirst(body: seq<Instr>, from: nat, j: nat)
    requires from <= j && j + 5 < |body|
    requires FirstInitWindow(body, from) == -1 || j < FirstInitWindow(body, from)
    ensures !IsInitWindow(body, j)
    decreases |body| - from
  {
    if j > from {
      FirstInitWindowIsFirst(body, from + 1, j);
    }
  }


  /** `call; stsfld`: the store of the decompressed array. */
  predicate IsStorePair(body: seq<Instr>, i: nat)
    requires i + 1 < |body|
  {
    body[i].op == Call && body[i + 1].op == Stsfld
  }

  /** The first store pair at or after `from`, or -1. */
  function FirstStorePair(body: seq<Instr>, from: nat): (r: int)
    decreases |body| - from
    ensures r == -1 || (from <= r && r + 1 < |body| && IsStorePair(body, r))
  {
    if from + 1 >= |body| then -1
    else if IsStorePair(body, from) then from
    else FirstStorePair(body, from + 1)
  }
  /** No match starts from `from` on before the answer, nor anywhere from `from` on when the answer is -1. */
  lemma {:induction false} FirstStorePairIsFirst(body: seq<Instr>, from: nat, j: nat)
    requires from <= j && j + 1 < |body|
    requires FirstStorePair(body, from) == -1 || j < FirstStorePair(body, from)
    ensures !IsStorePair(body, j)
    decreases |body| - from
  {
    if j > from {
      FirstStorePairIsFirst(body, from + 1, j);
    }
  }


  /** The strip loop: drop instructions up to the first ldc.i4. */
  function StripToLdc(s: seq<Instr>): (r: seq<Instr>)
    ensures r == [] || IsLdcI4(r[0])
    ensures |r| <= |s| && r == s[|s| - |r|..]
    ensures forall j :: 0 <= j < |s| - |r| ==> !IsLdcI4(s[j])
  {
    if s == [] || IsLdcI4(s[0]) then s else StripToLdc(s[1..])
  }

  /**
   * The store pair lies either before the window or at or after its last
   * instruction: the first four instructions of the window are no call.
   */
  lemma StoreNotInsideWindow(body: seq<Instr>, s: nat, e: nat)
    requires s + 5 <= |body| && IsInitWindow(body, s)
    requires e + 1 < |body| && IsStorePair(body, e)
    ensures e < s || e >= s + 4
  {
  }

  /**
   * The initialiser after the surgery. When the first window `s` and the
   * first store pair `e` are both found at positions above zero, the pair
   * becomes `ret`, everything after it goes and the window becomes
   * `ldarg.0`; a pair before the window makes `RemoveAt` fail, and a pair
   * right at the window's call loses the inserted `ret` with the window.
   * Then the leading instructions up to the first ldc.i4 are stripped.
   */
  function Patched(body: seq<Instr>): (r: Result<seq<Instr>>)
    ensures r.Ok? ==> r.value == [] || IsLdcI4(r.value[0])
  {
    Surgery(body, FirstInitWindow(body, 0), FirstStorePair(body, 0))
  }

  /** The surgery for a window found at `s` and a store pair found at `e` (-1 when absent). */
  function Surgery(body: seq<Instr>, s: int, e: int): (r: Result<seq<Instr>>)
    requires s == -1 || (0 <= s && s + 5 < |body| && IsInitWindow(body, s))
    requires e == -1 || (0 <= e && e + 1 < |body| && IsStorePair(body, e))
    ensures r.Ok? ==> r.value == [] || IsLdcI4(r.value[0])
  {
    if s > 0 && e > 0 then
      if e < s then Throws(ArgumentOutOfRange)
      else if e == s + 4 then Ok(StripToLdc(body[..s] + [LdargZero]))
      else
        StoreNotInsideWindow(body, s, e);
        Ok(StripToLdc(body[..s] + [LdargZero] + body[s + 5..e] + [RetInstr]))
    else Ok(StripToLdc(body))
  }

  /** When the pair follows the window, a non-empty result ends in the inserted `ret`. */
  lemma PatchedEndsWithRet(body: seq<Instr>)
    requires FirstInitWindow(body, 0) > 0 && FirstStorePair(body, 0) > FirstInitWindow(body, 0) + 4
    ensures Patched(body).Ok?
    ensures Patched(body).value != [] ==> Patched(body).value[|Patched(body).value| - 1] == RetInstr
  {
    SurgeryEndsWithRet(body, FirstInitWindow(body, 0), FirstStorePair(body, 0));
  }

  lemma SurgeryEndsWithRet(body: seq<Instr>, s: nat, e: nat)
    requires 0 < s && s + 5 < |body| && IsInitWindow(body, s)
    requires s + 4 < e && e + 1 < |body| && IsStorePair(body, e)
    ensures Surgery(body, s, e).Ok?
    ensures Surgery(body, s, e).value != [] ==> Surgery(body, s, e).value[|Surgery(body, s, e).value| - 1] == RetInstr
  {
    var spliced := body[..s] + [LdargZero] + body[s + 5..e] + [RetInstr];
    assert Surgery(body, s, e) == Ok(StripToLdc(spliced));
    StripKeepsLast(spliced);
  }

  /** The strip loop keeps the last instruction of what it leaves. */
  lemma StripKeepsLast(s: seq<Instr>)
    requires s != []
    ensures StripToLdc(s) != [] ==> StripToLdc(s)[|StripToLdc(s)| - 1] == s[|s| - 1]
  {
    var r := StripToLdc(s);
    if r != [] {
      assert r[|r| - 1] == s[|s| - |r|..][|r| - 1];
    }
  }

  /** When either index is missing or zero, only the strip loop changes the body. */
  lemma {:induction false} PatchedWithoutSurgery(body: seq<Instr>)
    requires FirstInitWindow(body, 0) <= 0 || FirstStorePair(body, 0) <= 0
    ensures Patched(body).Ok?
    ensures var r := Patched(body).value; r == body[|body| - |r|..]
  {
  }

  /**
   * The list edits of `DecryptArray(MethodDef, byte[])` on the cloned
   * body, one `RemoveAt`/`Insert` at a time, with its two searches and its
   * two removal loops.
   */
  method PatchInitializer(body: seq<Instr>) returns (r: Result<seq<Instr>>)
    ensures r == Patched(body)
  {
    var indexStart := SearchInitWindow(body);
    var indexEnd := SearchStorePair(body);
    r := Operate(body, indexStart, indexEnd);
  }

  /** The list edits for a window found at `indexStart` and a store pair found at `indexEnd`, then the strip loop. */
  method Operate(body: seq<Instr>, indexStart: int, indexEnd: int) returns (r: Result<seq<Instr>>)
    requires indexStart == -1 || (0 <= indexStart && indexStart + 5 < |body| && IsInitWindow(body, indexStart))
    requires indexEnd == -1 || (0 <= indexEnd && indexEnd + 1 < |body| && IsStorePair(body, indexEnd))
    ensures r == Surgery(body, indexStart, indexEnd)
  {
    var instrs := body;
    if indexStart > 0 && indexEnd > 0 {
      instrs := CutAfterPair(instrs, indexEnd);
      ghost var cut := instrs;
      if indexStart >= |instrs| {
        // the pair came before the window: the first RemoveAt(indexStart) throws
        return Throws(ArgumentOutOfRange);
      }
      StoreNotInsideWindow(body, indexStart, indexEnd);
      instrs := ReplaceWindow(instrs, indexStart);
      SplicedForm(body, indexStart, indexEnd, cut, instrs);
    }
    instrs := StripLeading(instrs);
    r := Ok(instrs);
  }

  /** `RemoveAt(e)` twice, `Insert(e, ret)`, then removal of everything after the `ret`. */
  method CutAfterPair(body: seq<Instr>, e: nat) returns (instrs: seq<Instr>)
    requires e + 1 < |body|
    ensures instrs == body[..e] + [RetInstr]
  {
    instrs := body[..e] + body[e + 1..];
    instrs := instrs[..e] + instrs[e + 1..];
    instrs := instrs[..e] + [RetInstr] + instrs[e..];
    while |instrs| > e + 1
      invariant |instrs| >= e + 1
      invariant instrs[..e + 1] == body[..e] + [RetInstr]
    {
      instrs := instrs[..e + 1] + instrs[e + 2..];
    }
  }

  /** `RemoveAt(s)` five times, then `Insert(s, ldarg.0)`. */
  method ReplaceWindow(cut: seq<Instr>, s: nat) returns (instrs: seq<Instr>)
    requires s + 5 <= |cut|
    ensures instrs == cut[..s] + [LdargZero] + cut[s + 5..]
  {
    instrs := cut[..s] + cut[s + 1..];
    assert instrs == cut[..s] + cut[s + 1..];
    instrs := instrs[..s] + instrs[s + 1..];
    assert instrs == cut[..s] + cut[s + 2..];
    instrs := instrs[..s] + instrs[s + 1..];
    assert instrs == cut[..s] + cut[s + 3..];
    instrs := instrs[..s] + instrs[s + 1..];
    assert instrs == cut[..s] + cut[s + 4..];
    instrs := instrs[..s] + instrs[s + 1..];
    assert instrs == cut[..s] + cut[s + 5..];
    instrs := instrs[..s] + [LdargZero] + instrs[s..];
  }

  /** The prologue search: the first window below `Count - 5`, or -1. */
  method SearchInitWindow(instrs: seq<Instr>) returns (index: int)
    ensures index == FirstInitWindow(instrs, 0)
  {
    index := -1;
    var i := 0;
    while i < |instrs| - 5
      invariant 0 <= i && (i <= |instrs| - 5 || i == 0)
      invariant FirstInitWindow(instrs, i) == FirstInitWindow(instrs, 0)
    {
      if IsInitWindow(instrs, i) {
        return i;
      }
      i := i + 1;
    }
  }

  /** The store search: the first `call; stsfld`, or -1. */
  method SearchStorePair(instrs: seq<Instr>) returns (index: int)
    ensures index == FirstStorePair(instrs, 0)
  {
    index := -1;
    var i := 0;
    while i < |instrs| - 1
      invariant 0 <= i && (i <= |instrs| - 1 || i == 0)
      invariant FirstStorePair(instrs, i) == FirstStorePair(instrs, 0)
    {
      if IsStorePair(instrs, i) {
        return i;
      }
      i := i + 1;
    }
  }

  /** The strip loop: `RemoveAt(0)` while the first instruction is no ldc.i4. */
  method StripLeading(instrs: seq<Instr>) returns (r: seq<Instr>)
    ensures r == StripToLdc(instrs)
  {
    r := instrs;
    while |r| > 0 && !IsLdcI4(r[0])
      invariant StripToLdc(r) == StripToLdc(instrs)
    {
      r := r[1..];
    }
  }

  /** The closed form of the edits once the window and the pair are both found. */
  lemma SplicedForm(body: seq<Instr>, s: nat, e: nat, cut: seq<Instr>, spliced: seq<Instr>)
    requires s + 5 <= e + 1 && e < |body|
    requires cut == body[..e] + [RetInstr]
    requires spliced == cut[..s] + [LdargZero] + cut[s + 5..]
    ensures e == s + 4 ==> spliced == body[..s] + [LdargZero]
    ensures e > s + 4 ==> spliced == body[..s] + [LdargZero] + body[s + 5..e] + [RetInstr]
  {
    if e > s + 4 {
      assert cut[s + 5..] == body[s + 5..e] + [RetInstr];
    }
  }

  // ---- the decryptor classifiers ------------------------------------------------

  /** The seven runtime members every native decryptor calls. */
  const DecryptApis: seq<MemberName> := [
    EncodingGetUTF8, EncodingGetString, ArrayCreateInstance, StringIntern,
    BufferBlockCopy, TypeGetTypeFromHandle, TypeGetElementType]

  predicate IsLdcI4Of(ins: Instr, value: Int32) {
    IsLdcI4(ins) && LdcI4Value(ins) == value
  }

  /**
   * The 17-position prologue of a native decryptor: the key call and
   * `>> 30`, `& 0x3FFFFFFF`, `<< 2` on the argument. Position 7 (the
   * ldloca before initobj) is not checked.
   */
  predicate NativeTemplate(body: seq<Instr>)
    requires |body| >= 17
  {
    IsLdarg(body[0]) && body[1].op == Call && KeyShift(body) && KeyMaskStep(body) && KeyScale(body)
  }

  /** Positions 2-6: `starg; ldarg; ldc.i4 0x1E; shr.un; stloc`. */
  predicate KeyShift(body: seq<Instr>)
    requires |body| >= 17
  {
    IsStarg(body[2]) && IsLdarg(body[3]) && IsLdcI4Of(body[4], 0x1E) && body[5].op == ShrUn && IsStloc(body[6])
  }

  /** Positions 8-12: `initobj; ldarg; ldc.i4 0x3FFFFFFF; and; starg`. */
  predicate KeyMaskStep(body: seq<Instr>)
    requires |body| >= 17
  {
    body[8].op == Initobj && IsLdarg(body[9]) && IsLdcI4Of(body[10], 0x3FFF_FFFF) && body[11].op == And
    && IsStarg(body[12])
  }

  /** Positions 13-16: `ldarg; ldc.i4 2; shl; starg`. */
  predicate KeyScale(body: seq<Instr>)
    requires |body| >= 17
  {
    IsLdarg(body[13]) && IsLdcI4Of(body[14], 2) && body[15].op == Shl && IsStarg(body[16])
  }

  /** The key routine: a static native `int32(int32)` method definition. */
  predicate IsNativeKeyMethod(o: Operand) {
    IsMethodDefOp(o) && o.m.isStatic && o.m.isNative && IsMethod(o.m, Int32Sig, [Int32Sig])
  }

  /** A native decryptor body: at least 25 instructions, the template, the key routine and all seven API calls. */
  predicate IsNativeDecryptorBody(body: seq<Instr>) {
    |body| >= 25 && NativeTemplate(body) && IsNativeKeyMethod(body[1].operand)
    && forall k :: 0 <= k < |DecryptApis| ==> CallsMethod(body, DecryptApis[k])
  }

  /**
   * `IsNativeStringDecrypter`, check by check in the source's order. The
   * out-variable is the operand of instruction 1 once it is known to be a
   * call (null when it is no method definition), even when a later check
   * fails.
   */
  method IsNativeStringDecrypter(body: seq<Instr>) returns (found: bool, nativeMethod: Option<MethodRef>)
    ensures found <==> IsNativeDecryptorBody(body)
    ensures found ==> nativeMethod == Some(body[1].operand.m)
    ensures nativeMethod.Some? <==>
              |body| >= 25 && IsLdarg(body[0]) && body[1].op == Call && IsMethodDefOp(body[1].operand)
    ensures nativeMethod.Some? ==> nativeMethod.value == body[1].operand.m
  {
    nativeMethod := None;
    if |body| < 25 {
      return false, nativeMethod;
    }
    if !IsLdarg(body[0]) || body[1].op != Call {
      return false, nativeMethod;
    }
    nativeMethod := if IsMethodDefOp(body[1].operand) then Some(body[1].operand.m) else None;
    if !IsNativeKeyMethod(body[1].operand) || !KeyShift(body) || !KeyMaskStep(body) || !KeyScale(body) {
      assert !NativeTemplate(body) || !IsNativeKeyMethod(body[1].operand);
      return false, nativeMethod;
    }
    assert NativeTemplate(body) && IsNativeKeyMethod(body[1].operand);
    found := CallsAll(body, DecryptApis);
  }

  /** The `foreach` over the member names: false at the first one the body never calls. */
  method CallsAll(body: seq<Instr>, names: seq<MemberName>) returns (all: bool)
    ensures all <==> forall k :: 0 <= k < |names| ==> CallsMethod(body, names[k])
  {
    var k := 0;
    while k < |names|
      invariant 0 <= k <= |names|
      invariant forall j :: 0 <= j < k ==> CallsMethod(body, names[j])
    {
      var calls := ScanCallsMethod(body, names[k]);
      if !calls {
        return false;
      }
      k := k + 1;
    }
    return true;
  }

  /**
   * `DotNetUtils.CallsMethod`: scans the body for a call, callvirt or
   * newobj of the member.
   */
  method ScanCallsMethod(body: seq<Instr>, name: MemberName) returns (calls: bool)
    ensures calls <==> CallsMethod(body, name)
  {
    var k := 0;
    while k < |body|
      invariant 0 <= k <= |body|
      invariant forall j :: 0 <= j < k ==> !IsCallOf(body[j], name)
    {
      if IsCallOf(body[k], name) {
        return true;
      }
      k := k + 1;
    }
    return false;
  }

  /** `Assembly.GetExecutingAssembly().Equals(Assembly.GetCallingAssembly())` at the head of a body. */
  predicate HasAssemblyCheck(body: seq<Instr>)
    requires |body| >= 3
  {
    body[0].op == Call && body[1].op == Call && body[2].op == Callvirt
    && OperandIsMethod(body[0].operand, AssemblySig, [])
    && OperandIsMethod(body[1].operand, AssemblySig, [])
    && OperandIsMethod(body[2].operand, BoolSig, [ObjectSig])
  }

  /**
   * The one edit `IsNormalStringDecrypter` makes to the method it
   * inspects: both calls of the assembly check then name the calling
   * assembly, so the check folds to true.
   */
  function NormalizeAssemblyCheck(body: seq<Instr>): (r: seq<Instr>)
    ensures |r| == |body|
    ensures forall k :: 0 <= k < |body| ==> r[k].op == body[k].op
    ensures forall k :: 0 < k < |body| ==> r[k] == body[k]
  {
    if |body| >= 3 && HasAssemblyCheck(body) then body[0 := Instr(body[0].op, body[1].operand)] else body
  }

  /** Rewriting the assembly check twice is rewriting it once. */
  lemma NormalizeAssemblyCheckIdempotent(body: seq<Instr>)
    ensures NormalizeAssemblyCheck(NormalizeAssemblyCheck(body)) == NormalizeAssemblyCheck(body)
  {
    if |body| >= 3 && HasAssemblyCheck(body) {
      var r := NormalizeAssemblyCheck(body);
      assert HasAssemblyCheck(r);
      assert r[0 := Instr(r[0].op, r[1].operand)] == r;
    }
  }

  /** `ldc.i4 num1; mul; ldc.i4 num2; xor` starting at `i`. */
  predicate IsMulXorWindow(body: seq<Instr>, i: nat)
    requires i + 3 < |body|
  {
    IsLdcI4(body[i]) && body[i + 1].op == Mul && IsLdcI4(body[i + 2]) && body[i + 3].op == Xor
  }

  /** The first mul/xor window at or after `from`, or -1. */
  function FirstMulXor(body: seq<Instr>, from: nat): (r: int)
    decreases |body| - from
    ensures r == -1 || (from <= r && r + 3 < |body| && IsMulXorWindow(body, r))
  {
    if from + 3 >= |body| then -1
    else if IsMulXorWindow(body, from) then from
    else FirstMulXor(body, from + 1)
  }
  /** No match starts from `from` on before the answer, nor anywhere from `from` on when the answer is -1. */
  lemma {:induction false} FirstMulXorIsFirst(body: seq<Instr>, from: nat, j: nat)
    requires from <= j && j + 3 < |body|
    requires FirstMulXor(body, from) == -1 || j < FirstMulXor(body, from)
    ensures !IsMulXorWindow(body, j)
    decreases |body| - from
  {
    if j > from {
      FirstMulXorIsFirst(body, from + 1, j);
    }
  }


  /** The decryptor's key arithmetic as a term over its index argument. */
  datatype KeyTerm = IndexArg | Constant(bits: bv32) | Product(l: KeyTerm, r: KeyTerm) | Xored(l: KeyTerm, r: KeyTerm)

  /** A key term's uint value: `mul` wraps around, `xor` is bitwise. */
  function KeyValue(t: KeyTerm, index: bv32): bv32 {
    match t
    case IndexArg => index
    case Constant(c) => c
    case Product(a, b) => Mul32(KeyValue(a, index), KeyValue(b, index))
    case Xored(a, b) => KeyValue(a, index) ^ KeyValue(b, index)
  }

  /**
   * The evaluation stack of the key arithmetic over instructions `from` to
   * `to` of a body, as terms with the top first: `ldc.i4` pushes its
   * constant, `mul` and `xor` replace the top two entries by their product
   * and their xor. Any other instruction, or too short a stack, stops it.
   */
  function KeyStack(body: seq<Instr>, from: nat, to: nat, stack: seq<KeyTerm>): Option<seq<KeyTerm>>
    requires from <= to <= |body|
    decreases |body| - from
  {
    if from == to then Some(stack)
    else if IsLdcI4(body[from]) then KeyStack(body, from + 1, to, [Constant(ToBits(LdcI4Value(body[from])))] + stack)
    else if (body[from].op == Mul || body[from].op == Xor) && |stack| >= 2 then
      var top := if body[from].op == Mul then Product(stack[1], stack[0]) else Xored(stack[1], stack[0]);
      KeyStack(body, from + 1, to, [top] + stack[2..])
    else None
  }

  /** `index * num1 ^ num2` as a term has the arithmetic key as its value. */
  lemma KeyTermIsArithmeticKey(num1: bv32, num2: bv32, index: bv32)
    ensures KeyValue(Xored(Product(IndexArg, Constant(num1)), Constant(num2)), index) == ArithmeticKey(index, num1, num2)
  {
    assert KeyValue(Product(IndexArg, Constant(num1)), index) == Mul32(index, num1);
  }

  /**
   * The window the recogniser reads, run on the index, leaves the one term
   * `index * num1 ^ num2` of the window's two constants.
   */
  lemma MulXorWindowComputesKey(body: seq<Instr>, w: nat)
    requires w + 3 < |body| && IsMulXorWindow(body, w)
    ensures var n1, n2 := ToBits(LdcI4Value(body[w])), ToBits(LdcI4Value(body[w + 2]));
            KeyStack(body, w, w + 4, [IndexArg]) == Some([Xored(Product(IndexArg, Constant(n1)), Constant(n2))])
  {
    var c1, c2 := Constant(ToBits(LdcI4Value(body[w]))), Constant(ToBits(LdcI4Value(body[w + 2])));
    var p := Product(IndexArg, c1);
    assert [c1] + [IndexArg] == [c1, IndexArg];
    assert [p] + [c1, IndexArg][2..] == [p];
    assert [c2] + [p] == [c2, p];
    assert [Xored(p, c2)] + [c2, p][2..] == [Xored(p, c2)];
    assert KeyStack(body, w + 3, w + 4, [c2, p]) == Some([Xored(p, c2)]);
    assert KeyStack(body, w + 1, w + 4, [c1, IndexArg]) == KeyStack(body, w + 2, w + 4, [p]);
  }

  /**
   * `IsNormalStringDecrypter`: a body of at least 25 instructions, with its
   * assembly check rewritten in place, is an arithmetic decryptor iff it
   * holds a mul/xor window; the constants are those of the first one.
   */
  method IsNormalStringDecrypter(body: seq<Instr>) returns (found: bool, num1: Int32, num2: Int32, newBody: seq<Instr>)
    ensures |body| < 25 ==> !found && newBody == body && num1 == 0 && num2 == 0
    ensures |body| >= 25 ==> newBody == NormalizeAssemblyCheck(body)
    ensures found <==> |body| >= 25 && FirstMulXor(newBody, 0) != -1
    ensures found ==> var w := FirstMulXor(newBody, 0);
                      num1 == LdcI4Value(newBody[w]) && num2 == LdcI4Value(newBody[w + 2])
  {
    num1, num2 := 0, 0;
    newBody := body;
    if |body| < 25 {
      return false, num1, num2, newBody;
    }
    newBody := RewriteAssemblyCheck(body);
    var w := SearchMulXor(newBody);
    if w == -1 {
      return false, num1, num2, newBody;
    }
    num1 := LdcI4Value(newBody[w]);
    num2 := LdcI4Value(newBody[w + 2]);
    found := true;
  }

  /** The in-place edit of `IsNormalStringDecrypter`: instruction 0 takes the operand of instruction 1. */
  method RewriteAssemblyCheck(body: seq<Instr>) returns (newBody: seq<Instr>)
    requires |body| >= 3
    ensures newBody == NormalizeAssemblyCheck(body)
  {
    newBody := body;
    if HasAssemblyCheck(newBody) {
      newBody := newBody[0 := Instr(newBody[0].op, newBody[1].operand)];
    }
  }

  /** The loop of `IsNormalStringDecrypter`: the first mul/xor window, or -1. */
  method SearchMulXor(body: seq<Instr>) returns (w: int)
    ensures w == FirstMulXor(body, 0)
  {
    var i := 0;
    while i + 3 < |body|
      invariant FirstMulXor(body, i) == FirstMulXor(body, 0)
    {
      if IsMulXorWindow(body, i) {
        return i;
      }
      i := i + 1;
    }
    return -1;
  }

  /**
   * The assembly check starts with two calls, a native decryptor with an
   * ldarg: the rewrite never touches a native decryptor, whichever of the
   * two classifiers runs first.
   */
  lemma NormalizeKeepsNativeDecryptor(body: seq<Instr>)
    requires IsNativeDecryptorBody(body)
    ensures NormalizeAssemblyCheck(body) == body
  {
  }

  // ---- the decryptors of the global type ----------------------------------------

  /**
   * The filter of `FindStringDecrypters`: a method with a body whose
   * signature mentions a generic parameter, with one int32 or uint32
   * parameter, returning its own (possibly modified) method type parameter,
   * with exactly one generic parameter.
   */
  predicate IsDecryptorCandidate(m: MethodRef, bodies: Bodies) {
    m in bodies && SigContainsGenericParameter(m.sig) && |m.sig.params| == 1
    && GetElementType(m.sig.params[0]) in {U4, I4}
    && RemovePinnedAndModifiers(m.sig.ret).GenericMVar? && m.sig.genParamCount == 1
  }

  /** What a candidate's body says about its call sites: the native key routine, or the two arithmetic keys. */
  datatype Shape = Shape(nativeMethod: Option<MethodRef>, num1: bv32, num2: bv32)

  /** The shapes tagged with the decryptor method and the decrypted blob. */
  function Tagged(m: MethodRef, blob: Blob, shapes: seq<Shape>): (r: seq<Site>)
    ensures |r| == |shapes|
  {
    seq(|shapes|, k requires 0 <= k < |shapes| => Site(m, blob, shapes[k].nativeMethod, shapes[k].num1, shapes[k].num2))
  }

  /**
   * The sites one candidate yields: a native site when the native shape
   * matches, then an arithmetic site when the (rewritten) body holds a
   * mul/xor window. Both can match one method.
   */
  function SitesOf(m: MethodRef, body: seq<Instr>, blob: Blob): seq<Site> {
    Tagged(m, blob, NativeShape(body) + NormalShape(body))
  }

  /** The native shape of a candidate, when its body has it. */
  function NativeShape(body: seq<Instr>): seq<Shape> {
    if IsNativeDecryptorBody(body) then [Shape(Some(body[1].operand.m), 0, 0)] else []
  }

  /** The arithmetic shape of a candidate, from the first mul/xor window of its rewritten body. */
  function NormalShape(body: seq<Instr>): seq<Shape> {
    var rewritten := if |body| >= 25 then NormalizeAssemblyCheck(body) else body;
    var w := FirstMulXor(rewritten, 0);
    if |body| >= 25 && w != -1
    then [Shape(None, ToBits(LdcI4Value(rewritten[w])), ToBits(LdcI4Value(rewritten[w + 2])))]
    else []
  }

  /** The body a candidate is left with: its assembly check rewritten when it has 25 instructions or more. */
  function RewrittenBody(body: seq<Instr>): seq<Instr> {
    if |body| >= 25 then NormalizeAssemblyCheck(body) else body
  }

  /** The bodies after the first `n` methods of `ms`: each candidate's assembly check rewritten in place. */
  function ScanBodies(bodies: Bodies, ms: seq<MethodRef>, n: nat): Bodies
    requires n <= |ms|
  {
    if n == 0 then bodies
    else
      var prev := ScanBodies(bodies, ms, n - 1);
      var m := ms[n - 1];
      if IsDecryptorCandidate(m, prev) then prev[m := RewrittenBody(prev[m])] else prev
  }

  /** The sites of the first `n` methods of `ms`, each judged on its body as the scan finds it. */
  function ScanSites(bodies: Bodies, ms: seq<MethodRef>, n: nat, blob: Blob): seq<Site>
    requires n <= |ms|
  {
    if n == 0 then []
    else
      var prev := ScanBodies(bodies, ms, n - 1);
      var m := ms[n - 1];
      ScanSites(bodies, ms, n - 1, blob) + if IsDecryptorCandidate(m, prev) then SitesOf(m, prev[m], blob) else []
  }

  /** Same methods, same body lengths: what the in-place rewrite of a body keeps. */
  predicate SameShape(before: Bodies, after: Bodies) {
    after.Keys == before.Keys && forall m :: m in after ==> |after[m]| == |before[m]|
  }

  /** The scan keeps every body's length. */
  lemma {:induction false} ScanKeepsShape(bodies: Bodies, ms: seq<MethodRef>, n: nat)
    requires n <= |ms|
    ensures SameShape(bodies, ScanBodies(bodies, ms, n))
  {
    if n > 0 {
      ScanKeepsShape(bodies, ms, n - 1);
    }
  }

  /** Whether a method is a candidate depends on its signature and on its having a body, not on the body. */
  lemma CandidateSameShape(m: MethodRef, before: Bodies, after: Bodies)
    requires SameShape(before, after)
    ensures IsDecryptorCandidate(m, after) <==> IsDecryptorCandidate(m, before)
  {
  }

  /** The scan leaves the body of a method it does not reach, or of a non-candidate, as it was. */
  lemma {:induction false} ScanBodiesKeepsOthers(bodies: Bodies, ms: seq<MethodRef>, n: nat, m: MethodRef)
    requires n <= |ms| && m in bodies && (m !in ms[..n] || !IsDecryptorCandidate(m, bodies))
    ensures m in ScanBodies(bodies, ms, n) && ScanBodies(bodies, ms, n)[m] == bodies[m]
  {
    ScanKeepsShape(bodies, ms, n);
    if n > 0 {
      assert ms[..n - 1] <= ms[..n];
      assert m !in ms[..n] ==> m != ms[n - 1] && m !in ms[..n - 1];
      ScanBodiesKeepsOthers(bodies, ms, n - 1, m);
      ScanKeepsShape(bodies, ms, n - 1);
      CandidateSameShape(m, bodies, ScanBodies(bodies, ms, n - 1));
    }
  }

  /** Every site the scan yields names a candidate of the bodies it started from. */
  lemma {:induction false} ScanSitesAreCandidates(bodies: Bodies, ms: seq<MethodRef>, n: nat, blob: Blob)
    requires n <= |ms|
    ensures forall k :: 0 <= k < |ScanSites(bodies, ms, n, blob)| ==> IsDecryptorCandidate(ScanSites(bodies, ms, n, blob)[k].decrypter, bodies)
  {
    if n > 0 {
      ScanSitesAreCandidates(bodies, ms, n - 1, blob);
      var prev := ScanBodies(bodies, ms, n - 1);
      var m := ms[n - 1];
      ScanKeepsShape(bodies, ms, n - 1);
      CandidateSameShape(m, bodies, prev);
      var a := ScanSites(bodies, ms, n - 1, blob);
      var b: seq<Site> := if IsDecryptorCandidate(m, prev) then SitesOf(m, prev[m], blob) else [];
      assert ScanSites(bodies, ms, n, blob) == a + b;
      forall k | 0 <= k < |a + b|
        ensures IsDecryptorCandidate((a + b)[k].decrypter, bodies)
      {
        if k >= |a| {
          TaggedNames(m, blob, NativeShape(prev[m]) + NormalShape(prev[m]), [m]);
          assert (a + b)[k] == b[k - |a|];
        }
      }
    }
  }

  /** Every site names one of `ms` and carries `blob`. */
  predicate SitesFrom(sites: seq<Site>, ms: seq<MethodRef>, blob: Blob) {
    forall k :: 0 <= k < |sites| ==> sites[k].decrypter in ms && sites[k].decrypted == blob
  }

  /** Every site the scan yields names one of the scanned methods and carries the blob. */
  lemma {:induction false} ScanSitesNameScanned(bodies: Bodies, ms: seq<MethodRef>, n: nat, blob: Blob)
    requires n <= |ms|
    ensures SitesFrom(ScanSites(bodies, ms, n, blob), ms, blob)
  {
    if n > 0 {
      ScanSitesNameScanned(bodies, ms, n - 1, blob);
      var prev := ScanBodies(bodies, ms, n - 1);
      var m := ms[n - 1];
      if IsDecryptorCandidate(m, prev) {
        TaggedNames(m, blob, NativeShape(prev[m]) + NormalShape(prev[m]), ms);
        SitesFromAppend(ScanSites(bodies, ms, n - 1, blob), SitesOf(m, prev[m], blob), ms, blob);
      } else {
        assert ScanSites(bodies, ms, n, blob) == ScanSites(bodies, ms, n - 1, blob) + [];
      }
    }
  }

  lemma SitesFromAppend(a: seq<Site>, b: seq<Site>, ms: seq<MethodRef>, blob: Blob)
    requires SitesFrom(a, ms, blob) && SitesFrom(b, ms, blob)
    ensures SitesFrom(a + b, ms, blob)
  {
    assert forall k :: |a| <= k < |a + b| ==> (a + b)[k] == b[k - |a|];
  }

  /** The sites of one method name that method and carry the blob. */
  lemma TaggedNames(m: MethodRef, blob: Blob, shapes: seq<Shape>, ms: seq<MethodRef>)
    requires m in ms
    ensures SitesFrom(Tagged(m, blob, shapes), ms, blob)
  {
  }

  /** A candidate matching both shapes yields two sites, the native one first. */
  lemma BothShapesYieldTwoSites(m: MethodRef, body: seq<Instr>, blob: Blob)
    requires IsNativeDecryptorBody(body) && FirstMulXor(body, 0) != -1
    ensures |SitesOf(m, body, blob)| == 2
    ensures SitesOf(m, body, blob)[0].nativeMethod.Some? && SitesOf(m, body, blob)[1].nativeMethod.None?
  {
    NormalizeKeepsNativeDecryptor(body);
  }

  // ---- the typed dispatchers ------------------------------------------------------

  /** The constant types a call site can ask for; float and double are not modelled. */
  datatype ConstKind =
    | StringKind | SByteKind | ByteKind | Int16Kind | UInt16Kind
    | Int32Kind | UInt32Kind | Int64Kind | UInt64Kind | ArrayKind
  {
    predicate IsScalar() { !StringKind? && !ArrayKind? }
  }

  /** The element type each dispatcher demands of the generic argument. */
  function KindElementType(kind: ConstKind): ElementType {
    match kind
    case StringKind => String
    case SByteKind => I1
    case ByteKind => U1
    case Int16Kind => I2
    case UInt16Kind => U2
    case Int32Kind => I4
    case UInt32Kind => U4
    case Int64Kind => I8
    case UInt64Kind => U8
    case ArrayKind => SZArray
  }

  /** `Marshal.SizeOf(typeof(T))` of an integer T. */
  function ScalarSize(kind: ConstKind): nat
    requires kind.IsScalar()
  {
    match kind
    case SByteKind => 1
    case ByteKind => 1
    case Int16Kind => 2
    case UInt16Kind => 2
    case Int32Kind => 4
    case UInt32Kind => 4
    case Int64Kind => 8
    case UInt64Kind => 8
  }

  predicate IsSignedKind(kind: ConstKind) {
    kind in {SByteKind, Int16Kind, Int32Kind, Int64Kind}
  }

  /** A decrypted constant: the UTF-8 bytes of a string, an integer, or a byte array. */
  datatype Constant = Utf8String(utf8: seq<byte>) | Integer(value: int) | ByteArray(bytes: seq<byte>)

  /** `VerifyGenericArg`: the call site instantiates exactly one generic argument, of element type `etype`. */
  predicate VerifyGenericArg(gim: Option<MethodSpec>, etype: ElementType) {
    gim.Some? && |gim.value.genArgs| == 1 && GetElementType(gim.value.genArgs[0]) == etype
  }

  /**
   * The `Decrypt*` dispatchers: null (None) unless the generic argument
   * matches the kind; otherwise the site's decoder for that kind, whose
   * failure is an exception.
   */
  function Decrypt(site: Site, gim: Option<MethodSpec>, kind: ConstKind, magic1: bv32, emulate: Emulator)
    : (r: Result<Option<Constant>>)
    ensures r == Ok(None) <==> !VerifyGenericArg(gim, KindElementType(kind))
    ensures r.Throws? ==> VerifyGenericArg(gim, KindElementType(kind))
  {
    if !VerifyGenericArg(gim, KindElementType(kind)) then Ok(None)
    else if kind == StringKind then
      var s :- DecryptString(site, magic1, emulate);
      Ok(Some(Utf8String(s)))
    else if kind == ArrayKind then
      var a :- DecryptArray(site, magic1, emulate);
      Ok(Some(ByteArray(a)))
    else
      var v :- DecryptConstant(site, magic1, emulate, ScalarSize(kind), IsSignedKind(kind));
      Ok(Some(Integer(v)))
  }

  /** One instantiation passes `VerifyGenericArg` for one element type at most. */
  lemma VerifyGenericArgUnique(gim: Option<MethodSpec>, e1: ElementType, e2: ElementType)
    requires VerifyGenericArg(gim, e1) && VerifyGenericArg(gim, e2)
    ensures e1 == e2 && gim.Some? && |gim.value.genArgs| == 1
  {
  }

  /** At most one dispatcher answers a call site: the others return null. */
  lemma DispatchExclusive(site: Site, gim: Option<MethodSpec>, k1: ConstKind, k2: ConstKind, magic1: bv32, emulate: Emulator)
    requires k1 != k2
    ensures Decrypt(site, gim, k1, magic1, emulate) == Ok(None) || Decrypt(site, gim, k2, magic1, emulate) == Ok(None)
  {
  }

  /** The arithmetic offset of `index` as the int the decoders index with. */
  function ArithmeticOffset(site: Site, index: bv32): int {
    MaskAndShift(ArithmeticKey(index, site.num1, site.num2)) as int
  }

  /** Without a native routine the decoders read at the arithmetic offset. */
  lemma ArithmeticMagic(site: Site, index: bv32, emulate: Emulator)
    requires site.nativeMethod.None? && ArithmeticOffset(site, index) <= MaxInt32
    ensures CalculateMagic(site, index, emulate).Ok?
    ensures ToInt32(CalculateMagic(site, index, emulate).value) == ArithmeticOffset(site, index)
  {
    var offset := MaskAndShift(ArithmeticKey(index, site.num1, site.num2));
    assert CalculateMagic(site, index, emulate) == Ok(offset);
  }

  /** An integer stored little-endian at the site's offset comes back from its dispatcher. */
  lemma {:induction false} DispatchScalarRoundTrip(site: Site, gim: Option<MethodSpec>, kind: ConstKind, index: bv32,
                                                   emulate: Emulator, prefix: seq<byte>, v: int, suffix: seq<byte>)
    requires kind.IsScalar() && VerifyGenericArg(gim, KindElementType(kind))
    requires site.nativeMethod.None? && ArithmeticOffset(site, index) == |prefix|
    requires if IsSignedKind(kind) then -(Pow256(ScalarSize(kind)) as int) <= 2 * v < Pow256(ScalarSize(kind))
             else 0 <= v < Pow256(ScalarSize(kind))
    requires |prefix| + ScalarSize(kind) + |suffix| <= MaxInt32
    requires var u := if IsSignedKind(kind) then Unsigned(v, ScalarSize(kind)) else v;
             u < Pow256(ScalarSize(kind)) && site.decrypted == prefix + LeBytes(u, ScalarSize(kind)) + suffix
    ensures Decrypt(site, gim, kind, index, emulate) == Ok(Some(Integer(v)))
  {
    ConstantRoundTrip(site, index, emulate, prefix, v, ScalarSize(kind), IsSignedKind(kind), suffix);
    assert kind != StringKind && kind != ArrayKind;
  }

  /** The scalar decoder shared by the integer dispatchers reads back the value stored at the site's offset. */
  lemma {:induction false} ConstantRoundTrip(site: Site, index: bv32, emulate: Emulator,
                                             prefix: seq<byte>, v: int, size: nat, signed: bool, suffix: seq<byte>)
    requires site.nativeMethod.None? && ArithmeticOffset(site, index) == |prefix|
    requires if signed then -(Pow256(size) as int) <= 2 * v < Pow256(size) else 0 <= v < Pow256(size)
    requires |prefix| + size + |suffix| <= MaxInt32
    requires var u := if signed then Unsigned(v, size) else v;
             u < Pow256(size) && site.decrypted == prefix + LeBytes(u, size) + suffix
    ensures DecryptConstant(site, index, emulate, size, signed) == Ok(v)
  {
    ScalarRoundTrip(prefix, v, size, signed, suffix);
    ArithmeticMagic(site, index, emulate);
  }

  /** A length-prefixed string stored at the site's offset comes back from the string dispatcher. */
  lemma {:induction false} DispatchStringRoundTrip(site: Site, gim: Option<MethodSpec>, index: bv32, emulate: Emulator,
                                                   prefix: seq<byte>, payload: seq<byte>, suffix: seq<byte>)
    requires VerifyGenericArg(gim, String)
    requires site.nativeMethod.None? && ArithmeticOffset(site, index) == |prefix|
    requires |prefix| + 4 + |payload| + |suffix| <= MaxInt32
    requires |payload| < Pow256(4) && site.decrypted == prefix + LeBytes(|payload|, 4) + payload + suffix
    ensures Decrypt(site, gim, StringKind, index, emulate) == Ok(Some(Utf8String(payload)))
  {
    StringRoundTrip(prefix, payload, suffix);
    ArithmeticMagic(site, index, emulate);
    assert ReadString(site.decrypted, |prefix|) == Ok(payload);
    assert DecryptString(site, index, emulate) == Ok(payload);
  }

  /** An array stored with its 8-byte header at the site's offset comes back from the array dispatcher. */
  lemma {:induction false} DispatchArrayRoundTrip(site: Site, gim: Option<MethodSpec>, index: bv32, emulate: Emulator,
                                                  prefix: seq<byte>, ignored: seq<byte>, payload: seq<byte>, suffix: seq<byte>)
    requires VerifyGenericArg(gim, SZArray) && |ignored| == 4
    requires site.nativeMethod.None? && ArithmeticOffset(site, index) == |prefix|
    requires |prefix| + 8 + |payload| + |suffix| <= MaxInt32
    requires |payload| + 4 < Pow256(4)
    requires site.decrypted == prefix + LeBytes(|payload| + 4, 4) + ignored + payload + suffix
    ensures Decrypt(site, gim, ArrayKind, index, emulate) == Ok(Some(ByteArray(payload)))
  {
    ArrayDecoderRoundTrip(site, index, emulate, prefix, ignored, payload, suffix);
    assert KindElementType(ArrayKind) == SZArray;
  }

  /** The array decoder reads back the array stored at the site's offset. */
  lemma {:induction false} ArrayDecoderRoundTrip(site: Site, index: bv32, emulate: Emulator,
                                                 prefix: seq<byte>, ignored: seq<byte>, payload: seq<byte>, suffix: seq<byte>)
    requires |ignored| == 4
    requires site.nativeMethod.None? && ArithmeticOffset(site, index) == |prefix|
    requires |prefix| + 8 + |payload| + |suffix| <= MaxInt32
    requires |payload| + 4 < Pow256(4)
    requires site.decrypted == prefix + LeBytes(|payload| + 4, 4) + ignored + payload + suffix
    ensures DecryptArray(site, index, emulate) == Ok(payload)
  {
    ArrayRoundTrip(prefix, ignored, payload, suffix);
    ArithmeticMagic(site, index, emulate);
  }

  // ---- the decrypter object ---------------------------------------------------------

  /**
   * Runs the cut-down initialiser as a static `byte[](byte[])` method on
   * the array field's initial value: None when it throws.
   */
  type Runner = (seq<Instr>, seq<byte>) -> Option<seq<byte>>

  /** `Lzma.Decompress`: None when it throws. */
  type Decompressor = seq<byte> -> Option<Blob>

  /** What a successful `Find(MethodDef)` stores: the array field, the target field and the decrypted blob. */
  datatype InitResult = InitResult(arrayField: FieldRef, decryptedField: FieldRef, blob: Blob)

  /** `Find(MethodDef)` as a value: recognise the initialiser, cut it down, run it and decompress the result. */
  function DecryptInitializer(body: seq<Instr>, run: Runner, decompress: Decompressor): Option<InitResult> {
    if |body| < 15 then None
    else
      var aField := LastPairField(body, ArrayInit, |body| - 1);
      var dField := LastPairField(body, Decompress, |body| - 1);
      if aField.None? || dField.None? then None
      else match Patched(body)
        case Throws(_) => None
        case Ok(patched) =>
          match run(patched, aField.value.initialValue)
          case None => None
          case Some(encrypted) =>
            match decompress(encrypted)
            case None => None
            case Some(blob) => Some(InitResult(aField.value, dField.value, blob))
  }

  /**
   * What a decrypted initializer is: the fields the recogniser finds and,
   * as blob, the decompressed output of the patched initializer run on the
   * array field's initial value; a recognised body whose patch succeeds
   * yields nothing only when the run or the decompression fails.
   */
  lemma DecryptInitializerMeaning(body: seq<Instr>, run: Runner, decompress: Decompressor)
    ensures var r := DecryptInitializer(body, run, decompress);
            r.Some? ==> |body| >= 15
                        && LastPairField(body, ArrayInit, |body| - 1) == Some(r.value.arrayField)
                        && LastPairField(body, Decompress, |body| - 1) == Some(r.value.decryptedField)
    ensures var r := DecryptInitializer(body, run, decompress);
            r.Some? ==> Patched(body).Ok? && run(Patched(body).value, r.value.arrayField.initialValue).Some?
                        && decompress(run(Patched(body).value, r.value.arrayField.initialValue).value) == Some(r.value.blob)
    ensures var r := DecryptInitializer(body, run, decompress);
            r.None? && |body| >= 15 && Patched(body).Ok? ==>
              match (LastPairField(body, ArrayInit, |body| - 1), LastPairField(body, Decompress, |body| - 1))
              case (Some(a), Some(_)) =>
                run(Patched(body).value, a.initialValue).None?
                || decompress(run(Patched(body).value, a.initialValue).value).None?
              case _ => true
  {
  }

  /** The steps of `Find(MethodDef)` before it sets any field: recognise, patch, run, decompress. */
  method DecryptInitializerSteps(body: seq<Instr>, run: Runner, decompress: Decompressor) returns (r: Option<InitResult>)
    ensures r == DecryptInitializer(body, run, decompress)
  {
    var isInit, aField, dField := IsStringDecrypterInit(body);
    ghost var g := DecryptInitializer(body, run, decompress);
    if !isInit {
      assert g.None?;
      return None;
    }
    var patched := PatchInitializer(body);
    if patched.Throws? {
      assert g.None?;
      return None;
    }
    var encrypted := run(patched.value, aField.value.initialValue);
    if encrypted.None? {
      assert g.None?;
      return None;
    }
    var blob := decompress(encrypted.value);
    if blob.None? {
      assert g.None?;
      return None;
    }
    assert g == Some(InitResult(aField.value, dField.value, blob.value));
    return Some(InitResult(aField.value, dField.value, blob.value));
  }

  /** One candidate of `FindStringDecrypters`: its sites, and its body with the assembly check rewritten. */
  method ScanCandidate(m: MethodRef, body: seq<Instr>, blob: Blob) returns (sites: seq<Site>, rewritten: seq<Instr>)
    ensures sites == SitesOf(m, body, blob)
    ensures rewritten == RewrittenBody(body)
  {
    var native := NativeShapeOf(body);
    var normal;
    normal, rewritten := NormalShapeOf(body);
    sites := Tagged(m, blob, native + normal);
  }

  /** The native half of a candidate's scan. */
  method NativeShapeOf(body: seq<Instr>) returns (shape: seq<Shape>)
    ensures shape == NativeShape(body)
  {
    var isNative, nativeMethod := IsNativeStringDecrypter(body);
    shape := if isNative then [Shape(nativeMethod, 0, 0)] else [];
  }

  /** The arithmetic half of a candidate's scan, with the body it leaves. */
  method NormalShapeOf(body: seq<Instr>) returns (shape: seq<Shape>, rewritten: seq<Instr>)
    ensures shape == NormalShape(body)
    ensures rewritten == RewrittenBody(body)
  {
    var isNormal, num1, num2;
    isNormal, num1, num2, rewritten := IsNormalStringDecrypter(body);
    shape := if isNormal then [Shape(None, ToBits(num1), ToBits(num2))] else [];
  }

  /** One more method of the scan. */
  lemma ScanStep(bodies0: Bodies, ms: seq<MethodRef>, i: nat, blob: Blob)
    requires i < |ms|
    ensures var prev, m := ScanBodies(bodies0, ms, i), ms[i];
            IsDecryptorCandidate(m, prev) ==>
              ScanSites(bodies0, ms, i + 1, blob) == ScanSites(bodies0, ms, i, blob) + SitesOf(m, prev[m], blob)
              && ScanBodies(bodies0, ms, i + 1) == prev[m := RewrittenBody(prev[m])]
    ensures var prev, m := ScanBodies(bodies0, ms, i), ms[i];
            !IsDecryptorCandidate(m, prev) ==>
              ScanSites(bodies0, ms, i + 1, blob) == ScanSites(bodies0, ms, i, blob)
              && ScanBodies(bodies0, ms, i + 1) == prev
  {
  }

  /** The loop of `FindStringDecrypters`: each candidate in turn yields its sites and has its body rewritten. */
  method ScanMethods(bodies0: Bodies, ms: seq<MethodRef>, blob: Blob) returns (sites: seq<Site>, bodies: Bodies)
    ensures sites == ScanSites(bodies0, ms, |ms|, blob)
    ensures bodies == ScanBodies(bodies0, ms, |ms|)
  {
    ScanFromIsScan(bodies0, ms, 0, blob);
    ghost var goal := ScanFrom(bodies0, ms, 0, [], blob);
    sites, bodies := [], bodies0;
    var i := 0;
    while i < |ms|
      invariant 0 <= i <= |ms|
      invariant ScanFrom(bodies, ms, i, sites, blob) == goal
    {
      var m := ms[i];
      if IsDecryptorCandidate(m, bodies) {
        var found, rewritten := ScanCandidate(m, bodies[m], blob);
        sites := sites + found;
        bodies := bodies[m := rewritten];
      }
      i := i + 1;
    }
  }

  /** What the scan ends with. */
  datatype Scanned = Scanned(sites: seq<Site>, bodies: Bodies)

  /** The scan from method i on, with the sites and bodies so far. */
  function ScanFrom(bodies: Bodies, ms: seq<MethodRef>, i: nat, sites: seq<Site>, blob: Blob): Scanned
    requires i <= |ms|
    decreases |ms| - i
  {
    if i == |ms| then Scanned(sites, bodies)
    else
      var m := ms[i];
      if IsDecryptorCandidate(m, bodies)
      then ScanFrom(bodies[m := RewrittenBody(bodies[m])], ms, i + 1, sites + SitesOf(m, bodies[m], blob), blob)
      else ScanFrom(bodies, ms, i + 1, sites, blob)
  }

  /** The scan from method i on finishes what the first i methods started. */
  lemma {:induction false} ScanFromIsScan(bodies0: Bodies, ms: seq<MethodRef>, i: nat, blob: Blob)
    requires i <= |ms|
    ensures ScanFrom(ScanBodies(bodies0, ms, i), ms, i, ScanSites(bodies0, ms, i, blob), blob)
            == Scanned(ScanSites(bodies0, ms, |ms|, blob), ScanBodies(bodies0, ms, |ms|))
    decreases |ms| - i
  {
    if i < |ms| {
      ScanStep(bodies0, ms, i, blob);
      ScanFromIsScan(bodies0, ms, i + 1, blob);
    }
  }

  /** The fields `Find()` and `Find(MethodDef)` update, as one value. */
  datatype FindState = FindState(bodies: Bodies, decryptedBytes: Option<Blob>, arrayField: Option<FieldRef>,
                                 decryptedField: Option<FieldRef>, initializer: Option<MethodRef>,
                                 canRemoveLzma: bool, decrypters: seq<Site>)

  /** The fields a successful `Find(MethodDef)` sets travel together. */
  predicate InitializerFields(st: FindState) {
    st.initializer.Some? ==> st.decryptedBytes.Some? && st.arrayField.Some? && st.decryptedField.Some? && st.canRemoveLzma
  }

  /** Every site from position `from` on names one of `ms`. */
  predicate NamesFrom(sites: seq<Site>, from: nat, ms: seq<MethodRef>) {
    forall j :: from <= j < |sites| ==> sites[j].decrypter in ms
  }

  /**
   * `if (Find(m)) Decrypters.AddRange(FindStringDecrypters(...))`: `m` tried
   * as the initialiser; on success its fields are stored and the decryptors
   * of `<Module>` appended, judged on the bodies as they stand.
   */
  function TryInitializer(st: FindState, m: MethodRef, ms: seq<MethodRef>, run: Runner, decompress: Decompressor): (r: FindState)
    requires m in st.bodies
    ensures SameShape(st.bodies, r.bodies)
  {
    match DecryptInitializer(st.bodies[m], run, decompress)
    case None => st
    case Some(init) => ScanKeepsShape(st.bodies, ms, |ms|); Stored(st, m, init, ms)
  }

  /** A successful try of `m`: its fields stored, the bodies scanned and the sites appended. */
  function Stored(st: FindState, m: MethodRef, init: InitResult, ms: seq<MethodRef>): FindState {
    FindState(ScanBodies(st.bodies, ms, |ms|), Some(init.blob), Some(init.arrayField), Some(init.decryptedField),
              Some(m), true, st.decrypters + ScanSites(st.bodies, ms, |ms|, init.blob))
  }

  /** The filter of `Find()`'s loop: a call of a static `void()` method definition with a body. */
  predicate CallsInitializerCandidate(inst: Instr, bodies: Bodies) {
    inst.op == Call && IsMethodDefOp(inst.operand) && inst.operand.m in bodies
    && inst.operand.m.isStatic && IsMethod(inst.operand.m, VoidSig, [])
  }

  /** `Find()`'s loop from instruction `k` of the module constructor on, each instruction read as the bodies stand. */
  function TryCalls(st: FindState, cctor: MethodRef, k: nat, ms: seq<MethodRef>, run: Runner, decompress: Decompressor): (r: FindState)
    requires cctor in st.bodies && k <= |st.bodies[cctor]|
    ensures r.bodies.Keys == st.bodies.Keys
    decreases |st.bodies[cctor]| - k
  {
    if k == |st.bodies[cctor]| then st
    else
      var inst := st.bodies[cctor][k];
      var next := if CallsInitializerCandidate(inst, st.bodies) then TryInitializer(st, inst.operand.m, ms, run, decompress) else st;
      TryCalls(next, cctor, k + 1, ms, run, decompress)
  }

  /** `Find()`: the constructor's calls in order, then the constructor itself. */
  function FindFold(st: FindState, cctor: MethodRef, ms: seq<MethodRef>, run: Runner, decompress: Decompressor): FindState
    requires cctor in st.bodies
  {
    TryInitializer(TryCalls(st, cctor, 0, ms, run, decompress), cctor, ms, run, decompress)
  }

  /** One try keeps the stored fields together, keeps the earlier sites and appends only sites naming `ms`. */
  lemma TryInitializerExtends(st: FindState, m: MethodRef, ms: seq<MethodRef>, run: Runner, decompress: Decompressor)
    requires m in st.bodies && InitializerFields(st)
    ensures var r := TryInitializer(st, m, ms, run, decompress);
            InitializerFields(r) && st.decrypters <= r.decrypters && NamesFrom(r.decrypters, |st.decrypters|, ms)
  {
    var init := DecryptInitializer(st.bodies[m], run, decompress);
    if init.Some? {
      StoredExtends(st, m, init.value, ms);
    }
  }

  lemma StoredExtends(st: FindState, m: MethodRef, init: InitResult, ms: seq<MethodRef>)
    ensures var r := Stored(st, m, init, ms);
            InitializerFields(r) && st.decrypters <= r.decrypters && NamesFrom(r.decrypters, |st.decrypters|, ms)
  {
    var sites := ScanSites(st.bodies, ms, |ms|, init.blob);
    ScanSitesNameScanned(st.bodies, ms, |ms|, init.blob);
    assert ms[..|ms|] == ms;
    var r := Stored(st, m, init, ms);
    forall j | |st.decrypters| <= j < |r.decrypters|
      ensures r.decrypters[j].decrypter in ms
    {
      assert r.decrypters[j] == sites[j - |st.decrypters|];
    }
  }

  /** The whole of `Find()`'s loop keeps the same three facts. */
  lemma {:induction false} TryCallsExtends(st: FindState, cctor: MethodRef, k: nat, ms: seq<MethodRef>, run: Runner, decompress: Decompressor)
    requires cctor in st.bodies && k <= |st.bodies[cctor]| && InitializerFields(st)
    ensures var r := TryCalls(st, cctor, k, ms, run, decompress);
            InitializerFields(r) && st.decrypters <= r.decrypters && NamesFrom(r.decrypters, |st.decrypters|, ms)
    decreases |st.bodies[cctor]| - k
  {
    if k < |st.bodies[cctor]| {
      var inst := st.bodies[cctor][k];
      var next := if CallsInitializerCandidate(inst, st.bodies) then TryInitializer(st, inst.operand.m, ms, run, decompress) else st;
      if CallsInitializerCandidate(inst, st.bodies) {
        TryInitializerExtends(st, inst.operand.m, ms, run, decompress);
      }
      TryCallsExtends(next, cctor, k + 1, ms, run, decompress);
      NamesFromTrans(st.decrypters, next.decrypters, TryCalls(next, cctor, k + 1, ms, run, decompress).decrypters, ms);
    }
  }

  lemma NamesFromTrans(a: seq<Site>, b: seq<Site>, c: seq<Site>, ms: seq<MethodRef>)
    requires a <= b && NamesFrom(b, |a|, ms) && b <= c && NamesFrom(c, |b|, ms)
    ensures a <= c && NamesFrom(c, |a|, ms)
  {
    forall j | |a| <= j < |c|
      ensures c[j].decrypter in ms
    {
      if j < |b| {
        assert c[j] == b[j];
      }
    }
  }

  /** `Find()` as a whole keeps the stored fields together, keeps the earlier sites and appends only sites naming `ms`. */
  lemma FindFoldExtends(st: FindState, cctor: MethodRef, ms: seq<MethodRef>, run: Runner, decompress: Decompressor)
    requires cctor in st.bodies && InitializerFields(st)
    ensures var r := FindFold(st, cctor, ms, run, decompress);
            InitializerFields(r) && r.bodies.Keys == st.bodies.Keys
            && st.decrypters <= r.decrypters && NamesFrom(r.decrypters, |st.decrypters|, ms)
  {
    var mid := TryCalls(st, cctor, 0, ms, run, decompress);
    TryCallsExtends(st, cctor, 0, ms, run, decompress);
    TryInitializerExtends(mid, cctor, ms, run, decompress);
    NamesFromTrans(st.decrypters, mid.decrypters, FindFold(st, cctor, ms, run, decompress).decrypters, ms);
  }

  class ConstantsDecrypter {
    /** `GetModuleTypeCctor`: the static constructor of `<Module>`, if any. */
    const moduleCctor: Option<MethodRef>
    /** The methods of `<Module>`, in declaration order. */
    const globalMethods: seq<MethodRef>
    /** The module's method bodies; the arithmetic classifier rewrites some in place. */
    var bodies: Bodies
    var decryptedBytes: Option<Blob>
    var arrayField: Option<FieldRef>
    var decryptedField: Option<FieldRef>
    /** `Method`: the initialiser found last. */
    var initializer: Option<MethodRef>
    var canRemoveLzma: bool
    var decrypters: seq<Site>

    /** The fields a successful `Find(MethodDef)` sets travel together. */
    predicate Valid()
      reads this
    {
      (moduleCctor.Some? ==> moduleCctor.value in bodies) && InitializerFields(State())
    }

    /** The fields `Find()` updates, as one value. */
    function State(): FindState
      reads this
    {
      FindState(bodies, decryptedBytes, arrayField, decryptedField, initializer, canRemoveLzma, decrypters)
    }

    predicate Detected()
      reads this
    {
      initializer.Some? && decryptedBytes.Some? && |decrypters| != 0 && decryptedField.Some? && arrayField.Some?
    }

    constructor (moduleCctor: Option<MethodRef>, globalMethods: seq<MethodRef>, bodies: Bodies)
      requires moduleCctor.Some? ==> moduleCctor.value in bodies
      ensures Valid() && !Detected()
      ensures this.moduleCctor == moduleCctor && this.globalMethods == globalMethods && this.bodies == bodies
      ensures decrypters == [] && initializer.None? && decryptedBytes.None? && !canRemoveLzma
    {
      this.moduleCctor := moduleCctor;
      this.globalMethods := globalMethods;
      this.bodies := bodies;
      decryptedBytes := None;
      arrayField := None;
      decryptedField := None;
      initializer := None;
      canRemoveLzma := false;
      decrypters := [];
    }

    /** Once valid, `Detected` is "an initialiser was found and some decryptor was". */
    lemma DetectedMeansFound()
      requires Valid()
      ensures Detected() <==> initializer.Some? && |decrypters| > 0
    {
    }

    /**
     * `Find(MethodDef)`: on success the fields describe `m`; on any failure
     * (no initialiser, a throwing edit, run or decompression) nothing
     * changes.
     */
    method FindInitializer(m: MethodRef, run: Runner, decompress: Decompressor) returns (found: bool)
      requires Valid() && m in bodies
      modifies this
      ensures Valid() && bodies == old(bodies) && decrypters == old(decrypters)
      ensures found <==> DecryptInitializer(bodies[m], run, decompress).Some?
      ensures found ==> var init := DecryptInitializer(bodies[m], run, decompress).value;
                        arrayField == Some(init.arrayField) && decryptedField == Some(init.decryptedField)
                        && decryptedBytes == Some(init.blob) && initializer == Some(m) && canRemoveLzma
      ensures !found ==> unchanged(this)
    {
      var init := DecryptInitializerSteps(bodies[m], run, decompress);
      if init.None? {
        return false;
      }
      decryptedBytes := Some(init.value.blob);
      arrayField := Some(init.value.arrayField);
      decryptedField := Some(init.value.decryptedField);
      initializer := Some(m);
      canRemoveLzma := true;
      return true;
    }

    /**
     * `FindStringDecrypters` over `<Module>`'s methods: the sites, in
     * method order, each method's native site before its arithmetic one.
     */
    method FindStringDecrypters() returns (sites: seq<Site>)
      requires decryptedBytes.Some?
      modifies this`bodies
      ensures sites == ScanSites(old(bodies), globalMethods, |globalMethods|, decryptedBytes.value)
      ensures bodies == ScanBodies(old(bodies), globalMethods, |globalMethods|)
    {
      sites, bodies := ScanMethods(bodies, globalMethods, decryptedBytes.value);
    }

    /**
     * `Find()`: every static `void()` method definition with a body that the
     * module constructor calls, then the constructor itself, is tried as
     * the initialiser; each success appends the decryptors of `<Module>`.
     */
    method Find(run: Runner, decompress: Decompressor)
      requires Valid()
      modifies this
      ensures moduleCctor.Some? ==> State() == FindFold(old(State()), moduleCctor.value, globalMethods, run, decompress)
      ensures moduleCctor.Some? ==>
                var f := FindFold(old(State()), moduleCctor.value, globalMethods, run, decompress);
                (Detected() <==> f.initializer.Some? && |f.decrypters| > 0)
      ensures moduleCctor.None? ==> unchanged(this)
      ensures Valid()
      ensures bodies.Keys == old(bodies).Keys
      ensures old(decrypters) <= decrypters
      ensures forall k :: |old(decrypters)| <= k < |decrypters| ==> decrypters[k].decrypter in globalMethods
    {
      if moduleCctor.None? {
        return;
      }
      var cctor := moduleCctor.value;
      ghost var goal := TryCalls(State(), cctor, 0, globalMethods, run, decompress);
      var count := |bodies[cctor]|;
      var k := 0;
      while k < count
        invariant 0 <= k <= count
        invariant Valid() && cctor in bodies && |bodies[cctor]| == count
        invariant TryCalls(State(), cctor, k, globalMethods, run, decompress) == goal
      {
        var inst := bodies[cctor][k];
        if inst.op == Call && IsMethodDefOp(inst.operand) {
          var m := inst.operand.m;
          if m in bodies && m.isStatic && IsMethod(m, VoidSig, []) {
            TryAsInitializer(m, run, decompress);
          }
        }
        k := k + 1;
      }
      TryAsInitializer(cctor, run, decompress);
      FindFoldExtends(old(State()), cctor, globalMethods, run, decompress);
      DetectedMeansFound();
    }

    /** `if (Find(m)) Decrypters.AddRange(FindStringDecrypters(...))`. */
    method TryAsInitializer(m: MethodRef, run: Runner, decompress: Decompressor)
      requires Valid() && m in bodies
      modifies this
      ensures Valid()
      ensures State() == TryInitializer(old(State()), m, globalMethods, run, decompress)
    {
      var found := FindInitializer(m, run, decompress);
      if found {
        AppendDecrypters();
      }
    }

    /** `Decrypters.AddRange(FindStringDecrypters(...))`. */
    method AppendDecrypters()
      requires Valid() && decryptedBytes.Some?
      modifies this`bodies, this`decrypters
      ensures decrypters == old(decrypters) + ScanSites(old(bodies), globalMethods, |globalMethods|, decryptedBytes.value)
      ensures bodies == ScanBodies(old(bodies), globalMethods, |globalMethods|)
      ensures Valid() && SameShape(old(bodies), bodies)
      ensures old(decrypters) <= decrypters
      ensures forall j :: |old(decrypters)| <= j < |decrypters| ==> decrypters[j].decrypter in globalMethods
    {
      var sites := FindStringDecrypters();
      ScanKeepsShape(old(bodies), globalMethods, |globalMethods|);
      ScanSitesNameScanned(old(bodies), globalMethods, |globalMethods|, decryptedBytes.value);
      assert globalMethods[..|globalMethods|] == globalMethods;
      decrypters := decrypters + sites;
    }
  }
}
