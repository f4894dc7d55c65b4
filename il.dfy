/**
 * The flattened instruction view shared by every ConfuserEx pass: a method
 * body is a sequence of instructions, each an opcode tag plus an abstract
 * operand (an int constant, a field, a method with its signature and flags,
 * a method instantiation or a type signature).
 */
module IL {

  datatype Option<+T> = None | Some(value: T)

  /** The .NET exceptions the modelled code can raise. */
  datatype Exception =
    | ArgumentOutOfRange   // List/Array/BitConverter index outside the collection
    | Argument             // BitConverter/BlockCopy range running past the end
    | Overflow             // new byte[n] with n < 0
    | InvalidOperation     // Nullable<int>.Value on a null key
    | InvalidCast          // (MethodDef) cast of another operand kind
    | NullReference        // member access on a null reference
    | ArgumentNull         // a null string handed to int.Parse
    | Format               // int.Parse of text that is no number

  datatype Result<+T> = Ok(value: T) | Throws(error: Exception) {
    predicate IsFailure() { Throws? }
    function PropagateFailure<U>(): Result<U> requires Throws? { Throws(error) }
    function Extract(): T requires Ok? { value }
  }

  const MinInt32: int := -0x8000_0000
  const MaxInt32: int := 0x7FFF_FFFF
  type Int32 = x: int | MinInt32 <= x <= MaxInt32
  /** A byte of a blob or a field's initial value. */
  newtype byte = x: int | 0 <= x < 256

  /** The C# conversion `(uint)x` of an int32: the same 32 bits. */
  function ToBits(x: Int32): bv32 {
    if x < 0 then (x + 0x1_0000_0000) as bv32 else x as bv32
  }

  /** The C# conversion `(int)u` of a uint: the same 32 bits read as two's complement. */
  function ToInt32(u: bv32): (r: Int32)
    ensures r >= 0 <==> u as int <= MaxInt32
    ensures r >= 0 ==> r == u as int
    ensures r < 0 ==> r == u as int - 0x1_0000_0000
  {
    if u as int <= MaxInt32 then u as int else u as int - 0x1_0000_0000
  }

  /** Unchecked C# int arithmetic: wrap a mathematical integer into int32. */
  function Wrap32(x: int): (r: Int32)
    ensures (r - x) % 0x1_0000_0000 == 0
    ensures MinInt32 <= x <= MaxInt32 ==> r == x
  {
    var m := (x - MinInt32) % 0x1_0000_0000;
    m + MinInt32
  }

  /** dnlib's ElementType, the tag of a type signature. */
  datatype ElementType =
    | End | Void | Boolean | Char | I1 | U1 | I2 | U2 | I4 | U4 | I8 | U8 | R4 | R8
    | String | Object | I | U | Ptr | ByRef | ValueType | Class | Var | MVar
    | SZArray | Array | GenericInst | Pinned | CModReqd | CModOpt

  /** Named types the patterns look for; every other type is Defined(id). */
  datatype TypeName =
    | ModuleType            // `<Module>`, the module's global type
    | SystemArray | SystemType | RuntimeFieldHandle | RuntimeTypeHandle
    | Stream | Assembly
    | Defined(id: nat)

  /** A reference to a type definition; `nested` is dnlib's IsNested. */
  datatype TypeRef = TypeRef(name: TypeName, nested: bool)

  /** A generic parameter of a method: its owner and its number. */
  datatype GenericParam = GenericParam(owner: nat, number: nat)

  datatype TypeSig =
    | CorLib(etype: ElementType)                 // Void, Boolean, I1 … R8, String, Object, I, U
    | ClassSig(t: TypeRef)
    | ValueTypeSig(t: TypeRef)
    | GenericInstSig(generic: TypeRef, args: seq<TypeSig>)
    | GenericVar(number: nat)
    | GenericMVar(gp: GenericParam)
    | SZArraySig(next: TypeSig)
    | ArraySig(next: TypeSig, rank: nat)
    | PtrSig(next: TypeSig)
    | ByRefSig(next: TypeSig)
    | PinnedSig(next: TypeSig)
    | CModReqdSig(next: TypeSig)
    | CModOptSig(next: TypeSig)
  {
    /** dnlib's `TypeSig.Next`: the wrapped signature of a non-leaf signature. */
    predicate HasNext() {
      SZArraySig? || ArraySig? || PtrSig? || ByRefSig? || PinnedSig? || CModReqdSig? || CModOptSig?
    }
  }

  function GetElementType(t: TypeSig): ElementType {
    match t
    case CorLib(e) => e
    case ClassSig(_) => Class
    case ValueTypeSig(_) => ValueType
    case GenericInstSig(_, _) => GenericInst
    case GenericVar(_) => Var
    case GenericMVar(_) => MVar
    case SZArraySig(_) => SZArray
    case ArraySig(_, _) => Array
    case PtrSig(_) => Ptr
    case ByRefSig(_) => ByRef
    case PinnedSig(_) => Pinned
    case CModReqdSig(_) => CModReqd
    case CModOptSig(_) => CModOpt
  }

  /** dnlib's `RemovePinnedAndModifiers`: strip leading pinned and custom-modifier wrappers. */
  function RemovePinnedAndModifiers(t: TypeSig): (r: TypeSig)
    ensures !r.PinnedSig? && !r.CModReqdSig? && !r.CModOptSig?
  {
    match t
    case PinnedSig(n) => RemovePinnedAndModifiers(n)
    case CModReqdSig(n) => RemovePinnedAndModifiers(n)
    case CModOptSig(n) => RemovePinnedAndModifiers(n)
    case _ => t
  }

  /** True when a type or method generic parameter occurs anywhere inside `t`. */
  predicate ContainsGenericParameter(t: TypeSig) {
    match t
    case GenericVar(_) => true
    case GenericMVar(_) => true
    case GenericInstSig(_, args) => exists k :: 0 <= k < |args| && ContainsGenericParameter(args[k])
    case CorLib(_) => false
    case ClassSig(_) => false
    case ValueTypeSig(_) => false
    case SZArraySig(n) => ContainsGenericParameter(n)
    case ArraySig(n, _) => ContainsGenericParameter(n)
    case PtrSig(n) => ContainsGenericParameter(n)
    case ByRefSig(n) => ContainsGenericParameter(n)
    case PinnedSig(n) => ContainsGenericParameter(n)
    case CModReqdSig(n) => ContainsGenericParameter(n)
    case CModOptSig(n) => ContainsGenericParameter(n)
  }

  datatype MethodSig = MethodSig(ret: TypeSig, params: seq<TypeSig>, genParamCount: nat)

  predicate SigContainsGenericParameter(s: MethodSig) {
    ContainsGenericParameter(s.ret) || exists k :: 0 <= k < |s.params| && ContainsGenericParameter(s.params[k])
  }

  /**
   * The runtime members the patterns recognise by full name; every other
   * member is Named(id).
   */
  datatype MemberName =
    | EncodingGetUTF8 | EncodingGetString | ArrayCreateInstance | StringIntern
    | BufferBlockCopy | TypeGetTypeFromHandle | TypeGetElementType
    | Int32Parse
    | Named(id: nat)

  /**
   * A method operand. `isDef` distinguishes a MethodDef of this module from a
   * MemberRef; `id` is the object's identity.
   */
  datatype MethodRef = MethodRef(
    id: nat, isDef: bool, declType: TypeRef, name: MemberName, sig: MethodSig,
    isStatic: bool, isNative: bool)

  /** dnlib's `MethodDef.Parameters.Count`: declared parameters plus the hidden `this`. */
  function ParamCount(m: MethodRef): nat {
    |m.sig.params| + if m.isStatic then 0 else 1
  }

  /** The bodies of a module's method definitions; a definition without a body is absent. */
  type Bodies = map<MethodRef, seq<Instr>>

  datatype FieldName = EmptyTypes | FieldNamed(id: nat)

  datatype FieldRef = FieldRef(
    id: nat, isDef: bool, declType: TypeRef, name: FieldName, initialValue: seq<byte>)

  /** A generic method instantiation `m<args>`. */
  datatype MethodSpec = MethodSpec(target: MethodRef, genArgs: seq<TypeSig>)

  /** dnlib's `ResolveMethodDef`: the definition behind a method instantiation, if it is in this module. */
  function ResolveMethodDef(ms: MethodSpec): Option<MethodRef> {
    if ms.target.isDef then Some(ms.target) else None
  }

  datatype OpCode =
    | Nop | Ret | Ldarg | Starg | Ldloc | Stloc | Ldloca
    | LdcI4 | LdcI8 | LdcR4 | LdcR8 | Ldstr | Ldnull
    | Call | Callvirt | Newobj | Newarr | Initobj
    | Dup | Pop | Ldtoken | Ldsfld | Stsfld | Ldfld | Stfld | Ldlen
    | Add | Sub | Mul | Xor | And | Or | Shl | Shr | ShrUn | RemUn
    | Br | Brtrue | Brfalse | Switch
    | OtherOp(code: nat)

  /**
   * An instruction operand. A type token is kept as the type signature it
   * stands for: a class, value-type or core-library signature is a
   * TypeDef/TypeRef token, any other signature a TypeSpec. CtorOp is the `.ctor` member reference
   * that MiscInliner synthesises for `new T()`.
   */
  datatype Operand =
    | NoOperand
    | IntOp(i: Int32)
    | ArgOp(index: int)
    | LocalOp(local: nat)
    | StrOp(s: string)
    | FieldOp(f: FieldRef)
    | MethodOp(m: MethodRef)
    | SpecOp(spec: MethodSpec)
    | TypeOp(t: TypeSig)
    | CtorOp(owner: TypeSig, generic: bool)
    | RealOp(bits: nat)

  datatype Instr = Instr(op: OpCode, operand: Operand)

  // ---- instruction predicates of dnlib -------------------------------------

  predicate IsLdcI4(ins: Instr) { ins.op == LdcI4 }
  predicate IsLdarg(ins: Instr) { ins.op == Ldarg }
  predicate IsStarg(ins: Instr) { ins.op == Starg }
  predicate IsStloc(ins: Instr) { ins.op == Stloc }

  /**
   * `GetLdcI4Value`. Every ldc.i4 form is one tag here, with its constant as
   * an int operand; an ldc.i4 without one does not arise and reads as 0.
   */
  function LdcI4Value(ins: Instr): Int32
    requires IsLdcI4(ins)
  {
    if ins.operand.IntOp? then ins.operand.i else 0
  }

  /** `GetParameterIndex` of an ldarg: -1 when there is no parameter operand. */
  function ParameterIndex(ins: Instr): int {
    if ins.operand.ArgOp? then ins.operand.index else -1
  }

  /** `operand is IMethod`: a method reference or a method instantiation. */
  function AsIMethod(o: Operand): Option<MethodRef> {
    match o
    case MethodOp(m) => Some(m)
    case SpecOp(s) => Some(s.target)
    case _ => None
  }

  /** `operand is MethodDef`. */
  predicate IsMethodDefOp(o: Operand) {
    o.MethodOp? && o.m.isDef
  }

  /**
   * `operand is TypeSpec`: a type token that is neither a plain class, a
   * plain value type nor a core-library type, all three of which are
   * TypeDef or TypeRef tokens.
   */
  predicate IsTypeSpecOp(o: Operand) {
    o.TypeOp? && !o.t.ClassSig? && !o.t.ValueTypeSig? && !o.t.CorLib?
  }

  /** `operand is IMemberRef`: a field, method, method instantiation or type token. */
  predicate IsMemberRefOp(o: Operand) {
    o.FieldOp? || o.MethodOp? || o.SpecOp? || o.TypeOp? || o.CtorOp?
  }

  /** `operand is FieldDef`. */
  predicate IsFieldDefOp(o: Operand) {
    o.FieldOp? && o.f.isDef
  }

  /** `DotNetUtils.IsMethod(im, ret, params)`: the return and parameter types match. */
  predicate IsMethod(m: MethodRef, ret: TypeSig, params: seq<TypeSig>) {
    m.sig.ret == ret && m.sig.params == params
  }

  /** `operand is IMethod im && IsMethod(im, ret, params)`. */
  predicate OperandIsMethod(o: Operand, ret: TypeSig, params: seq<TypeSig>) {
    AsIMethod(o).Some? && IsMethod(AsIMethod(o).value, ret, params)
  }

  /** A call, callvirt or newobj of the member. */
  predicate IsCallOf(ins: Instr, name: MemberName) {
    ins.op in {Call, Callvirt, Newobj} && AsIMethod(ins.operand).Some? && AsIMethod(ins.operand).value.name == name
  }

  /** `DotNetUtils.CallsMethod(body, fullName)`: some instruction calls that member. */
  predicate CallsMethod(body: seq<Instr>, name: MemberName) {
    exists k :: 0 <= k < |body| && IsCallOf(body[k], name)
  }

  // ---- signatures the patterns compare against ------------------------------

  const VoidSig: TypeSig := CorLib(Void)
  const Int32Sig: TypeSig := CorLib(I4)
  const Int64Sig: TypeSig := CorLib(I8)
  const BoolSig: TypeSig := CorLib(Boolean)
  const ObjectSig: TypeSig := CorLib(Object)
  const ByteArraySig: TypeSig := SZArraySig(CorLib(U1))
  const ArrayClassSig: TypeSig := ClassSig(TypeRef(SystemArray, false))
  const FieldHandleSig: TypeSig := ValueTypeSig(TypeRef(RuntimeFieldHandle, false))
  const TypeHandleSig: TypeSig := ValueTypeSig(TypeRef(RuntimeTypeHandle, false))
  const TypeClassSig: TypeSig := ClassSig(TypeRef(SystemType, false))
  const StreamSig: TypeSig := ClassSig(TypeRef(Stream, false))
  const AssemblySig: TypeSig := ClassSig(TypeRef(Assembly, false))

  /** The ldarg.0 and ret instructions the IL surgery inserts. */
  const LdargZero: Instr := Instr(Ldarg, ArgOp(0))
  const RetInstr: Instr := Instr(Ret, NoOperand)
}
