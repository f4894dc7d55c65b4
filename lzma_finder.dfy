/**
 * LzmaFinder: locates ConfuserEx's LZMA decompressor among the methods of
 * `<Module>` and collects the nested types its code uses.
 */
module LzmaFinder {
  import opened IL

  /** A call shape: a member operand with this return type and these parameter types. */
  datatype CallShape = CallShape(ret: TypeSig, params: seq<TypeSig>)

  /**
   * The five shapes a decompressor calls: both MemoryStream constructors,
   * Stream.get_Length, Stream.Read and the decoder's Code.
   */
  const LzmaShapes: seq<CallShape> := [
    CallShape(VoidSig, [ByteArraySig, BoolSig]),
    CallShape(VoidSig, [ByteArraySig]),
    CallShape(Int64Sig, []),
    CallShape(Int32Sig, [ByteArraySig, Int32Sig, Int32Sig]),
    CallShape(VoidSig, [StreamSig, StreamSig, Int64Sig, Int64Sig])]

  predicate HasShape(ins: Instr, shape: CallShape) {
    OperandIsMethod(ins.operand, shape.ret, shape.params)
  }

  /** Some instruction of the body has an operand of this shape. */
  predicate SomeInstrHas(body: seq<Instr>, shape: CallShape) {
    exists k :: 0 <= k < |body| && HasShape(body[k], shape)
  }

  /** A decompressor body: at least 60 instructions and every shape somewhere, in any order. */
  predicate IsLzmaBody(body: seq<Instr>) {
    |body| >= 60 && forall s :: 0 <= s < |LzmaShapes| ==> SomeInstrHas(body, LzmaShapes[s])
  }

  /**
   * `IsLzmaMethod`: for each shape, a flag loop over the instructions; the
   * first shape no instruction has makes it false.
   */
  method IsLzmaMethod(body: seq<Instr>) returns (isLzma: bool)
    ensures isLzma <==> IsLzmaBody(body)
  {
    if |body| < 60 {
      return false;
    }
    var s := 0;
    while s < |LzmaShapes|
      invariant 0 <= s <= |LzmaShapes|
      invariant forall j :: 0 <= j < s ==> SomeInstrHas(body, LzmaShapes[j])
    {
      var flag := false;
      var k := 0;
      while k < |body|
        invariant 0 <= k <= |body|
        invariant flag <==> exists j :: 0 <= j < k && HasShape(body[j], LzmaShapes[s])
      {
        if HasShape(body[k], LzmaShapes[s]) {
          flag := true;
          break;
        }
        k := k + 1;
      }
      if !flag {
        assert !SomeInstrHas(body, LzmaShapes[s]);
        return false;
      }
      s := s + 1;
    }
    return true;
  }

  /** The filter of `Find`: a static `byte[](byte[])` method with a body. */
  predicate IsCandidate(m: MethodRef, bodies: Bodies) {
    m in bodies && m.isStatic && IsMethod(m, ByteArraySig, [ByteArraySig])
  }

  /** `IsNested` types declaring a method definition some body calls or names: the only types the collection can add. */
  function DeclaringTypesIn(bodies: Bodies): set<TypeRef> {
    set m, k | m in bodies && 0 <= k < |bodies[m]| && IsMethodDefOp(bodies[m][k].operand)
      :: bodies[m][k].operand.m.declType
  }

  predicate NoDuplicates(s: seq<TypeRef>) {
    forall i, j :: 0 <= i < j < |s| ==> s[i] != s[j]
  }

  /** Every nested declaring type of a method definition the body names is already collected. */
  predicate BodyCovered(body: seq<Instr>, types: seq<TypeRef>) {
    forall k :: 0 <= k < |body| && IsMethodDefOp(body[k].operand) && body[k].operand.m.declType.nested
      ==> body[k].operand.m.declType in types
  }

  /** Adding types never uncovers a body. */
  lemma BodyCoveredGrows(body: seq<Instr>, types: seq<TypeRef>, more: seq<TypeRef>)
    requires BodyCovered(body, types) && types <= more
    ensures BodyCovered(body, more)
  {
    forall k | 0 <= k < |body| && IsMethodDefOp(body[k].operand) && body[k].operand.m.declType.nested
      ensures body[k].operand.m.declType in more
    {
      var t := body[k].operand.m.declType;
      var j :| 0 <= j < |types| && types[j] == t;
      assert more[j] == t;
    }
  }

  lemma InGrows(x: TypeRef, a: seq<TypeRef>, b: seq<TypeRef>)
    requires x in a && a <= b
    ensures x in b
  {
    var j :| 0 <= j < |a| && a[j] == x;
    assert b[j] == x;
  }

  /** Collecting a new type of the finite universe shrinks what is left to collect. */
  lemma SmallerMeasure(universe: set<TypeRef>, start: seq<TypeRef>, before: seq<TypeRef>, x: TypeRef)
    requires start <= before && x in universe && x !in before
    ensures |universe - (set y | y in before + [x])| < |universe - (set y | y in start)|
  {
    var a := universe - (set y | y in start);
    var b := universe - (set y | y in before + [x]);
    forall y | y in b
      ensures y in a
    {
      if y in start {
        InGrows(y, start, before);
      }
    }
    var c := b + {x};
    assert c <= a;
    assert x !in b;
    assert |c| == |b| + 1;
    assert a == c + (a - c);
    assert c * (a - c) == {};
  }

  /** Collecting more types never leaves more to collect. */
  lemma RemainingShrinks(universe: set<TypeRef>, start: seq<TypeRef>, now: seq<TypeRef>)
    requires start <= now
    ensures |universe - (set y | y in now)| <= |universe - (set y | y in start)|
  {
    var a := universe - (set y | y in start);
    var b := universe - (set y | y in now);
    forall y | y in b
      ensures y in a
    {
      if y in start {
        InGrows(y, start, now);
      }
    }
    assert a == b + (a - b);
    assert b * (a - b) == {};
  }

  /** Where `Find` stops: the last `Method` stored, the types collected and the exception thrown, if any. */
  datatype FindOutcome = FindOutcome(lzma: Option<MethodRef>, types: seq<TypeRef>, error: Option<Exception>)

  /** The nested declaring types of method-definition operands before instruction k are collected. */
  predicate CoveredUpTo(body: seq<Instr>, k: nat, types: seq<TypeRef>)
    requires k <= |body|
  {
    forall k' :: 0 <= k' < k && IsMethodDefOp(body[k'].operand) && body[k'].operand.m.declType.nested
      ==> body[k'].operand.m.declType in types
  }

  /** Covering instruction k while collecting more keeps the earlier ones covered. */
  lemma CoveredUpToStep(body: seq<Instr>, k: nat, before: seq<TypeRef>, after: seq<TypeRef>)
    requires k < |body| && CoveredUpTo(body, k, before) && before <= after
    requires IsMethodDefOp(body[k].operand) && body[k].operand.m.declType.nested ==> body[k].operand.m.declType in after
    ensures CoveredUpTo(body, k + 1, after)
  {
    forall k' | 0 <= k' < k && IsMethodDefOp(body[k'].operand) && body[k'].operand.m.declType.nested
      ensures body[k'].operand.m.declType in after
    {
      InGrows(body[k'].operand.m.declType, before, after);
    }
  }

  class LzmaFinder {
    /** The methods of `<Module>`, or None when the module has no global type. */
    const moduleMethods: Option<seq<MethodRef>>
    /** The module's method bodies. */
    const bodies: Bodies
    /** `TypeDef.Methods` of every type definition. */
    const typeMethods: map<TypeRef, seq<MethodRef>>
    /** `Method`: the decompressor found last. */
    var lzmaMethod: Option<MethodRef>
    /** `Types`: the nested types collected so far. */
    var types: seq<TypeRef>

    constructor (moduleMethods: Option<seq<MethodRef>>, bodies: Bodies, typeMethods: map<TypeRef, seq<MethodRef>>)
      ensures this.moduleMethods == moduleMethods && this.bodies == bodies && this.typeMethods == typeMethods
      ensures lzmaMethod.None? && types == [] && !FoundLzma()
    {
      this.moduleMethods := moduleMethods;
      this.bodies := bodies;
      this.typeMethods := typeMethods;
      lzmaMethod := None;
      types := [];
    }

    predicate FoundLzma()
      reads this
    {
      lzmaMethod.Some? && |types| != 0
    }

    function MethodsOf(t: TypeRef): seq<MethodRef> {
      if t in typeMethods then typeMethods[t] else []
    }

    /** Every method of `t` with a body is covered. */
    predicate TypeCovered(t: TypeRef, types: seq<TypeRef>) {
      forall i :: 0 <= i < |MethodsOf(t)| && MethodsOf(t)[i] in bodies ==> BodyCovered(bodies[MethodsOf(t)[i]], types)
    }

    lemma TypeCoveredGrows(t: TypeRef, types: seq<TypeRef>, more: seq<TypeRef>)
      requires TypeCovered(t, types) && types <= more
      ensures TypeCovered(t, more)
    {
      forall i | 0 <= i < |MethodsOf(t)| && MethodsOf(t)[i] in bodies
        ensures BodyCovered(bodies[MethodsOf(t)[i]], more)
      {
        BodyCoveredGrows(bodies[MethodsOf(t)[i]], types, more);
      }
    }

    /** What the collection keeps: new types only at the end, each nested, named by some body, once, and covered. */
    predicate Collected(before: seq<TypeRef>, after: seq<TypeRef>) {
      before <= after && NoDuplicates(after)
      && (forall j :: |before| <= j < |after| ==> after[j].nested && after[j] in DeclaringTypesIn(bodies))
      && (forall j :: |before| <= j < |after| ==> TypeCovered(after[j], after))
    }

    lemma CollectedGrows(before: seq<TypeRef>, middle: seq<TypeRef>, after: seq<TypeRef>)
      requires Collected(before, middle) && Collected(middle, after)
      ensures Collected(before, after)
    {
      forall j | |before| <= j < |middle|
        ensures TypeCovered(after[j], after)
      {
        assert after[j] == middle[j];
        TypeCoveredGrows(middle[j], middle, after);
      }
    }

    /** Appending a covered type after a walk that covered it keeps the collection's properties. */
    lemma CollectedAfterVisit(start: seq<TypeRef>, before: seq<TypeRef>, x: TypeRef, after: seq<TypeRef>)
      requires Collected(start, before) && x.nested && x in DeclaringTypesIn(bodies) && x !in before
      requires Collected(before + [x], after) && TypeCovered(x, after)
      ensures Collected(start, after)
    {
      assert before <= after;
      forall i, j | 0 <= i < j < |after|
        ensures after[i] != after[j]
      {
      }
      forall j | |start| <= j < |after|
        ensures after[j].nested && after[j] in DeclaringTypesIn(bodies) && TypeCovered(after[j], after)
      {
        if j < |before| {
          assert after[j] == before[j];
          TypeCoveredGrows(before[j], before, after);
        } else if j == |before| {
          assert after[j] == x;
        }
      }
    }

    /** How many types of the finite universe are still to collect: the walks' termination measure. */
    function Remaining(types: seq<TypeRef>): nat {
      |DeclaringTypesIn(bodies) - (set x | x in types)|
    }

    /**
     * The types `ExtractNestedTypes(t)` leaves collected, from `types`: the
     * walk of `t`'s method bodies in order, depth first, each new nested
     * type appended before its own methods are walked.
     */
    function NestedFrom(t: TypeRef, types: seq<TypeRef>): (r: seq<TypeRef>)
      ensures types <= r
      decreases Remaining(types), 3, 0, 0
    {
      MethodsFrom(MethodsOf(t), 0, types)
    }

    /** The walk of the methods from position i on; methods without a body are skipped. */
    function MethodsFrom(methods: seq<MethodRef>, i: nat, types: seq<TypeRef>): (r: seq<TypeRef>)
      requires i <= |methods|
      ensures types <= r
      decreases Remaining(types), 2, |methods| - i, 0
    {
      if i == |methods| then types
      else if methods[i] in bodies then
        var after := BodyFrom(methods[i], 0, types);
        RemainingShrinks(DeclaringTypesIn(bodies), types, after);
        MethodsFrom(methods, i + 1, after)
      else MethodsFrom(methods, i + 1, types)
    }

    /** The walk of the body of m from instruction k on. */
    function BodyFrom(m: MethodRef, k: nat, types: seq<TypeRef>): (r: seq<TypeRef>)
      requires m in bodies && k <= |bodies[m]|
      ensures types <= r
      decreases Remaining(types), 1, |bodies[m]| - k, 1
    {
      if k == |bodies[m]| then types
      else
        var after := VisitFrom(m, k, types);
        RemainingShrinks(DeclaringTypesIn(bodies), types, after);
        BodyFrom(m, k + 1, after)
    }

    /** Instruction k of the body of m: a nested declaring type not yet collected is appended, then walked. */
    function VisitFrom(m: MethodRef, k: nat, types: seq<TypeRef>): (r: seq<TypeRef>)
      requires m in bodies && k < |bodies[m]|
      ensures types <= r
      decreases Remaining(types), 1, |bodies[m]| - k, 0
    {
      var operand := bodies[m][k].operand;
      if IsMethodDefOp(operand) && operand.m.declType.nested && operand.m.declType !in types then
        var x := operand.m.declType;
        assert x in DeclaringTypesIn(bodies);
        SmallerMeasure(DeclaringTypesIn(bodies), types, types, x);
        NestedFrom(x, types + [x])
      else types
    }

    /**
     * `ExtractNestedTypes`: walks the bodies of `t`'s methods. On return `t`
     * and every type added are covered, and nothing was added twice.
     */
    method ExtractNestedTypes(t: TypeRef)
      requires NoDuplicates(types)
      modifies this`types
      decreases Remaining(types), 2
      ensures types == NestedFrom(t, old(types))
      ensures Collected(old(types), types)
      ensures TypeCovered(t, types)
    {
      ghost var start := types;
      var methods := MethodsOf(t);
      var i := 0;
      while i < |methods|
        invariant 0 <= i <= |methods|
        invariant MethodsFrom(methods, i, types) == MethodsFrom(methods, 0, start)
        invariant Collected(start, types)
        invariant forall i' :: 0 <= i' < i && methods[i'] in bodies ==> BodyCovered(bodies[methods[i']], types)
      {
        if methods[i] in bodies {
          ghost var before := types;
          RemainingShrinks(DeclaringTypesIn(bodies), start, types);
          WalkBody(methods[i]);
          CollectedGrows(start, before, types);
          forall i' | 0 <= i' < i && methods[i'] in bodies
            ensures BodyCovered(bodies[methods[i']], types)
          {
            BodyCoveredGrows(bodies[methods[i']], before, types);
          }
        }
        i := i + 1;
      }
    }

    /**
     * The inner loop of `ExtractNestedTypes` over one body: each nested
     * declaring type of a method-definition operand not yet collected is
     * appended and walked at once.
     */
    method WalkBody(m: MethodRef)
      requires m in bodies && NoDuplicates(types)
      modifies this`types
      decreases Remaining(types), 1
      ensures types == BodyFrom(m, 0, old(types))
      ensures Collected(old(types), types)
      ensures BodyCovered(bodies[m], types)
    {
      ghost var start := types;
      var body := bodies[m];
      var k := 0;
      while k < |body|
        invariant 0 <= k <= |body|
        invariant BodyFrom(m, k, types) == BodyFrom(m, 0, start)
        invariant Collected(start, types)
        invariant CoveredUpTo(body, k, types)
      {
        ghost var before := types;
        RemainingShrinks(DeclaringTypesIn(bodies), start, types);
        VisitInstr(m, k);
        CollectedGrows(start, before, types);
        CoveredUpToStep(body, k, before, types);
        k := k + 1;
      }
    }

    /**
     * One step of that loop: instruction k of the body of m. A nested
     * declaring type not yet collected is appended and walked.
     */
    method VisitInstr(m: MethodRef, k: nat)
      requires m in bodies && k < |bodies[m]| && NoDuplicates(types)
      modifies this`types
      decreases Remaining(types), 0
      ensures types == VisitFrom(m, k, old(types))
      ensures Collected(old(types), types)
      ensures (IsMethodDefOp(bodies[m][k].operand) && bodies[m][k].operand.m.declType.nested)
              ==> bodies[m][k].operand.m.declType in types
    {
      var operand := bodies[m][k].operand;
      if IsMethodDefOp(operand) {
        var ntype := operand.m.declType;
        if ntype.nested && ntype !in types {
          ghost var before := types;
          assert ntype in DeclaringTypesIn(bodies);
          types := types + [ntype];
          SmallerMeasure(DeclaringTypesIn(bodies), before, before, ntype);
          ExtractNestedTypes(ntype);
          CollectedAfterVisit(before, before, ntype, types);
          assert types[|before|] == ntype;
        }
      }
    }

    /** The instruction names a method definition of a nested type. */
    predicate NamesNested(ins: Instr) {
      IsMethodDefOp(ins.operand) && ins.operand.m.declType.nested
    }

    /** Some instruction of some method of `t` with a body names a method definition of a nested type. */
    predicate TypeNamesNested(t: TypeRef) {
      exists i, k :: 0 <= i < |MethodsOf(t)| && MethodsOf(t)[i] in bodies && 0 <= k < |bodies[MethodsOf(t)[i]]|
                     && NamesNested(bodies[MethodsOf(t)[i]][k])
    }

    /** A body walk adds a type only through an instruction naming a nested type's method. */
    lemma {:induction false} BodyFromGrows(m: MethodRef, k: nat, types: seq<TypeRef>)
      requires m in bodies && k <= |bodies[m]|
      ensures BodyFrom(m, k, types) != types ==> exists k' :: k <= k' < |bodies[m]| && NamesNested(bodies[m][k'])
      decreases |bodies[m]| - k
    {
      if k < |bodies[m]| {
        var after := VisitFrom(m, k, types);
        BodyFromGrows(m, k + 1, after);
      }
    }

    /** A walk of methods adds a type only through a body naming a nested type's method. */
    lemma {:induction false} MethodsFromGrows(methods: seq<MethodRef>, i: nat, types: seq<TypeRef>)
      requires i <= |methods|
      ensures MethodsFrom(methods, i, types) != types ==>
                exists j, k :: i <= j < |methods| && methods[j] in bodies && 0 <= k < |bodies[methods[j]]| && NamesNested(bodies[methods[j]][k])
      decreases |methods| - i
    {
      if i < |methods| {
        if methods[i] in bodies {
          var after := BodyFrom(methods[i], 0, types);
          BodyFromGrows(methods[i], 0, types);
          MethodsFromGrows(methods, i + 1, after);
        } else {
          MethodsFromGrows(methods, i + 1, types);
        }
      }
    }

    /** A decompressor among `<Module>`'s methods: a candidate whose body has the LZMA shape. */
    predicate IsDecompressor(m: MethodRef) {
      IsCandidate(m, bodies) && IsLzmaBody(bodies[m])
    }

    /** The last decompressor among the first `n` methods. */
    function LastDecompressor(ms: seq<MethodRef>, n: nat): (r: Option<MethodRef>)
      requires n <= |ms|
      ensures r.Some? ==> IsDecompressor(r.value) && r.value in ms[..n]
      ensures r.None? <==> forall j :: 0 <= j < n ==> !IsDecompressor(ms[j])
    {
      if n == 0 then None
      else if IsDecompressor(ms[n - 1]) then Some(ms[n - 1])
      else LastDecompressor(ms, n - 1)
    }

    /** The type `Find` walks for a decompressor: the declaring type of the method definition at instruction 3. */
    predicate HasHelperCall(m: MethodRef)
      requires IsDecompressor(m)
    {
      IsMethodDefOp(bodies[m][3].operand)
    }

    /**
     * `Find`'s loop from position i of `<Module>`'s methods on: each
     * decompressor is stored as `Method` and the declaring type of its
     * instruction-3 method definition walked; the first whose instruction 3
     * is no method definition stops the loop with the cast's exception.
     */
    function FindFrom(ms: seq<MethodRef>, i: nat, lzma: Option<MethodRef>, types: seq<TypeRef>): (r: FindOutcome)
      requires i <= |ms|
      ensures types <= r.types
      decreases |ms| - i
    {
      if i == |ms| then FindOutcome(lzma, types, None)
      else if !IsDecompressor(ms[i]) then FindFrom(ms, i + 1, lzma, types)
      else
        var operand := bodies[ms[i]][3].operand;
        if operand.NoOperand? then FindOutcome(Some(ms[i]), types, Some(NullReference))
        else if !IsMethodDefOp(operand) then FindOutcome(Some(ms[i]), types, Some(InvalidCast))
        else FindFrom(ms, i + 1, Some(ms[i]), NestedFrom(operand.m.declType, types))
    }

    /** The type `Find` walks for a decompressor. */
    function HelperType(m: MethodRef): TypeRef
      requires IsDecompressor(m) && HasHelperCall(m)
    {
      bodies[m][3].operand.m.declType
    }

    /** `Find`'s loop adds a type only by walking a decompressor's helper type that names a nested type's method. */
    lemma {:induction false} FindFromGrows(ms: seq<MethodRef>, i: nat, lzma: Option<MethodRef>, types: seq<TypeRef>)
      requires i <= |ms|
      ensures FindFrom(ms, i, lzma, types).types != types ==>
                exists j :: i <= j < |ms| && IsDecompressor(ms[j]) && HasHelperCall(ms[j]) && TypeNamesNested(HelperType(ms[j]))
      decreases |ms| - i
    {
      if i < |ms| {
        if !IsDecompressor(ms[i]) {
          FindFromGrows(ms, i + 1, lzma, types);
        } else if HasHelperCall(ms[i]) {
          var t := HelperType(ms[i]);
          var after := NestedFrom(t, types);
          MethodsFromGrows(MethodsOf(t), 0, types);
          FindFromGrows(ms, i + 1, Some(ms[i]), after);
        }
      }
    }

    /**
     * `FoundLzma` from what a whole run of `Find` from a fresh finder
     * leaves: types only from walks of helper types naming a nested type's
     * method, `Method` set exactly when there is a decompressor, and every
     * helper type covered. It then holds exactly when some decompressor's
     * helper type has a method body naming a nested type's method.
     */
    lemma FoundLzmaExactly(ms: seq<MethodRef>, lzma: Option<MethodRef>, types: seq<TypeRef>)
      requires types != [] ==>
                 exists j :: 0 <= j < |ms| && IsDecompressor(ms[j]) && HasHelperCall(ms[j]) && TypeNamesNested(HelperType(ms[j]))
      requires lzma.None? <==> forall j :: 0 <= j < |ms| ==> !IsDecompressor(ms[j])
      requires forall j :: 0 <= j < |ms| && IsDecompressor(ms[j]) ==> HasHelperCall(ms[j]) && TypeCovered(HelperType(ms[j]), types)
      ensures lzma.Some? && |types| != 0 <==>
                exists j :: 0 <= j < |ms| && IsDecompressor(ms[j]) && HasHelperCall(ms[j]) && TypeNamesNested(HelperType(ms[j]))
    {
      if exists j :: 0 <= j < |ms| && IsDecompressor(ms[j]) && HasHelperCall(ms[j]) && TypeNamesNested(HelperType(ms[j])) {
        var j :| 0 <= j < |ms| && IsDecompressor(ms[j]) && HasHelperCall(ms[j]) && TypeNamesNested(HelperType(ms[j]));
        CoveredNamesCollected(HelperType(ms[j]), types);
      }
    }

    /** A covered type that names a nested type's method leaves something collected. */
    lemma CoveredNamesCollected(t: TypeRef, types: seq<TypeRef>)
      requires TypeCovered(t, types) && TypeNamesNested(t)
      ensures |types| != 0
    {
      var i, k :| 0 <= i < |MethodsOf(t)| && MethodsOf(t)[i] in bodies && 0 <= k < |bodies[MethodsOf(t)[i]]|
                  && NamesNested(bodies[MethodsOf(t)[i]][k]);
      var body := bodies[MethodsOf(t)[i]];
      assert BodyCovered(body, types);
      assert body[k].operand.m.declType in types;
    }

    /**
     * `Find`: every decompressor of `<Module>` in turn becomes `Method` and
     * has the declaring type of its instruction-3 method walked; the last
     * one stays in `Method`. A decompressor whose instruction 3 is no method
     * definition has already been stored when the cast fails.
     */
    method Find() returns (r: Result<()>)
      requires NoDuplicates(types)
      modifies this`lzmaMethod, this`types
      ensures moduleMethods.None? ==> r.Ok? && unchanged(this)
      ensures moduleMethods.Some? ==>
                var f := FindFrom(moduleMethods.value, 0, old(lzmaMethod), old(types));
                lzmaMethod == f.lzma && types == f.types && (if f.error.None? then r.Ok? else r == Throws(f.error.value))
      ensures moduleMethods.Some? && r.Ok? && old(lzmaMethod).None? && old(types) == [] ==>
                (FoundLzma() <==> exists j :: 0 <= j < |moduleMethods.value| && IsDecompressor(moduleMethods.value[j])
                                              && HasHelperCall(moduleMethods.value[j]) && TypeNamesNested(HelperType(moduleMethods.value[j])))
      ensures Collected(old(types), types)
      ensures moduleMethods.Some? && r.Ok? ==>
                (forall j :: 0 <= j < |moduleMethods.value| && IsDecompressor(moduleMethods.value[j])
                   ==> HasHelperCall(moduleMethods.value[j])
                       && TypeCovered(bodies[moduleMethods.value[j]][3].operand.m.declType, types))
      ensures moduleMethods.Some? && r.Ok? ==>
                lzmaMethod == if LastDecompressor(moduleMethods.value, |moduleMethods.value|).Some?
                              then LastDecompressor(moduleMethods.value, |moduleMethods.value|)
                              else old(lzmaMethod)
      ensures r.Throws? ==> moduleMethods.Some? && lzmaMethod.Some? && lzmaMethod.value in moduleMethods.value
                            && IsDecompressor(lzmaMethod.value) && !HasHelperCall(lzmaMethod.value)
      ensures r.Throws? ==> r.error == if bodies[lzmaMethod.value][3].operand.NoOperand? then NullReference else InvalidCast
    {
      if moduleMethods.None? {
        return Ok(());
      }
      var ms := moduleMethods.value;
      var i := 0;
      while i < |ms|
        invariant 0 <= i <= |ms|
        invariant FindFrom(ms, i, lzmaMethod, types) == FindFrom(ms, 0, old(lzmaMethod), old(types))
        invariant Collected(old(types), types)
        invariant lzmaMethod == if LastDecompressor(ms, i).Some? then LastDecompressor(ms, i) else old(lzmaMethod)
        invariant forall j :: 0 <= j < i && IsDecompressor(ms[j])
                    ==> HasHelperCall(ms[j]) && TypeCovered(bodies[ms[j]][3].operand.m.declType, types)
      {
        ghost var before := types;
        r := VisitMethod(ms[i]);
        CollectedGrows(old(types), before, types);
        if r.Throws? {
          return;
        }
        forall j | 0 <= j < i && IsDecompressor(ms[j])
          ensures TypeCovered(bodies[ms[j]][3].operand.m.declType, types)
        {
          TypeCoveredGrows(bodies[ms[j]][3].operand.m.declType, before, types);
        }
        i := i + 1;
      }
      if old(lzmaMethod).None? && old(types) == [] {
        FindFromGrows(ms, 0, None, []);
        FoundLzmaExactly(ms, lzmaMethod, types);
      }
      return Ok(());
    }

    /**
     * One method of `Find`'s loop: a decompressor becomes `Method` and the
     * declaring type of its instruction-3 method definition is walked.
     */
    method VisitMethod(m: MethodRef) returns (r: Result<()>)
      requires NoDuplicates(types)
      modifies this`lzmaMethod, this`types
      ensures Collected(old(types), types)
      ensures r.Ok? ==> lzmaMethod == if IsDecompressor(m) then Some(m) else old(lzmaMethod)
      ensures r.Ok? && IsDecompressor(m) ==> HasHelperCall(m) && TypeCovered(bodies[m][3].operand.m.declType, types)
      ensures r.Ok? && IsDecompressor(m) ==> types == NestedFrom(bodies[m][3].operand.m.declType, old(types))
      ensures (r.Ok? && !IsDecompressor(m)) || r.Throws? ==> types == old(types)
      ensures r.Throws? ==> lzmaMethod == Some(m) && IsDecompressor(m) && !HasHelperCall(m)
                            && r.error == if bodies[m][3].operand.NoOperand? then NullReference else InvalidCast
    {
      if m in bodies && m.isStatic && IsMethod(m, ByteArraySig, [ByteArraySig]) {
        var isLzma := IsLzmaMethod(bodies[m]);
        if isLzma {
          lzmaMethod := Some(m);
          var operand := bodies[m][3].operand;
          if operand.NoOperand? {
            return Throws(NullReference);
          }
          if !IsMethodDefOp(operand) {
            return Throws(InvalidCast);
          }
          ExtractNestedTypes(operand.m.declType);
        }
      }
      return Ok(());
    }
  }
}
