/**
 * TypesRestorer: when every call site of a generic method instantiates a
 * generic parameter with the same type, that type is written back into
 * the method (return, locals, parameters, type tokens), over at most
 * twenty rounds; the parameter and the matching call-site arguments are
 * then removed.
 */
module TypesRestorer {
  import opened IL

  // ---- Specify over one generic parameter ------------------------------------

  /** An array wrapper on the way from a signature to its element: `T[]` or `T[,…]` of a rank. */
  datatype Wrapper = SZ | Arr(rank: nat)

  /** The array wrappers around a signature, outermost first. */
  function ArraySpine(t: TypeSig): seq<Wrapper> {
    match t
    case SZArraySig(n) => [SZ] + ArraySpine(n)
    case ArraySig(n, rank) => [Arr(rank)] + ArraySpine(n)
    case _ => []
  }

  /** What is left of a signature once its array wrappers are removed. */
  function ArrayBase(t: TypeSig): (r: TypeSig)
    ensures !r.SZArraySig? && !r.ArraySig?
  {
    match t
    case SZArraySig(n) => ArrayBase(n)
    case ArraySig(n, _) => ArrayBase(n)
    case _ => t
  }

  /** The signature with these array wrappers around a base. */
  function Rebuild(ws: seq<Wrapper>, base: TypeSig): TypeSig
    decreases |ws|
  {
    if |ws| == 0 then base
    else
      match ws[0]
      case SZ => SZArraySig(Rebuild(ws[1..], base))
      case Arr(rank) => ArraySig(Rebuild(ws[1..], base), rank)
  }

  /** Every signature is its array wrappers around its base. */
  lemma {:induction false} SpineRebuild(t: TypeSig)
    ensures Rebuild(ArraySpine(t), ArrayBase(t)) == t
  {
    match t
    case SZArraySig(n) =>
      SpineRebuild(n);
      assert ([SZ] + ArraySpine(n))[1..] == ArraySpine(n);
    case ArraySig(n, rank) =>
      SpineRebuild(n);
      assert ([Arr(rank)] + ArraySpine(n))[1..] == ArraySpine(n);
    case _ =>
  }

  /**
   * The wrappers as the restorer rebuilds them: a rank-1 array becomes a
   * single-dimension array and any other array is rebuilt by dnlib's
   * one-argument ArraySig constructor, which leaves the rank at 0.
   */
  function Rebuilt(ws: seq<Wrapper>): (r: seq<Wrapper>)
    ensures |r| == |ws|
    ensures forall k :: 0 <= k < |ws| ==> r[k] == (if ws[k] == SZ || ws[k] == Arr(1) then SZ else Arr(0))
  {
    seq(|ws|, k requires 0 <= k < |ws| => if ws[k] == SZ || ws[k] == Arr(1) then SZ else Arr(0))
  }

  /**
   * `Specify(type, gp, hint)`: the type with `gp` replaced by `hint`, which
   * succeeds only when `gp` sits at the end of a chain of array wrappers;
   * any other wrapper (PtrSig, ByRefSig, pinned, modifier) or a `gp` nested
   * in a generic instance makes it fail.
   */
  function Specify(t: TypeSig, gp: GenericParam, hint: TypeSig): (r: Option<TypeSig>)
    ensures r.Some? <==> ArrayBase(t) == GenericMVar(gp)
    ensures r.Some? ==> r.value == Rebuild(Rebuilt(ArraySpine(t)), hint)
  {
    if t == GenericMVar(gp) then Some(hint)
    else if t.HasNext() then
      match Specify(t.next, gp, hint)
      case None => None
      case Some(inner) =>
        if t.ArraySig? then
          assert Rebuilt(ArraySpine(t))[1..] == Rebuilt(ArraySpine(t.next));
          if t.rank == 1 then Some(SZArraySig(inner)) else Some(ArraySig(inner, 0))
        else if t.SZArraySig? then
          assert Rebuilt(ArraySpine(t))[1..] == Rebuilt(ArraySpine(t.next));
          Some(SZArraySig(inner))
        else None
    else None
  }

  /** A multi-dimensional array of `gp` comes back with rank 0. */
  lemma SpecifyDropsRank(gp: GenericParam, hint: TypeSig, rank: nat)
    requires rank != 1
    ensures Specify(ArraySig(GenericMVar(gp), rank), gp, hint) == Some(ArraySig(hint, 0))
  {
    assert Rebuilt([Arr(rank)]) == [Arr(0)];
  }

  // ---- the observed instantiations of a generic method -------------------------

  /** One generic parameter with the distinct type arguments seen for it. */
  datatype SigList = SigList(key: GenericParam, sigs: seq<TypeSig>)

  /**
   * `Relation` (the source's nested class `Call`): a generic method (an index into the module's methods), the
   * methods that instantiate it, and per generic parameter the arguments
   * seen.
   */
  datatype Relation = Relation(callee: nat, caller: seq<nat>, callerSigs: seq<SigList>)

  /** A generic parameter with exactly one observed argument, which the restorer may substitute. */
  predicate Single(sl: SigList) {
    |sl.sigs| == 1
  }

  /** The first substitution that succeeds, over the first `n` parameters with one observed argument. */
  function FirstSpecify(t: TypeSig, sigs: seq<SigList>, n: nat): Option<TypeSig>
    requires n <= |sigs|
    decreases n
  {
    if n == 0 then None
    else
      match FirstSpecify(t, sigs, n - 1)
      case Some(x) => Some(x)
      case None =>
        if Single(sigs[n - 1]) then Specify(t, sigs[n - 1].key, sigs[n - 1].sigs[0]) else None
  }

  /**
   * The search fails exactly when every parameter with one observed
   * argument fails, and a success is one of those substitutions.
   */
  lemma {:induction false} FirstSpecifyMeaning(t: TypeSig, sigs: seq<SigList>, n: nat)
    requires n <= |sigs|
    ensures FirstSpecify(t, sigs, n).None? <==> forall k :: 0 <= k < n && Single(sigs[k]) ==> Specify(t, sigs[k].key, sigs[k].sigs[0]).None?
    ensures FirstSpecify(t, sigs, n).Some? ==> exists k :: 0 <= k < n && Single(sigs[k]) && Specify(t, sigs[k].key, sigs[k].sigs[0]) == FirstSpecify(t, sigs, n)
    decreases n
  {
    if n > 0 {
      FirstSpecifyMeaning(t, sigs, n - 1);
    }
  }

  /** The substitution of a whole relation, tried over all its parameters. */
  function SpecifyIn(t: TypeSig, sigs: seq<SigList>): Option<TypeSig> {
    FirstSpecify(t, sigs, |sigs|)
  }

  /**
   * `Specify(type, relation)`: the parameters with one observed argument
   * are tried in order and the first success is the answer.
   */
  method SpecifyRelation(t: TypeSig, sigs: seq<SigList>) returns (r: Option<TypeSig>)
    ensures r == SpecifyIn(t, sigs)
  {
    var i := 0;
    while i < |sigs|
      invariant 0 <= i <= |sigs|
      invariant FirstSpecify(t, sigs, i) == None
    {
      if Single(sigs[i]) {
        var result := Specify(t, sigs[i].key, sigs[i].sigs[0]);
        if result.Some? {
          FirstSpecifyFrom(t, sigs, i + 1, |sigs|);
          return result;
        }
      }
      i := i + 1;
    }
    return None;
  }

  /**
   * The answer is the substitution of the first parameter with one
   * observed argument for which it succeeds.
   */
  lemma {:induction false} FirstSpecifyIsFirst(t: TypeSig, sigs: seq<SigList>, n: nat, k: nat)
    requires k < n <= |sigs| && Single(sigs[k]) && Specify(t, sigs[k].key, sigs[k].sigs[0]).Some?
    requires forall j :: 0 <= j < k && Single(sigs[j]) ==> Specify(t, sigs[j].key, sigs[j].sigs[0]).None?
    ensures FirstSpecify(t, sigs, n) == Specify(t, sigs[k].key, sigs[k].sigs[0])
    decreases n
  {
    if k < n - 1 {
      FirstSpecifyIsFirst(t, sigs, n - 1, k);
      assert FirstSpecify(t, sigs, n - 1).Some?;
    } else {
      FirstSpecifyMeaning(t, sigs, n - 1);
    }
  }

  /** Once a prefix succeeds, longer prefixes give the same answer. */
  lemma {:induction false} FirstSpecifyFrom(t: TypeSig, sigs: seq<SigList>, n: nat, m: nat)
    requires n <= m <= |sigs| && FirstSpecify(t, sigs, n).Some?
    ensures FirstSpecify(t, sigs, m) == FirstSpecify(t, sigs, n)
    decreases m - n
  {
    if n < m {
      FirstSpecifyFrom(t, sigs, n, m - 1);
    }
  }

  // ---- Cleaned and the removals it drives ------------------------------------

  /** The indices below n of parameters with one observed argument, highest first. */
  function Singles(sigs: seq<SigList>, n: nat): (r: seq<nat>)
    requires n <= |sigs|
    ensures forall k :: k in r <==> 0 <= k < n && Single(sigs[k])
    ensures forall a, b :: 0 <= a < b < |r| ==> r[a] > r[b]
    decreases n
  {
    if n == 0 then []
    else
      var rest := Singles(sigs, n - 1);
      if Single(sigs[n - 1]) then
        assert forall b :: 0 <= b < |rest| ==> rest[b] in rest;
        [n - 1] + rest
      else rest
  }

  /** The same indices lowest first, as `Cleaned` collects them before reversing. */
  function Ascending(sigs: seq<SigList>, n: nat): seq<nat>
    requires n <= |sigs|
    decreases n
  {
    if n == 0 then []
    else if Single(sigs[n - 1]) then Ascending(sigs, n - 1) + [n - 1]
    else Ascending(sigs, n - 1)
  }

  /** `List.Reverse`. */
  function Reverse<T>(s: seq<T>): (r: seq<T>)
    ensures |r| == |s| && forall k :: 0 <= k < |s| ==> r[k] == s[|s| - 1 - k]
    decreases |s|
  {
    if |s| == 0 then [] else [s[|s| - 1]] + Reverse(s[..|s| - 1])
  }

  lemma {:induction false} ReverseAscending(sigs: seq<SigList>, n: nat)
    requires n <= |sigs|
    ensures Reverse(Ascending(sigs, n)) == Singles(sigs, n)
    decreases n
  {
    if n > 0 {
      ReverseAscending(sigs, n - 1);
      var a := Ascending(sigs, n - 1);
      if Single(sigs[n - 1]) {
        var s := a + [n - 1];
        assert Ascending(sigs, n) == s;
        assert Reverse(s) == [n - 1] + Reverse(a) by {
          assert s[..|s| - 1] == a;
        }
        assert Singles(sigs, n) == [n - 1] + Singles(sigs, n - 1);
      } else {
        assert Ascending(sigs, n) == a;
        assert Singles(sigs, n) == Singles(sigs, n - 1);
      }
    }
  }

  /**
   * `Call.Cleaned`: the parameters with exactly one observed argument,
   * collected upwards and then reversed, so strictly descending.
   */
  method Cleaned(sigs: seq<SigList>) returns (list: seq<nat>)
    ensures list == Singles(sigs, |sigs|)
    ensures forall k :: k in list <==> 0 <= k < |sigs| && |sigs[k].sigs| == 1
    ensures forall a, b :: 0 <= a < b < |list| ==> list[a] > list[b]
  {
    list := [];
    var i := 0;
    while i < |sigs|
      invariant 0 <= i <= |sigs|
      invariant list == Ascending(sigs, i)
    {
      if |sigs[i].sigs| == 1 {
        list := list + [i];
      }
      i := i + 1;
    }
    ReverseAscending(sigs, |sigs|);
    list := Reverse(list);
  }

  /** `List.RemoveAt`. */
  function RemoveAt<T>(xs: seq<T>, k: nat): (r: Result<seq<T>>)
    ensures r.Ok? <==> k < |xs|
  {
    if k < |xs| then Ok(xs[..k] + xs[k + 1..]) else Throws(ArgumentOutOfRange)
  }

  /** `RemoveAt` of each index in turn. */
  function RemoveEach<T>(xs: seq<T>, idx: seq<nat>): Result<seq<T>>
    decreases |idx|
  {
    if |idx| == 0 then Ok(xs)
    else
      match RemoveAt(xs, idx[0])
      case Throws(e) => Throws(e)
      case Ok(ys) => RemoveEach(ys, idx[1..])
  }

  /** The elements whose positions are not in `drop`, in order. */
  function Without<T>(xs: seq<T>, drop: set<nat>): (r: seq<T>)
    ensures |r| <= |xs|
    decreases |xs|
  {
    if |xs| == 0 then []
    else Without(xs[..|xs| - 1], drop) + if |xs| - 1 in drop then [] else [xs[|xs| - 1]]
  }

  /** Positions from m on are kept when nothing there is dropped. */
  lemma {:induction false} WithoutTail<T>(xs: seq<T>, drop: set<nat>, m: nat)
    requires m <= |xs| && forall k :: k in drop ==> k < m
    ensures Without(xs, drop) == Without(xs[..m], drop) + xs[m..]
    decreases |xs|
  {
    if |xs| > m {
      var p := xs[..|xs| - 1];
      WithoutTail(p, drop, m);
      assert p[..m] == xs[..m];
      assert p[m..] + [xs[|xs| - 1]] == xs[m..];
    } else {
      assert xs[..m] == xs;
    }
  }

  /** Dropping a position beyond the end changes nothing. */
  lemma {:induction false} WithoutBeyond<T>(xs: seq<T>, drop: set<nat>, k: nat)
    requires k >= |xs|
    ensures Without(xs, drop + {k}) == Without(xs, drop)
    decreases |xs|
  {
    if |xs| > 0 {
      WithoutBeyond(xs[..|xs| - 1], drop, k);
    }
  }

  /** The indices of a list, as a set. */
  function Elements(idx: seq<nat>): (r: set<nat>)
    ensures forall k :: k in r <==> k in idx
  {
    set k | k in idx
  }

  /**
   * Removing strictly descending in-range indices one at a time never
   * shifts an index still to be removed: no removal fails, and the result
   * keeps exactly the other positions.
   */
  lemma {:induction false} RemoveDescending<T>(xs: seq<T>, idx: seq<nat>)
    requires forall a :: 0 <= a < |idx| ==> idx[a] < |xs|
    requires forall a, b :: 0 <= a < b < |idx| ==> idx[a] > idx[b]
    ensures RemoveEach(xs, idx) == Ok(Without(xs, Elements(idx)))
    decreases |idx|
  {
    var drop := Elements(idx);
    if |idx| == 0 {
      assert drop == {};
      WithoutTail(xs, drop, 0);
      assert xs[..0] == [] && xs[0..] == xs;
      assert Without(xs[..0], drop) == [];
      assert RemoveEach(xs, idx) == Ok(xs);
      assert Without(xs, drop) == [] + xs;
      assert Without(xs, drop) == xs;
    } else {
      var k := idx[0];
      var ys := xs[..k] + xs[k + 1..];
      var rest := Elements(idx[1..]);
      assert drop == rest + {k};
      assert forall a :: 0 <= a < |idx[1..]| ==> idx[1..][a] < k;
      RemoveDescending(ys, idx[1..]);
      // the rest lies below k: both sides agree on the prefix before k
      WithoutTail(ys, rest, k);
      assert ys[..k] == xs[..k] && ys[k..] == xs[k + 1..];
      WithoutTail(xs, drop, k + 1);
      assert xs[..k + 1][..k] == xs[..k];
      WithoutBeyond(xs[..k], rest, k);
      assert Without(xs[..k + 1], drop) == Without(xs[..k], drop);
    }
  }

  /** The removal loop of `RestoreSignature` and `RestoreCallers`. */
  method RemoveAll<T>(xs: seq<T>, idx: seq<nat>) returns (r: Result<seq<T>>)
    ensures r == RemoveEach(xs, idx)
  {
    var ys := xs;
    var i := 0;
    while i < |idx|
      invariant 0 <= i <= |idx|
      invariant RemoveEach(xs, idx) == RemoveEach(ys, idx[i..])
    {
      assert idx[i..][1..] == idx[i + 1..];
      if idx[i] >= |ys| {
        return Throws(ArgumentOutOfRange);
      }
      ys := ys[..idx[i]] + ys[idx[i] + 1..];
      i := i + 1;
    }
    return Ok(ys);
  }

  // ---- the module's methods and FindAllGenericMethods ---------------------------

  datatype Body = Body(locals: seq<TypeSig>, instrs: seq<Instr>)

  /**
   * A method definition of the module: its identity, declaring type and
   * generic parameters, and the signatures and body the restorer rewrites.
   */
  datatype MethodDefn = MethodDefn(
    id: nat, declType: TypeRef, genericParams: seq<GenericParam>,
    ret: TypeSig, params: seq<TypeSig>, body: Option<Body>)

  /** The definition an instantiation resolves to is the method with this identity. */
  predicate Instantiates(ms: MethodSpec, id: nat) {
    ResolveMethodDef(ms).Some? && ResolveMethodDef(ms).value.id == id
  }

  /** The filter of `FindAllGenericMethods`: generic, and not declared in the module's global type. */
  predicate IsRestorable(d: MethodDefn) {
    |d.genericParams| > 0 && d.declType.name != ModuleType
  }

  /** A new relation for method k: no callers yet, and no arguments seen for any parameter. */
  function FreshCall(k: nat, d: MethodDefn): (c: Relation)
    ensures c.callee == k && c.caller == [] && |c.callerSigs| == |d.genericParams|
    ensures forall i :: 0 <= i < |d.genericParams| ==> c.callerSigs[i] == SigList(d.genericParams[i], [])
  {
    Relation(k, [], seq(|d.genericParams|, i requires 0 <= i < |d.genericParams| => SigList(d.genericParams[i], [])))
  }

  /**
   * `FindAllGenericMethods` over the first n methods: one fresh relation
   * per restorable method, in module order.
   */
  function GenericCalls(defs: seq<MethodDefn>, n: nat): (r: seq<Relation>)
    requires n <= |defs|
    ensures forall j :: 0 <= j < |r| ==> r[j].callee < n && IsRestorable(defs[r[j].callee])
                                          && r[j] == FreshCall(r[j].callee, defs[r[j].callee])
    ensures forall a, b :: 0 <= a < b < |r| ==> r[a].callee < r[b].callee
    decreases n
  {
    if n == 0 then []
    else
      var r := GenericCalls(defs, n - 1);
      if IsRestorable(defs[n - 1]) then
        var s := r + [FreshCall(n - 1, defs[n - 1])];
        assert forall j :: 0 <= j < |r| ==> s[j] == r[j];
        s
      else r
  }

  /** Every restorable method among the first n has its relation. */
  lemma {:induction false} GenericCallsComplete(defs: seq<MethodDefn>, n: nat, k: nat)
    requires k < n <= |defs| && IsRestorable(defs[k])
    ensures exists j :: 0 <= j < |GenericCalls(defs, n)| && GenericCalls(defs, n)[j].callee == k
    decreases n
  {
    var r := GenericCalls(defs, n - 1);
    if k == n - 1 {
      assert GenericCalls(defs, n)[|r|].callee == k;
    } else {
      GenericCallsComplete(defs, n - 1, k);
      var j :| 0 <= j < |r| && r[j].callee == k;
      if IsRestorable(defs[n - 1]) {
        assert GenericCalls(defs, n)[j] == r[j];
      } else {
        assert GenericCalls(defs, n) == r;
      }
      assert GenericCalls(defs, n)[j].callee == k;
    }
  }

  /** Every relation names methods of the module, as callee and as callers. */
  predicate CallsIn(defs: seq<MethodDefn>, calls: seq<Relation>) {
    forall j :: 0 <= j < |calls| ==>
      calls[j].callee < |defs| && forall i :: 0 <= i < |calls[j].caller| ==> calls[j].caller[i] < |defs|
  }

  /** The same relations for the same methods and parameters, whatever was recorded in them. */
  predicate SameShape(a: seq<Relation>, b: seq<Relation>) {
    |a| == |b| && forall j :: 0 <= j < |a| ==>
      a[j].callee == b[j].callee && |a[j].callerSigs| == |b[j].callerSigs|
      && forall i :: 0 <= i < |a[j].callerSigs| ==> a[j].callerSigs[i].key == b[j].callerSigs[i].key
  }

  predicate NoDuplicates<T(==)>(s: seq<T>) {
    forall a, b :: 0 <= a < b < |s| ==> s[a] != s[b]
  }

  /** No relation lists a caller twice or an argument twice for one parameter. */
  predicate Deduplicated(calls: seq<Relation>) {
    forall j :: 0 <= j < |calls| ==>
      NoDuplicates(calls[j].caller)
      && forall i :: 0 <= i < |calls[j].callerSigs| ==> NoDuplicates(calls[j].callerSigs[i].sigs)
  }

  // ---- ScanGenericRelation ---------------------------------------------------

  /** `Contains`, then `Add` when absent. */
  function Added<T(==)>(xs: seq<T>, x: T): (r: seq<T>)
    ensures xs <= r && x in r && |r| <= |xs| + 1
    ensures x in xs ==> r == xs
    ensures NoDuplicates(xs) ==> NoDuplicates(r)
  {
    if x in xs then xs else xs + [x]
  }

  /**
   * The argument loop: argument i is recorded for parameter i; an
   * instantiation with more arguments than the method has parameters
   * runs off the end of the list.
   */
  function Recorded(sigs: seq<SigList>, args: seq<TypeSig>): (r: Result<seq<SigList>>)
    ensures r.Ok? <==> |args| <= |sigs|
  {
    if |args| > |sigs| then Throws(ArgumentOutOfRange)
    else Ok(seq(|sigs|, i requires 0 <= i < |sigs| =>
              SigList(sigs[i].key, if i < |args| then Added(sigs[i].sigs, args[i]) else sigs[i].sigs)))
  }

  /** The first relation, among the first n, whose method the instantiation resolves to; -1 when there is none. */
  function FirstCall(defs: seq<MethodDefn>, calls: seq<Relation>, ms: MethodSpec, n: nat): (r: int)
    requires n <= |calls| && CallsIn(defs, calls)
    ensures -1 <= r < n
    ensures r >= 0 ==> Instantiates(ms, defs[calls[r].callee].id)
                        && forall j :: 0 <= j < r ==> !Instantiates(ms, defs[calls[j].callee].id)
    ensures r == -1 <==> forall j :: 0 <= j < n ==> !Instantiates(ms, defs[calls[j].callee].id)
    decreases n
  {
    if n == 0 then -1
    else
      var p := FirstCall(defs, calls, ms, n - 1);
      if p >= 0 then p
      else if Instantiates(ms, defs[calls[n - 1].callee].id) then n - 1
      else -1
  }

  /**
   * One instantiation met in method k: the first relation of its method
   * records k as a caller and each argument for its parameter; an
   * instantiation of no relation's method records nothing.
   */
  function RecordSpec(defs: seq<MethodDefn>, calls: seq<Relation>, k: nat, ms: MethodSpec): (r: Result<seq<Relation>>)
    requires CallsIn(defs, calls) && k < |defs|
    ensures r.Ok? ==> SameShape(calls, r.value) && CallsIn(defs, r.value)
    ensures r.Ok? && Deduplicated(calls) ==> Deduplicated(r.value)
  {
    var j := FirstCall(defs, calls, ms, |calls|);
    if j < 0 then Ok(calls)
    else
      var c := calls[j];
      var sigs :- Recorded(c.callerSigs, ms.genArgs);
      var r := calls[j := Relation(c.callee, Added(c.caller, k), sigs)];
      assert forall i :: 0 <= i < |r[j].caller| ==> r[j].caller[i] in Added(c.caller, k);
      Ok(r)
  }

  /** The instruction loop of `ScanGenericRelation` in method k, from instruction i on. */
  function ScanInstrs(defs: seq<MethodDefn>, calls: seq<Relation>, k: nat, instrs: seq<Instr>, i: nat): (r: Result<seq<Relation>>)
    requires CallsIn(defs, calls) && k < |defs| && i <= |instrs|
    ensures r.Ok? ==> SameShape(calls, r.value) && CallsIn(defs, r.value)
    ensures r.Ok? && Deduplicated(calls) ==> Deduplicated(r.value)
    decreases |instrs| - i
  {
    if i == |instrs| then Ok(calls)
    else if instrs[i].operand.SpecOp? then
      var c :- RecordSpec(defs, calls, k, instrs[i].operand.spec);
      ScanInstrs(defs, c, k, instrs, i + 1)
    else ScanInstrs(defs, calls, k, instrs, i + 1)
  }

  /** `ScanGenericRelation` from method k of the module on; methods without a body are skipped. */
  function ScanDefs(defs: seq<MethodDefn>, calls: seq<Relation>, k: nat): (r: Result<seq<Relation>>)
    requires CallsIn(defs, calls) && k <= |defs|
    ensures r.Ok? ==> SameShape(calls, r.value) && CallsIn(defs, r.value)
    ensures r.Ok? && Deduplicated(calls) ==> Deduplicated(r.value)
    decreases |defs| - k
  {
    if k == |defs| then Ok(calls)
    else
      match defs[k].body
      case None => ScanDefs(defs, calls, k + 1)
      case Some(b) =>
        var c :- ScanInstrs(defs, calls, k, b.instrs, 0);
        ScanDefs(defs, c, k + 1)
  }

  // ---- RestoreTypes ----------------------------------------------------------

  /** A signature after `Specify`: the substitution when one succeeds, the signature itself otherwise. */
  function Retyped(t: TypeSig, sigs: seq<SigList>): TypeSig {
    match SpecifyIn(t, sigs)
    case Some(r) => r
    case None => t
  }

  /** Each signature of a list (locals, parameters) after `Specify`. */
  function RetypedAll(ts: seq<TypeSig>, sigs: seq<SigList>): (r: seq<TypeSig>)
    ensures |r| == |ts| && forall k :: 0 <= k < |ts| ==> r[k] == Retyped(ts[k], sigs)
  {
    seq(|ts|, k requires 0 <= k < |ts| => Retyped(ts[k], sigs))
  }

  /** Some signature of the list has a substitution. */
  predicate AnyRetyped(ts: seq<TypeSig>, sigs: seq<SigList>) {
    exists k :: 0 <= k < |ts| && SpecifyIn(ts[k], sigs).Some?
  }

  /** A type token whose type has a substitution. */
  predicate TokenRetyped(ins: Instr, sigs: seq<SigList>) {
    ins.operand.TypeOp? && SpecifyIn(ins.operand.t, sigs).Some?
  }

  /** An instruction after `RestoreCallees`: a type token takes its substituted type. */
  function RetypedInstr(ins: Instr, sigs: seq<SigList>): Instr {
    if TokenRetyped(ins, sigs) then Instr(ins.op, TypeOp(SpecifyIn(ins.operand.t, sigs).value)) else ins
  }

  function RetypedInstrs(s: seq<Instr>, sigs: seq<SigList>): (r: seq<Instr>)
    ensures |r| == |s| && forall k :: 0 <= k < |s| ==> r[k] == RetypedInstr(s[k], sigs)
  {
    seq(|s|, k requires 0 <= k < |s| => RetypedInstr(s[k], sigs))
  }

  predicate AnyTokenRetyped(s: seq<Instr>, sigs: seq<SigList>) {
    exists k :: 0 <= k < |s| && TokenRetyped(s[k], sigs)
  }

  /** A method after one round of `RestoreTypes`, and whether anything was substituted. */
  datatype Restoration = Restoration(d: MethodDefn, changed: bool)

  /**
   * `RestoreTypes` on one method: return type, locals, parameters and type
   * tokens each take their substitution. The locals are read only when
   * there is a body, as `RestoreCallees` already does for the tokens.
   */
  function RestoredMethod(d: MethodDefn, sigs: seq<SigList>): (r: Restoration)
    ensures r.d.id == d.id && r.d.declType == d.declType && r.d.genericParams == d.genericParams
    ensures r.d.body.Some? == d.body.Some?
    ensures r.d.ret == Retyped(d.ret, sigs) && r.d.params == RetypedAll(d.params, sigs)
    ensures !r.changed ==> r.d == d
  {
    var body := match d.body
      case None => None
      case Some(b) => Some(Body(RetypedAll(b.locals, sigs), RetypedInstrs(b.instrs, sigs)));
    var changed := SpecifyIn(d.ret, sigs).Some?
      || (d.body.Some? && AnyRetyped(d.body.value.locals, sigs))
      || AnyRetyped(d.params, sigs)
      || (d.body.Some? && AnyTokenRetyped(d.body.value.instrs, sigs));
    assert !changed ==> RetypedAll(d.params, sigs) == d.params;
    assert !changed && d.body.Some? ==> RetypedAll(d.body.value.locals, sigs) == d.body.value.locals;
    assert !changed && d.body.Some? ==> RetypedInstrs(d.body.value.instrs, sigs) == d.body.value.instrs;
    Restoration(MethodDefn(d.id, d.declType, d.genericParams, Retyped(d.ret, sigs), RetypedAll(d.params, sigs), body), changed)
  }

  /**
   * The same step as written: the locals are read through `Body` with no
   * body check, which throws for a generic method without a body
   * (abstract, interface or extern).
   */
  function RestoredMethodAsWritten(d: MethodDefn, sigs: seq<SigList>): (r: Result<Restoration>)
    ensures r.Throws? <==> d.body.None?
  {
    if d.body.None? then Throws(NullReference) else Ok(RestoredMethod(d, sigs))
  }

  /**
   * A restorable method without a body has a relation in every round, so
   * `RestoreTypes` as written reaches it and throws.
   */
  lemma BodilessGenericThrows(defs: seq<MethodDefn>, k: nat)
    requires k < |defs| && IsRestorable(defs[k]) && defs[k].body.None?
    ensures exists j :: 0 <= j < |GenericCalls(defs, |defs|)| && GenericCalls(defs, |defs|)[j].callee == k
    ensures forall sigs :: RestoredMethodAsWritten(defs[k], sigs) == Throws(NullReference)
  {
    GenericCallsComplete(defs, |defs|, k);
  }

  /**
   * The corrected step never throws: a method without a body keeps no
   * body and still has its return type and parameters restored, and a
   * method with a body is restored exactly as written.
   */
  lemma RestoredMethodTotal(d: MethodDefn, sigs: seq<SigList>)
    ensures d.body.None? ==> RestoredMethod(d, sigs).d.body.None?
                             && RestoredMethod(d, sigs).d.ret == Retyped(d.ret, sigs)
                             && RestoredMethod(d, sigs).d.params == RetypedAll(d.params, sigs)
    ensures d.body.Some? ==> RestoredMethodAsWritten(d, sigs) == Ok(RestoredMethod(d, sigs))
  {
  }

  /** The methods after `RestoreTypes` over the first n relations, and whether any changed. */
  datatype Restored = Restored(defs: seq<MethodDefn>, changed: bool)

  function RestoreAll(defs: seq<MethodDefn>, calls: seq<Relation>, n: nat): (r: Restored)
    requires n <= |calls| && CallsIn(defs, calls)
    ensures |r.defs| == |defs| && CallsIn(r.defs, calls)
    ensures !r.changed ==> r.defs == defs
    decreases n
  {
    if n == 0 then Restored(defs, false)
    else
      var p := RestoreAll(defs, calls, n - 1);
      var c := calls[n - 1];
      var m := RestoredMethod(p.defs[c.callee], c.callerSigs);
      Restored(p.defs[c.callee := m.d], p.changed || m.changed)
  }

  /** Restoring keeps every method's identity, generic parameters and whether it has a body. */
  lemma {:induction false} RestoreAllKeeps(defs: seq<MethodDefn>, calls: seq<Relation>, n: nat, k: nat)
    requires n <= |calls| && CallsIn(defs, calls) && k < |defs|
    ensures var r := RestoreAll(defs, calls, n);
            r.defs[k].id == defs[k].id && r.defs[k].genericParams == defs[k].genericParams
            && r.defs[k].body.Some? == defs[k].body.Some?
    decreases n
  {
    if n > 0 {
      RestoreAllKeeps(defs, calls, n - 1, k);
    }
  }

  /** The loop of `RestoreTypes`: each relation's method in turn, with whether anything changed. */
  method RestoreEach(defs: seq<MethodDefn>, calls: seq<Relation>) returns (ds: seq<MethodDefn>, changed: bool)
    requires CallsIn(defs, calls)
    ensures RestoreAll(defs, calls, |calls|) == Restored(ds, changed)
  {
    ds, changed := defs, false;
    var j := 0;
    while j < |calls|
      invariant 0 <= j <= |calls|
      invariant RestoreAll(defs, calls, j) == Restored(ds, changed)
    {
      var c := calls[j];
      var m := RestoreMethod(ds[c.callee], c.callerSigs);
      ds := ds[c.callee := m.d];
      changed := changed || m.changed;
      j := j + 1;
    }
  }

  // ---- the rounds of Deobfuscate ------------------------------------------------

  /** One round: fresh relations, the scan, then `RestoreTypes`. */
  datatype RoundResult = RoundResult(calls: seq<Relation>, defs: seq<MethodDefn>, changed: bool)

  function Round(defs: seq<MethodDefn>): (r: Result<RoundResult>)
    ensures r.Ok? ==> |r.value.defs| == |defs| && CallsIn(r.value.defs, r.value.calls)
    ensures r.Ok? && !r.value.changed ==> r.value.defs == defs
  {
    var calls :- ScanDefs(defs, GenericCalls(defs, |defs|), 0);
    var restored := RestoreAll(defs, calls, |calls|);
    Ok(RoundResult(calls, restored.defs, restored.changed))
  }

  /**
   * A loop of rounds with `fuel` rounds left: it stops after the first
   * round that changes nothing, or when the rounds run out.
   */
  function Iterate(step: seq<MethodDefn> -> Result<RoundResult>, defs: seq<MethodDefn>, fuel: nat): (r: Result<RoundResult>)
    requires fuel >= 1
    ensures r.Ok? ==> exists d :: step(d) == r
    decreases fuel
  {
    var rr :- step(defs);
    if !rr.changed || fuel == 1 then Ok(rr) else Iterate(step, rr.defs, fuel - 1)
  }

  /** How many rounds that loop runs. */
  function IterateCount(step: seq<MethodDefn> -> Result<RoundResult>, defs: seq<MethodDefn>, fuel: nat): (r: nat)
    requires fuel >= 1
    ensures 1 <= r <= fuel
    decreases fuel
  {
    match step(defs)
    case Throws(_) => 1
    case Ok(rr) => if !rr.changed || fuel == 1 then 1 else 1 + IterateCount(step, rr.defs, fuel - 1)
  }

  /**
   * For rounds that leave the methods alone whenever they report no
   * change, a loop that stops before its last round leaves a fixed point:
   * one more round gives the same result again.
   */
  lemma {:induction false} IterateSettles(step: seq<MethodDefn> -> Result<RoundResult>, defs: seq<MethodDefn>, fuel: nat)
    requires forall d :: step(d).Ok? && !step(d).value.changed ==> step(d).value.defs == d
    requires fuel >= 1 && Iterate(step, defs, fuel).Ok? && IterateCount(step, defs, fuel) < fuel
    ensures !Iterate(step, defs, fuel).value.changed
    ensures step(Iterate(step, defs, fuel).value.defs) == Iterate(step, defs, fuel)
    decreases fuel
  {
    var rr := step(defs).value;
    if rr.changed {
      IterateSettles(step, rr.defs, fuel - 1);
    }
  }

  /** The most rounds `Deobfuscate` runs. */
  const MaxRounds: nat := 20

  /** `Deobfuscate`'s loop: at most `fuel` rounds. */
  function Rounds(defs: seq<MethodDefn>, fuel: nat): (r: Result<RoundResult>)
    requires fuel >= 1
    ensures r.Ok? ==> CallsIn(r.value.defs, r.value.calls)
  {
    Iterate(Round, defs, fuel)
  }

  /** One round of a loop of rounds, then the rest of it. */
  lemma IterateUnfold(step: seq<MethodDefn> -> Result<RoundResult>, defs: seq<MethodDefn>, fuel: nat)
    requires fuel >= 1
    ensures step(defs).Throws? ==> Iterate(step, defs, fuel) == Throws(step(defs).error)
    ensures step(defs).Ok? && (!step(defs).value.changed || fuel == 1) ==> Iterate(step, defs, fuel) == step(defs)
    ensures step(defs).Ok? && step(defs).value.changed && fuel > 1
            ==> Iterate(step, defs, fuel) == Iterate(step, step(defs).value.defs, fuel - 1)
  {
  }

  /**
   * When that loop stops before its last round, the methods it leaves are
   * a fixed point: one more round would find the same relations and
   * change nothing.
   */
  lemma RoundsSettle(defs: seq<MethodDefn>, fuel: nat)
    requires fuel >= 1 && Rounds(defs, fuel).Ok? && IterateCount(Round, defs, fuel) < fuel
    ensures !Rounds(defs, fuel).value.changed
    ensures Round(Rounds(defs, fuel).value.defs) == Rounds(defs, fuel)
  {
    IterateSettles(Round, defs, fuel);
  }

  // ---- Cleanup ----------------------------------------------------------------

  /** `RestoreSignature`: the method loses, highest first, the parameters with one observed argument. */
  function RestoredSignature(defs: seq<MethodDefn>, c: Relation): (r: Result<seq<MethodDefn>>)
    requires c.callee < |defs|
    ensures r.Ok? ==> |r.value| == |defs|
  {
    var d := defs[c.callee];
    var gps :- RemoveEach(d.genericParams, Singles(c.callerSigs, |c.callerSigs|));
    Ok(defs[c.callee := d.(genericParams := gps)])
  }

  /**
   * When the relation has one entry per generic parameter, as a fresh
   * relation does, the removal cannot fail and keeps exactly the
   * parameters seen with several arguments or none.
   */
  lemma SignatureLosesSingles(defs: seq<MethodDefn>, c: Relation)
    requires c.callee < |defs| && |c.callerSigs| == |defs[c.callee].genericParams|
    ensures RestoredSignature(defs, c)
            == Ok(defs[c.callee := defs[c.callee].(genericParams :=
                    Without(defs[c.callee].genericParams, Elements(Singles(c.callerSigs, |c.callerSigs|))))])
  {
    var cleaned := Singles(c.callerSigs, |c.callerSigs|);
    assert forall a :: 0 <= a < |cleaned| ==> cleaned[a] in cleaned;
    RemoveDescending(defs[c.callee].genericParams, cleaned);
  }

  /**
   * `RestoreCallers` on one instruction: an instantiation of the restored
   * method loses the cleaned arguments, and once none are left the operand
   * is the method itself.
   */
  function StrippedInstr(ins: Instr, id: nat, cleaned: seq<nat>): (r: Result<Instr>)
    ensures r.Ok? ==> r.value.op == ins.op
    ensures !(ins.operand.SpecOp? && Instantiates(ins.operand.spec, id)) ==> r == Ok(ins)
  {
    if ins.operand.SpecOp? && Instantiates(ins.operand.spec, id) then
      var ms := ins.operand.spec;
      var args :- RemoveEach(ms.genArgs, cleaned);
      if |args| == 0 then Ok(Instr(ins.op, MethodOp(ResolveMethodDef(ms).value)))
      else Ok(Instr(ins.op, SpecOp(MethodSpec(ms.target, args))))
    else Ok(ins)
  }

  /**
   * An instantiation with one argument per generic parameter keeps exactly
   * the arguments of the parameters that stay, and becomes a plain call
   * when every parameter had one observed argument.
   */
  lemma CallSiteLosesSingles(ins: Instr, id: nat, sigs: seq<SigList>)
    requires ins.operand.SpecOp? && Instantiates(ins.operand.spec, id)
    requires |ins.operand.spec.genArgs| == |sigs|
    ensures var kept := Without(ins.operand.spec.genArgs, Elements(Singles(sigs, |sigs|)));
            StrippedInstr(ins, id, Singles(sigs, |sigs|))
            == Ok(if |kept| == 0 then Instr(ins.op, MethodOp(ins.operand.spec.target))
                  else Instr(ins.op, SpecOp(MethodSpec(ins.operand.spec.target, kept))))
    ensures (forall i :: 0 <= i < |sigs| ==> Single(sigs[i]))
            ==> StrippedInstr(ins, id, Singles(sigs, |sigs|)) == Ok(Instr(ins.op, MethodOp(ins.operand.spec.target)))
  {
    var args := ins.operand.spec.genArgs;
    var cleaned := Singles(sigs, |sigs|);
    assert forall a :: 0 <= a < |cleaned| ==> cleaned[a] in cleaned;
    RemoveDescending(args, cleaned);
    if forall i :: 0 <= i < |sigs| ==> Single(sigs[i]) {
      WithoutAll(args, Elements(cleaned));
    }
  }

  /** Dropping every position leaves nothing. */
  lemma {:induction false} WithoutAll<T>(xs: seq<T>, drop: set<nat>)
    requires forall k :: 0 <= k < |xs| ==> k in drop
    ensures Without(xs, drop) == []
    decreases |xs|
  {
    if |xs| > 0 {
      WithoutAll(xs[..|xs| - 1], drop);
    }
  }

  /** The instruction loop of `RestoreCallers` in one caller, from instruction i on. */
  function StrippedInstrs(s: seq<Instr>, id: nat, cleaned: seq<nat>, i: nat): (r: Result<seq<Instr>>)
    requires i <= |s|
    ensures r.Ok? <==> forall j :: i <= j < |s| ==> StrippedInstr(s[j], id, cleaned).Ok?
    ensures r.Ok? ==> |r.value| == |s| && r.value[..i] == s[..i]
                      && forall j :: i <= j < |s| ==> StrippedInstr(s[j], id, cleaned) == Ok(r.value[j])
    decreases |s| - i
  {
    if i == |s| then Ok(s)
    else
      var ins :- StrippedInstr(s[i], id, cleaned);
      var t := s[i := ins];
      assert forall j :: i < j < |s| ==> t[j] == s[j];
      var r := StrippedInstrs(t, id, cleaned, i + 1);
      assert r.Ok? ==> r.value[..i] == r.value[..i + 1][..i] == t[..i] == s[..i] && r.value[i] == t[i];
      r
  }

  /** `RestoreCallers` from the relation's i-th caller on; callers without a body are skipped. */
  function RestoredCallers(defs: seq<MethodDefn>, c: Relation, i: nat): (r: Result<seq<MethodDefn>>)
    requires i <= |c.caller| && forall j :: 0 <= j < |c.caller| ==> c.caller[j] < |defs|
    requires c.callee < |defs|
    ensures r.Ok? ==> |r.value| == |defs|
    decreases |c.caller| - i
  {
    if i == |c.caller| then Ok(defs)
    else
      var k := c.caller[i];
      match defs[k].body
      case None => RestoredCallers(defs, c, i + 1)
      case Some(b) =>
        var instrs :- StrippedInstrs(b.instrs, defs[c.callee].id, Singles(c.callerSigs, |c.callerSigs|), 0);
        RestoredCallers(defs[k := defs[k].(body := Some(Body(b.locals, instrs)))], c, i + 1)
  }

  /** `Cleanup` from the i-th relation on: each restores the signature, then the callers. */
  function CleanupAll(defs: seq<MethodDefn>, calls: seq<Relation>, i: nat): (r: Result<seq<MethodDefn>>)
    requires i <= |calls| && CallsIn(defs, calls)
    ensures r.Ok? ==> |r.value| == |defs|
    decreases |calls| - i
  {
    if i == |calls| then Ok(defs)
    else
      var p :- RestoredSignature(defs, calls[i]);
      var q :- RestoredCallers(p, calls[i], 0);
      CleanupAll(q, calls, i + 1)
  }

  // ---- RestoreCallers over instantiations shared by token -----------------------

  /**
   * An instruction of a loaded caller body. An instantiation operand is a
   * metadata token into the module's table of instantiations, and every
   * instruction with the same token shares that one object; any other
   * operand is held by value.
   */
  datatype TokenInstr = SpecRef(op: OpCode, token: nat) | Held(ins: Instr)

  /** A caller body with the module's shared instantiations. */
  datatype SharedBody = SharedBody(instrs: seq<TokenInstr>, specs: map<nat, MethodSpec>)

  /**
   * `RestoreCallers`' instruction loop as written, from instruction i on:
   * each instruction naming an instantiation of the method removes the
   * cleaned positions from the shared argument list once more, and becomes
   * a plain call once that list is empty.
   */
  function SharedStripped(b: SharedBody, id: nat, cleaned: seq<nat>, i: nat): (r: Result<SharedBody>)
    requires i <= |b.instrs|
    ensures r.Ok? ==> |r.value.instrs| == |b.instrs| && r.value.specs.Keys == b.specs.Keys
    decreases |b.instrs| - i
  {
    if i == |b.instrs| then Ok(b)
    else match b.instrs[i]
      case SpecRef(op, t) =>
        if t in b.specs && Instantiates(b.specs[t], id) then
          var ms := b.specs[t];
          var args :- RemoveEach(ms.genArgs, cleaned);
          var ins := if |args| == 0 then Held(Instr(op, MethodOp(ms.target))) else SpecRef(op, t);
          SharedStripped(SharedBody(b.instrs[i := ins], b.specs[t := MethodSpec(ms.target, args)]), id, cleaned, i + 1)
        else SharedStripped(b, id, cleaned, i + 1)
      case Held(ins) =>
        var stripped :- StrippedInstr(ins, id, cleaned);
        SharedStripped(b.(instrs := b.instrs[i := Held(stripped)]), id, cleaned, i + 1)
  }

  /**
   * Two calls through one instantiation `m<a>` whose only parameter is
   * cleaned: the first empties the shared list, the second removes
   * position 0 of the empty list and throws.
   */
  lemma SharedSpecRemovedTwice(m: MethodRef, a: TypeSig)
    requires m.isDef
    ensures SharedStripped(SharedBody([SpecRef(Call, 0), SpecRef(Call, 0)], map[0 := MethodSpec(m, [a])]), m.id, [0], 0)
            == Throws(ArgumentOutOfRange)
  {
    var b0 := SharedBody([SpecRef(Call, 0), SpecRef(Call, 0)], map[0 := MethodSpec(m, [a])]);
    var b1 := SharedBody([Held(Instr(Call, MethodOp(m))), SpecRef(Call, 0)], map[0 := MethodSpec(m, [])]);
    assert RemoveEach([a], [0]) == Ok([]) by {
      assert [a][..0] + [a][1..] == [];
    }
    assert SharedStripped(b0, m.id, [0], 0) == SharedStripped(b1, m.id, [0], 1);
    var empty: seq<TypeSig> := [];
    assert RemoveAt(empty, 0) == Throws(ArgumentOutOfRange);
  }

  /**
   * Two calls through one instantiation `m<a, b, c>` whose first parameter
   * is cleaned: the second call removes `b` too, and both are left with `m<c>`.
   */
  lemma SharedSpecLosesTwo(m: MethodRef, a: TypeSig, b: TypeSig, c: TypeSig)
    requires m.isDef
    ensures SharedStripped(SharedBody([SpecRef(Call, 0), SpecRef(Call, 0)], map[0 := MethodSpec(m, [a, b, c])]), m.id, [0], 0)
            == Ok(SharedBody([SpecRef(Call, 0), SpecRef(Call, 0)], map[0 := MethodSpec(m, [c])]))
  {
    var b0 := SharedBody([SpecRef(Call, 0), SpecRef(Call, 0)], map[0 := MethodSpec(m, [a, b, c])]);
    var b1 := SharedBody([SpecRef(Call, 0), SpecRef(Call, 0)], map[0 := MethodSpec(m, [b, c])]);
    var b2 := SharedBody([SpecRef(Call, 0), SpecRef(Call, 0)], map[0 := MethodSpec(m, [c])]);
    assert RemoveEach([a, b, c], [0]) == Ok([b, c]) by {
      assert [a, b, c][..0] + [a, b, c][1..] == [b, c];
    }
    assert RemoveEach([b, c], [0]) == Ok([c]) by {
      assert [b, c][..0] + [b, c][1..] == [c];
    }
    assert b0.instrs[0 := SpecRef(Call, 0)] == b0.instrs;
    assert b0.specs[0 := MethodSpec(m, [b, c])] == b1.specs;
    assert SharedStripped(b0, m.id, [0], 0) == SharedStripped(b1, m.id, [0], 1);
    assert b1.instrs[1 := SpecRef(Call, 0)] == b1.instrs;
    assert b1.specs[0 := MethodSpec(m, [c])] == b2.specs;
    assert SharedStripped(b1, m.id, [0], 1) == SharedStripped(b2, m.id, [0], 2);
  }

  /**
   * With a copy of the instantiation per instruction, the same two calls
   * each lose exactly the cleaned argument: both become `m<b, c>`.
   */
  lemma CopiesLoseOne(m: MethodRef, a: TypeSig, b: TypeSig, c: TypeSig)
    requires m.isDef
    ensures var call := Instr(Call, SpecOp(MethodSpec(m, [a, b, c])));
            var kept := Instr(Call, SpecOp(MethodSpec(m, [b, c])));
            StrippedInstrs([call, call], m.id, [0], 0) == Ok([kept, kept])
  {
    var call := Instr(Call, SpecOp(MethodSpec(m, [a, b, c])));
    var kept := Instr(Call, SpecOp(MethodSpec(m, [b, c])));
    assert RemoveEach([a, b, c], [0]) == Ok([b, c]) by {
      assert [a, b, c][..0] + [a, b, c][1..] == [b, c];
    }
    assert StrippedInstr(call, m.id, [0]) == Ok(kept);
    assert [call, call][0 := kept] == [kept, call];
    assert StrippedInstrs([call, call], m.id, [0], 0) == StrippedInstrs([kept, call], m.id, [0], 1);
    assert [kept, call][1 := kept] == [kept, kept];
    assert StrippedInstrs([kept, call], m.id, [0], 1) == StrippedInstrs([kept, kept], m.id, [0], 2);
  }

  // ---- the restorer ------------------------------------------------------------

  /** The argument loop of `ScanGenericRelation` for one instantiation. */
  method RecordArgs(sigs: seq<SigList>, args: seq<TypeSig>) returns (r: Result<seq<SigList>>)
    ensures r == Recorded(sigs, args)
  {
    var out := sigs;
    var i := 0;
    while i < |args|
      invariant 0 <= i <= |args| && i <= |sigs| && |out| == |sigs|
      invariant forall x :: 0 <= x < |sigs| ==>
                  out[x] == SigList(sigs[x].key, if x < i then Added(sigs[x].sigs, args[x]) else sigs[x].sigs)
    {
      if i >= |out| {
        return Throws(ArgumentOutOfRange);
      }
      if args[i] !in out[i].sigs {
        out := out[i := SigList(out[i].key, out[i].sigs + [args[i]])];
      }
      i := i + 1;
    }
    assert out == Recorded(sigs, args).value;
    return Ok(out);
  }

  /** The three `Specify` loops over locals and parameters: each signature takes its substitution. */
  method RetypeSigs(ts: seq<TypeSig>, sigs: seq<SigList>) returns (out: seq<TypeSig>, changed: bool)
    ensures out == RetypedAll(ts, sigs)
    ensures changed <==> AnyRetyped(ts, sigs)
  {
    out := ts;
    changed := false;
    var k := 0;
    while k < |ts|
      invariant 0 <= k <= |ts| && |out| == |ts|
      invariant forall j :: 0 <= j < k ==> out[j] == Retyped(ts[j], sigs)
      invariant forall j :: k <= j < |ts| ==> out[j] == ts[j]
      invariant changed <==> exists j :: 0 <= j < k && SpecifyIn(ts[j], sigs).Some?
    {
      var result := SpecifyRelation(ts[k], sigs);
      if result.Some? {
        changed := true;
        out := out[k := result.value];
      }
      k := k + 1;
    }
  }

  /** `RestoreCallees` on a body: each type token takes its substitution. */
  method RestoreCallees(instrs: seq<Instr>, sigs: seq<SigList>) returns (out: seq<Instr>, changed: bool)
    ensures out == RetypedInstrs(instrs, sigs)
    ensures changed <==> AnyTokenRetyped(instrs, sigs)
  {
    out := instrs;
    changed := false;
    var k := 0;
    while k < |instrs|
      invariant 0 <= k <= |instrs| && |out| == |instrs|
      invariant forall j :: 0 <= j < k ==> out[j] == RetypedInstr(instrs[j], sigs)
      invariant forall j :: k <= j < |instrs| ==> out[j] == instrs[j]
      invariant changed <==> exists j :: 0 <= j < k && TokenRetyped(instrs[j], sigs)
    {
      var ins := instrs[k];
      if ins.operand.TypeOp? {
        var result := SpecifyRelation(ins.operand.t, sigs);
        if result.Some? {
          changed := true;
          out := out[k := Instr(ins.op, TypeOp(result.value))];
        }
      }
      k := k + 1;
    }
  }

  /** The body of `RestoreTypes`' loop for one relation, with the locals read only when there is a body. */
  method RestoreMethod(d: MethodDefn, sigs: seq<SigList>) returns (r: Restoration)
    ensures r == RestoredMethod(d, sigs)
  {
    var changed := false;
    var ret := d.ret;
    var result := SpecifyRelation(d.ret, sigs);
    if result.Some? {
      changed := true;
      ret := result.value;
    }
    var locals := [];
    if d.body.Some? {
      var localsChanged;
      locals, localsChanged := RetypeSigs(d.body.value.locals, sigs);
      changed := changed || localsChanged;
    }
    var params, paramsChanged := RetypeSigs(d.params, sigs);
    changed := changed || paramsChanged;
    var body := None;
    if d.body.Some? {
      var instrs, calleesChanged := RestoreCallees(d.body.value.instrs, sigs);
      changed := changed || calleesChanged;
      body := Some(Body(locals, instrs));
    }
    return Restoration(MethodDefn(d.id, d.declType, d.genericParams, ret, params, body), changed);
  }

  /** The instruction loop of `RestoreCallers` in one caller. */
  method StripCallSites(instrs: seq<Instr>, id: nat, sigs: seq<SigList>) returns (r: Result<seq<Instr>>)
    ensures r == StrippedInstrs(instrs, id, Singles(sigs, |sigs|), 0)
  {
    var out := instrs;
    var i := 0;
    while i < |instrs|
      invariant 0 <= i <= |instrs| && |out| == |instrs|
      invariant StrippedInstrs(instrs, id, Singles(sigs, |sigs|), 0) == StrippedInstrs(out, id, Singles(sigs, |sigs|), i)
      invariant out[i..] == instrs[i..]
    {
      assert out[i] == instrs[i] by { assert out[i..][0] == instrs[i..][0]; }
      assert out[i := out[i]] == out;
      var ins := out[i];
      if ins.operand.SpecOp? {
        var ms := ins.operand.spec;
        var mdef := ResolveMethodDef(ms);
        if mdef.Some? && mdef.value.id == id {
          var cleaned := Cleaned(sigs);
          var args := RemoveAll(ms.genArgs, cleaned);
          if args.Throws? {
            return Throws(args.error);
          }
          if |args.value| == 0 {
            out := out[i := Instr(ins.op, MethodOp(mdef.value))];
          } else {
            out := out[i := Instr(ins.op, SpecOp(MethodSpec(ms.target, args.value)))];
          }
        }
      }
      assert out[i + 1..] == instrs[i + 1..] by { assert out[i + 1..] == out[i..][1..]; }
      i := i + 1;
    }
    return Ok(out);
  }

  class TypesRestorer {
    /** The module's methods in `GetTypes` order, with the parts the restorer rewrites. */
    var defs: seq<MethodDefn>
    /** `methods`: the relations of the current round. */
    var methods: seq<Relation>

    constructor(defs: seq<MethodDefn>)
      ensures this.defs == defs && methods == []
    {
      this.defs := defs;
      methods := [];
    }

    /** `FindAllGenericMethods`. */
    method FindAllGenericMethods()
      modifies this`methods
      ensures methods == GenericCalls(defs, |defs|) && CallsIn(defs, methods)
    {
      methods := GenericCalls(defs, |defs|);
    }

    /** `ScanGenericRelation`: the loop over the module's methods. */
    method ScanGenericRelation() returns (r: Result<()>)
      requires CallsIn(defs, methods)
      modifies this`methods
      ensures ScanDefs(defs, old(methods), 0).Ok? ==> r.Ok? && methods == ScanDefs(defs, old(methods), 0).value
      ensures ScanDefs(defs, old(methods), 0).Throws? ==> r == Throws(ScanDefs(defs, old(methods), 0).error)
    {
      var k := 0;
      while k < |defs|
        invariant 0 <= k <= |defs| && CallsIn(defs, methods)
        invariant ScanDefs(defs, old(methods), 0) == ScanDefs(defs, methods, k)
      {
        if defs[k].body.Some? {
          var s := ScanBody(k);
          if s.Throws? {
            return Throws(s.error);
          }
        }
        k := k + 1;
      }
      return Ok(());
    }

    /** The instruction loop of `ScanGenericRelation` in method k. */
    method ScanBody(k: nat) returns (r: Result<()>)
      requires k < |defs| && defs[k].body.Some? && CallsIn(defs, methods)
      modifies this`methods
      ensures var s := ScanInstrs(defs, old(methods), k, defs[k].body.value.instrs, 0);
              (s.Ok? ==> r.Ok? && methods == s.value) && (s.Throws? ==> r == Throws(s.error))
    {
      var instrs := defs[k].body.value.instrs;
      var i := 0;
      while i < |instrs|
        invariant 0 <= i <= |instrs| && CallsIn(defs, methods)
        invariant ScanInstrs(defs, old(methods), k, instrs, 0) == ScanInstrs(defs, methods, k, instrs, i)
      {
        if instrs[i].operand.SpecOp? {
          var s := Record(k, instrs[i].operand.spec);
          if s.Throws? {
            return Throws(s.error);
          }
        }
        i := i + 1;
      }
      return Ok(());
    }

    /** The loop over the relations for one instantiation met in method k: the first of its method records it. */
    method Record(k: nat, ms: MethodSpec) returns (r: Result<()>)
      requires k < |defs| && CallsIn(defs, methods)
      modifies this`methods
      ensures var s := RecordSpec(defs, old(methods), k, ms);
              (s.Ok? ==> r.Ok? && methods == s.value) && (s.Throws? ==> r == Throws(s.error))
    {
      var mdef := ResolveMethodDef(ms);
      var j := 0;
      while j < |methods|
        invariant 0 <= j <= |methods| && methods == old(methods)
        invariant FirstCall(defs, methods, ms, j) == -1
      {
        var c := methods[j];
        if mdef.Some? && mdef.value.id == defs[c.callee].id {
          var caller := c.caller;
          if k !in caller {
            caller := caller + [k];
          }
          var sigs := RecordArgs(c.callerSigs, ms.genArgs);
          if sigs.Throws? {
            return Throws(sigs.error);
          }
          methods := methods[j := Relation(c.callee, caller, sigs.value)];
          return Ok(());
        }
        j := j + 1;
      }
      return Ok(());
    }

    /** `RestoreTypes`: each relation's method in turn, with whether anything changed. */
    method RestoreTypes() returns (changed: bool)
      requires CallsIn(defs, methods)
      modifies this`defs
      ensures RestoreAll(old(defs), methods, |methods|) == Restored(defs, changed)
    {
      defs, changed := RestoreEach(defs, methods);
    }

    /** `RestoreSignature`. */
    method RestoreSignature(c: Relation) returns (r: Result<()>)
      requires c.callee < |defs|
      modifies this`defs
      ensures var s := RestoredSignature(old(defs), c);
              (s.Ok? ==> r.Ok? && defs == s.value) && (s.Throws? ==> r == Throws(s.error))
    {
      var cleaned := Cleaned(c.callerSigs);
      var gps := RemoveAll(defs[c.callee].genericParams, cleaned);
      if gps.Throws? {
        return Throws(gps.error);
      }
      defs := defs[c.callee := defs[c.callee].(genericParams := gps.value)];
      return Ok(());
    }

    /** `RestoreCallers`: the loop over the relation's callers. */
    method RestoreCallers(c: Relation) returns (r: Result<()>)
      requires c.callee < |defs| && forall j :: 0 <= j < |c.caller| ==> c.caller[j] < |defs|
      modifies this`defs
      ensures var s := RestoredCallers(old(defs), c, 0);
              (s.Ok? ==> r.Ok? && defs == s.value) && (s.Throws? ==> r == Throws(s.error))
    {
      var i := 0;
      while i < |c.caller|
        invariant 0 <= i <= |c.caller| && |defs| == |old(defs)|
        invariant RestoredCallers(old(defs), c, 0) == RestoredCallers(defs, c, i)
      {
        var k := c.caller[i];
        if defs[k].body.Some? {
          var b := defs[k].body.value;
          var instrs := StripCallSites(b.instrs, defs[c.callee].id, c.callerSigs);
          if instrs.Throws? {
            return Throws(instrs.error);
          }
          defs := defs[k := defs[k].(body := Some(Body(b.locals, instrs.value)))];
        }
        i := i + 1;
      }
      return Ok(());
    }

    /** `Cleanup`: each relation restores its method's signature, then its callers. */
    method Cleanup() returns (r: Result<()>)
      requires CallsIn(defs, methods)
      modifies this`defs
      ensures var s := CleanupAll(old(defs), methods, 0);
              (s.Ok? ==> r.Ok? && defs == s.value) && (s.Throws? ==> r == Throws(s.error))
    {
      var j := 0;
      while j < |methods|
        invariant 0 <= j <= |methods| && CallsIn(defs, methods)
        invariant CleanupAll(old(defs), methods, 0) == CleanupAll(defs, methods, j)
      {
        var s := RestoreSignature(methods[j]);
        if s.Throws? {
          return s;
        }
        s := RestoreCallers(methods[j]);
        if s.Throws? {
          return s;
        }
        j := j + 1;
      }
      return Ok(());
    }

    /**
     * One round of `Deobfuscate`'s loop (the relations afresh, the scan,
     * then `RestoreTypes`), with `fuel` rounds left before it. The rounds
     * are named by `step`, which is `Round`; the fact is stated only for
     * terms `Round(d)`, so the loop below reasons about whole rounds and
     * never unfolds one.
     */
    method RunRound(ghost step: seq<MethodDefn> -> Result<RoundResult>, ghost fuel: nat) returns (r: Result<bool>)
      requires forall d {:trigger Round(d)} :: step(d) == Round(d)
      requires fuel >= 1
      modifies this
      ensures r.Throws? ==> Iterate(step, old(defs), fuel) == Throws(r.error)
      ensures r.Ok? && (!r.value || fuel == 1) ==> Iterate(step, old(defs), fuel) == Ok(RoundResult(methods, defs, r.value))
      ensures r.Ok? && r.value && fuel > 1 ==> Iterate(step, old(defs), fuel) == Iterate(step, defs, fuel - 1)
    {
      assert step(defs) == Round(defs);
      IterateUnfold(step, defs, fuel);
      FindAllGenericMethods();
      var s := ScanGenericRelation();
      if s.Throws? {
        return Throws(s.error);
      }
      var changed := RestoreTypes();
      return Ok(changed);
    }

    /** `Deobfuscate`'s loop: up to `fuel` rounds, stopping after the first that changes nothing. */
    method RunRounds(ghost step: seq<MethodDefn> -> Result<RoundResult>, fuel: nat) returns (r: Result<()>)
      requires forall d {:trigger Round(d)} :: step(d) == Round(d)
      requires fuel >= 1
      modifies this
      ensures r.Ok? <==> Iterate(step, old(defs), fuel).Ok?
      ensures r.Throws? ==> r == Throws(Iterate(step, old(defs), fuel).error)
      ensures r.Ok? ==> methods == Iterate(step, old(defs), fuel).value.calls && defs == Iterate(step, old(defs), fuel).value.defs
    {
      var i := 0;
      while i < fuel
        invariant 0 <= i <= fuel
        invariant i < fuel ==> Iterate(step, old(defs), fuel) == Iterate(step, defs, fuel - i)
        invariant i == fuel ==> Iterate(step, old(defs), fuel) == Ok(RoundResult(methods, defs, true))
      {
        var changed := RunRound(step, fuel - i);
        if changed.Throws? {
          return Throws(changed.error);
        }
        if !changed.value {
          break;
        }
        i := i + 1;
      }
      return Ok(());
    }

    /**
     * `Deobfuscate`: the rounds, then the clean-up of the last round's
     * relations.
     */
    method Deobfuscate() returns (r: Result<()>)
      modifies this
      ensures Rounds(old(defs), MaxRounds).Throws? ==> r == Throws(Rounds(old(defs), MaxRounds).error)
      ensures Rounds(old(defs), MaxRounds).Ok? ==> methods == Rounds(old(defs), MaxRounds).value.calls
      ensures Rounds(old(defs), MaxRounds).Ok? ==>
                var s := CleanupAll(Rounds(old(defs), MaxRounds).value.defs, Rounds(old(defs), MaxRounds).value.calls, 0);
                (s.Ok? ==> r.Ok? && defs == s.value) && (s.Throws? ==> r == Throws(s.error))
    {
      r := RunRounds(Round, MaxRounds);
      if r.Throws? {
        return;
      }
      r := Cleanup();
    }
  }
}
