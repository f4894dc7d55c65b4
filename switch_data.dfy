/**
 * The switch-key recognisers of ConfuserEx's control-flow deobfuscation:
 * NormalSwitchData reads the xor key and the division key of a switch
 * block's fixed header, SimpleSwitchData takes the last constant loaded.
 * The `Key` field of the shared SwitchData base is a nullable int.
 */
module SwitchData {
  import opened IL

  /**
   * The header of a normal switch block: exactly seven instructions
   * `ldc.i4 key; xor; dup; stloc; ldc.i4 div; rem.un; <any>`.
   */
  predicate IsNormalSwitchHeader(instrs: seq<Instr>) {
    |instrs| == 7
    && IsLdcI4(instrs[0]) && instrs[1].op == Xor && instrs[2].op == Dup
    && IsStloc(instrs[3]) && IsLdcI4(instrs[4]) && instrs[5].op == RemUn
  }

  /** The header ConfuserEx emits for a key, a state local, a division key and the switch itself. */
  function NormalSwitchHeader(key: Int32, local: nat, division: Int32, last: Instr): (r: seq<Instr>)
    ensures |r| == 7 && r[6] == last
  {
    [Instr(LdcI4, IntOp(key)), Instr(Xor, NoOperand), Instr(Dup, NoOperand),
     Instr(Stloc, LocalOp(local)), Instr(LdcI4, IntOp(division)), Instr(RemUn, NoOperand), last]
  }

  /** Reading the keys back from an emitted header gives the keys it was built from. */
  lemma NormalHeaderRoundTrip(key: Int32, local: nat, division: Int32, last: Instr)
    ensures IsNormalSwitchHeader(NormalSwitchHeader(key, local, division, last))
    ensures LdcI4Value(NormalSwitchHeader(key, local, division, last)[0]) == key
    ensures LdcI4Value(NormalSwitchHeader(key, local, division, last)[4]) == division
  {
  }

  /** The template has exactly seven instructions: one appended instruction, or dropping the last, breaks recognition. */
  lemma NormalHeaderNeedsSeven(instrs: seq<Instr>, extra: Instr)
    requires IsNormalSwitchHeader(instrs)
    ensures !IsNormalSwitchHeader(instrs + [extra])
    ensures !IsNormalSwitchHeader(instrs[..6])
  {
  }

  class NormalSwitchData {
    /** The switch block's instructions. */
    const instrs: seq<Instr>
    var key: Option<Int32>
    var divisionKey: Int32

    constructor(block: seq<Instr>)
      ensures instrs == block && key == None && divisionKey == 0
    {
      instrs := block;
      key := None;
      divisionKey := 0;
    }

    /**
     * `Initialize`: true exactly for a normal switch header, which then
     * provides both keys; a header that fails a check writes nothing.
     */
    method Initialize() returns (ok: bool)
      modifies this
      ensures ok <==> IsNormalSwitchHeader(instrs)
      ensures ok ==> key == Some(LdcI4Value(instrs[0])) && divisionKey == LdcI4Value(instrs[4])
      ensures !ok ==> unchanged(this)
    {
      if |instrs| != 7 {
        return false;
      }
      if !IsLdcI4(instrs[0]) {
        return false;
      }
      if instrs[1].op != Xor {
        return false;
      }
      if instrs[2].op != Dup {
        return false;
      }
      if !IsStloc(instrs[3]) {
        return false;
      }
      if !IsLdcI4(instrs[4]) {
        return false;
      }
      if instrs[5].op != RemUn {
        return false;
      }
      key := Some(LdcI4Value(instrs[0]));
      divisionKey := LdcI4Value(instrs[4]);
      return true;
    }
  }

  /** The index of the last ldc.i4 among the first `n` instructions, or -1 when there is none. */
  function LastLdcI4(instrs: seq<Instr>, n: nat): (r: int)
    requires n <= |instrs|
    ensures -1 <= r < n
    ensures r >= 0 ==> IsLdcI4(instrs[r]) && forall j :: r < j < n ==> !IsLdcI4(instrs[j])
    ensures r == -1 <==> forall j :: 0 <= j < n ==> !IsLdcI4(instrs[j])
  {
    if n == 0 then -1
    else if IsLdcI4(instrs[n - 1]) then n - 1
    else LastLdcI4(instrs, n - 1)
  }

  /** Appending an instruction: a constant becomes the last one, anything else leaves it. */
  lemma {:induction false} LastLdcI4Append(instrs: seq<Instr>, ins: Instr)
    ensures IsLdcI4(ins) ==> LastLdcI4(instrs + [ins], |instrs| + 1) == |instrs|
    ensures !IsLdcI4(ins) ==> LastLdcI4(instrs + [ins], |instrs| + 1) == LastLdcI4(instrs, |instrs|)
  {
    var s := instrs + [ins];
    assert s[|instrs|] == ins;
    if !IsLdcI4(ins) {
      LastLdcI4Prefix(s, instrs, |instrs|);
    }
  }

  /** LastLdcI4 over the first `n` instructions only looks at those. */
  lemma {:induction false} LastLdcI4Prefix(s: seq<Instr>, t: seq<Instr>, n: nat)
    requires n <= |s| && n <= |t| && s[..n] == t[..n]
    ensures LastLdcI4(s, n) == LastLdcI4(t, n)
  {
    if n > 0 {
      assert s[n - 1] == s[..n][n - 1] == t[..n][n - 1] == t[n - 1];
      assert s[..n - 1] == s[..n][..n - 1];
      assert t[..n - 1] == t[..n][..n - 1];
      LastLdcI4Prefix(s, t, n - 1);
    }
  }

  class SimpleSwitchData {
    /** The switch block's instructions. */
    const instrs: seq<Instr>
    var key: Option<Int32>

    constructor(block: seq<Instr>)
      ensures instrs == block && key == None
    {
      instrs := block;
      key := None;
    }

    /**
     * `Initialize`: false for fewer than three instructions; otherwise the
     * key is the constant of the last ldc.i4, and false when there is none.
     */
    method Initialize() returns (ok: bool)
      modifies this
      ensures ok <==> |instrs| >= 3 && LastLdcI4(instrs, |instrs|) >= 0
      ensures ok ==> key == Some(LdcI4Value(instrs[LastLdcI4(instrs, |instrs|)]))
      ensures !ok ==> unchanged(this)
    {
      if |instrs| < 3 {
        return false;
      }
      var i := |instrs| - 1;
      while i >= 0
        invariant -1 <= i < |instrs|
        invariant forall j :: i < j < |instrs| ==> !IsLdcI4(instrs[j])
      {
        if IsLdcI4(instrs[i]) {
          key := Some(LdcI4Value(instrs[i]));
          return true;
        }
        i := i - 1;
      }
      return false;
    }
  }
}
