/**
 * ConstantDecrypterBase: one recognised decryption site. Turns the index a
 * call site passes into a byte offset into the decrypted blob (arithmetic
 * or native key) and slices the requested value out of the blob.
 */
module ConstantDecrypterBase {
  import opened IL

  /** The decrypted blob: a .NET byte[], whose length is an int32. */
  type Blob = s: seq<byte> | |s| <= MaxInt32

  /**
   * The native-code emulator: runs the native key routine on one int32 and
   * yields its int32 result, or None when the result is not a fully known
   * int32.
   */
  type Emulator = (MethodRef, Int32) -> Option<Int32>

  /**
   * A recognised site. `nativeMethod` is set for a native-key site; an
   * arithmetic site has it unset and keeps its multiplier and xor key in
   * `num1` and `num2` (both zero on a native site).
   */
  datatype Site = Site(decrypter: MethodRef, decrypted: Blob, nativeMethod: Option<MethodRef>, num1: bv32, num2: bv32)

  // ---- offset derivation ---------------------------------------------------

  const KeyMask: bv32 := 0x3FFF_FFFF

  /** `key &= 0x3fffffff; key <<= 2`: the low 30 bits of the key, times four. */
  function MaskAndShift(key: bv32): (r: bv32)
    ensures r & 3 == 0 && r <= 0xFFFF_FFFC
    ensures r >> 2 == key & KeyMask
  {
    (key & KeyMask) << 2
  }

  /**
   * The arithmetic key `index * Num1 ^ Num2` in uint (wrap-around)
   * arithmetic. C# binds `*` before `^`, so the product is taken first and
   * the xor key undoes on it.
   */
  function ArithmeticKey(index: bv32, num1: bv32, num2: bv32): (r: bv32)
    ensures r ^ num2 == index * num1
  {
    Mul32(index, num1) ^ num2
  }

  /** uint multiplication, wrapping around at 2^32. */
  function Mul32(a: bv32, b: bv32): bv32 {
    a * b
  }

  /** Index 0 has product 0, so its key is the xor key itself. */
  lemma ArithmeticKeyAtZero(num1: bv32, num2: bv32)
    ensures ArithmeticKey(0, num1, num2) == num2
  {
    assert Mul32(0, num1) == 0;
  }

  /**
   * `CalculateMagic`: the byte offset for `index`. A native site asks the
   * emulator for the key of `(int)index`; a null key fails on `key.Value`.
   * An arithmetic site uses the multiplier and xor key. Either key is
   * masked to 30 bits and shifted left by two.
   */
  function CalculateMagic(site: Site, index: bv32, emulate: Emulator): (r: Result<bv32>)
    ensures r.Throws? <==> site.nativeMethod.Some? && emulate(site.nativeMethod.value, ToInt32(index)).None?
    ensures r.Throws? ==> r.error == InvalidOperation
    ensures r.Ok? ==> r.value & 3 == 0 && r.value <= 0xFFFF_FFFC
    ensures site.nativeMethod.None? ==> r == Ok(MaskAndShift(ArithmeticKey(index, site.num1, site.num2)))
    ensures site.nativeMethod.Some? && r.Ok? ==>
              r.value == MaskAndShift(ToBits(emulate(site.nativeMethod.value, ToInt32(index)).value))
  {
    var key :- NativeOrArithmeticKey(site, index, emulate);
    Ok(MaskAndShift(key))
  }

  /** The unmasked key: the emulator's result as uint, or the arithmetic key. */
  function NativeOrArithmeticKey(site: Site, index: bv32, emulate: Emulator): Result<bv32> {
    match site.nativeMethod
    case Some(native) =>
      (match emulate(native, ToInt32(index))
       case None => Throws(InvalidOperation)
       case Some(k) => Ok(ToBits(k)))
    case None => Ok(ArithmeticKey(index, site.num1, site.num2))
  }

  /** An arithmetic site's offset for index 0 is its xor key masked and shifted. */
  lemma ArithmeticMagicAtZero(site: Site, emulate: Emulator)
    requires site.nativeMethod.None?
    ensures CalculateMagic(site, 0, emulate) == Ok(MaskAndShift(site.num2))
  {
    ArithmeticKeyAtZero(site.num1, site.num2);
  }

  /** Both key modes end in the same mask and shift: a native routine computing the arithmetic key gives the arithmetic offset. */
  lemma {:induction false} NativeAgreesWithArithmetic(site: Site, index: bv32, num1: bv32, num2: bv32, emulate: Emulator)
    requires site.nativeMethod.Some?
    requires emulate(site.nativeMethod.value, ToInt32(index)).Some?
    requires ToBits(emulate(site.nativeMethod.value, ToInt32(index)).value) == ArithmeticKey(index, num1, num2)
    ensures CalculateMagic(site, index, emulate)
         == CalculateMagic(site.(nativeMethod := None, num1 := num1, num2 := num2), index, emulate)
  {
  }

  // ---- little-endian integers ------------------------------------------------

  function Pow256(n: nat): (r: nat)
    ensures r >= 1
  {
    if n == 0 then 1 else 256 * Pow256(n - 1)
  }

  /** The unsigned value of bytes stored least significant first. */
  function LeValue(b: seq<byte>): nat {
    if b == [] then 0 else b[0] as nat + 256 * LeValue(b[1..])
  }

  /** The `n` little-endian bytes of `v`. */
  function LeBytes(v: nat, n: nat): (r: seq<byte>)
    requires v < Pow256(n)
    ensures |r| == n
  {
    if n == 0 then [] else [(v % 256) as byte] + LeBytes(v / 256, n - 1)
  }

  lemma {:induction false} LeValueBound(b: seq<byte>)
    ensures LeValue(b) < Pow256(|b|)
  {
    if b != [] {
      LeValueBound(b[1..]);
    }
  }

  lemma QuotientBound(v: nat, p: nat)
    requires v < 256 * p
    ensures v / 256 < p
  {
  }

  /** Encoding then decoding a value gives it back. */
  lemma {:induction false} LeRoundTrip(v: nat, n: nat)
    requires v < Pow256(n)
    ensures LeValue(LeBytes(v, n)) == v
  {
    if n > 0 {
      QuotientBound(v, Pow256(n - 1));
      LeRoundTrip(v / 256, n - 1);
      var r := LeBytes(v, n);
      assert r[1..] == LeBytes(v / 256, n - 1);
      assert r[0] as nat == v % 256;
    }
  }

  /** Decoding then encoding bytes gives them back. */
  lemma {:induction false} LeBytesOfValue(b: seq<byte>)
    ensures LeValue(b) < Pow256(|b|)
    ensures LeBytes(LeValue(b), |b|) == b
  {
    LeValueBound(b);
    if b != [] {
      LeBytesOfValue(b[1..]);
      var v := LeValue(b);
      assert v % 256 == b[0] as nat;
      assert v / 256 == LeValue(b[1..]);
    }
  }

  /** The two's-complement reading of an `n`-byte unsigned value. */
  function Signed(v: nat, n: nat): int {
    if 2 * v >= Pow256(n) then v - Pow256(n) else v
  }

  /** The unsigned `n`-byte pattern of a two's-complement value. */
  function Unsigned(v: int, n: nat): nat
    requires -(Pow256(n) as int) <= 2 * v < Pow256(n)
  {
    if v < 0 then v + Pow256(n) else v
  }

  lemma SignedRoundTrip(v: int, n: nat)
    requires -(Pow256(n) as int) <= 2 * v < Pow256(n)
    ensures Unsigned(v, n) < Pow256(n)
    ensures Signed(Unsigned(v, n), n) == v
  {
  }

  /** `BitConverter.ToInt32(blob, start)` on a little-endian host. */
  function ReadInt32(blob: Blob, start: Int32): (r: Result<Int32>)
    ensures r.Ok? <==> 0 <= start && start + 4 <= |blob|
    ensures r.Ok? ==> r.value == Signed(LeValue(blob[start..start + 4]), 4)
  {
    if start < 0 || start >= |blob| then Throws(ArgumentOutOfRange)
    else if start > |blob| - 4 then Throws(Argument)
    else
      var u := LeValue(blob[start..start + 4]);
      LeValueBound(blob[start..start + 4]);
      assert Pow256(4) == 0x1_0000_0000;
      var signed: Int32 := if u <= MaxInt32 then u else u - 0x1_0000_0000;
      Ok(signed)
  }

  // ---- the three blob layouts ------------------------------------------------

  /**
   * The string layout read by `DecryptString` after the offset: an int32
   * byte count at `start`, then that many UTF-8 bytes. The bytes are
   * returned undecoded.
   */
  function ReadString(blob: Blob, start: Int32): (r: Result<seq<byte>>)
    ensures r.Ok? <==> ReadInt32(blob, start).Ok? && ReadInt32(blob, start).value >= 0
                       && start + 4 + ReadInt32(blob, start).value <= |blob|
    ensures r.Ok? ==> var count := ReadInt32(blob, start).value;
                      |r.value| == count && r.value == blob[start + 4..start + 4 + count]
  {
    var count :- ReadInt32(blob, start);
    // start + 4 <= |blob| <= MaxInt32 here, so `(int)index + 4` does not wrap
    if count < 0 || start + 4 > |blob| - count then Throws(ArgumentOutOfRange)
    else Ok(blob[start + 4..start + 4 + count])
  }

  /**
   * The array layout read by `DecryptArray(uint)` after the offset: an
   * int32 count at `start`, four ignored bytes, then `count - 4` payload
   * bytes. `new byte[count - 4]` and `(int)index + 8` wrap like C# ints.
   */
  function ReadArray(blob: Blob, start: Int32): (r: Result<seq<byte>>)
    ensures ReadInt32(blob, start).Ok? && ReadInt32(blob, start).value < 4 ==> r.Throws?
    ensures r.Ok? <==> ReadInt32(blob, start).Ok? && ReadInt32(blob, start).value >= 4
                       && start + 8 + (ReadInt32(blob, start).value - 4) <= |blob|
    ensures r.Ok? ==> var count := ReadInt32(blob, start).value;
                      |r.value| == count - 4 && r.value == blob[start + 8..start + 8 + (count - 4)]
  {
    var count :- ReadInt32(blob, start);
    var length := Wrap32(count - 4);
    var source := Wrap32(start + 8);
    if length < 0 then Throws(Overflow)
    else if source < 0 then Throws(ArgumentOutOfRange)
    else if source > |blob| - length then Throws(Argument)
    else Ok(blob[source..source + length])
  }

  /** The scalar layout read by `DecryptConstant<T>`: `size` raw bytes at `start`. */
  function ReadScalar(blob: Blob, start: Int32, size: nat): (r: Result<seq<byte>>)
    ensures r.Ok? <==> 0 <= start && start + size <= |blob|
    ensures r.Ok? ==> |r.value| == size && r.value == blob[start..start + size]
  {
    if start < 0 then Throws(ArgumentOutOfRange)
    else if start > |blob| - size then Throws(Argument)
    else Ok(blob[start..start + size])
  }

  // ---- the decoders of a site -------------------------------------------------

  /** `DecryptString(index)`: the UTF-8 bytes of the string at the index's offset. */
  function DecryptString(site: Site, index: bv32, emulate: Emulator): (r: Result<seq<byte>>)
    ensures r.Ok? <==> CalculateMagic(site, index, emulate).Ok?
                       && ReadString(site.decrypted, ToInt32(CalculateMagic(site, index, emulate).value)).Ok?
    ensures r.Ok? ==> r == ReadString(site.decrypted, ToInt32(CalculateMagic(site, index, emulate).value))
  {
    var offset :- CalculateMagic(site, index, emulate);
    ReadString(site.decrypted, ToInt32(offset))
  }

  /** `DecryptArray(index)`: the payload bytes of the array at the index's offset. */
  function DecryptArray(site: Site, index: bv32, emulate: Emulator): (r: Result<seq<byte>>)
    ensures r.Ok? <==> CalculateMagic(site, index, emulate).Ok?
                       && ReadArray(site.decrypted, ToInt32(CalculateMagic(site, index, emulate).value)).Ok?
    ensures r.Ok? ==> r == ReadArray(site.decrypted, ToInt32(CalculateMagic(site, index, emulate).value))
  {
    var offset :- CalculateMagic(site, index, emulate);
    ReadArray(site.decrypted, ToInt32(offset))
  }

  /**
   * `DecryptConstant<T>(index)` for an integer T of `size` bytes: the
   * little-endian value of the `size` bytes at the offset, read as two's
   * complement when T is signed.
   */
  function DecryptConstant(site: Site, index: bv32, emulate: Emulator, size: nat, signed: bool): (r: Result<int>)
    ensures r.Ok? <==> CalculateMagic(site, index, emulate).Ok?
                       && ReadScalar(site.decrypted, ToInt32(CalculateMagic(site, index, emulate).value), size).Ok?
    ensures r.Ok? ==>
              var bytes := ReadScalar(site.decrypted, ToInt32(CalculateMagic(site, index, emulate).value), size).value;
              r.value == if signed then Signed(LeValue(bytes), size) else LeValue(bytes)
  {
    var offset :- CalculateMagic(site, index, emulate);
    var bytes :- ReadScalar(site.decrypted, ToInt32(offset), size);
    Ok(if signed then Signed(LeValue(bytes), size) else LeValue(bytes))
  }

  // ---- round trips through the blob layouts ------------------------------------

  /** A string written as `[count:int32 LE][bytes]` at `start` reads back exactly. */
  lemma {:induction false} StringRoundTrip(prefix: seq<byte>, payload: seq<byte>, suffix: seq<byte>)
    requires |prefix| + 4 + |payload| + |suffix| <= MaxInt32
    ensures |payload| < Pow256(4)
    ensures var blob: Blob := prefix + LeBytes(|payload|, 4) + payload + suffix;
            ReadString(blob, |prefix|) == Ok(payload)
  {
    assert Pow256(4) == 0x1_0000_0000;
    var blob: Blob := prefix + LeBytes(|payload|, 4) + payload + suffix;
    var start := |prefix|;
    assert blob[start..start + 4] == LeBytes(|payload|, 4);
    LeRoundTrip(|payload|, 4);
    assert ReadInt32(blob, start) == Ok(|payload|);
    assert blob[start + 4..start + 4 + |payload|] == payload;
  }

  /** An array written as `[count+4:int32 LE][4 ignored bytes][payload]` reads back exactly. */
  lemma {:induction false} ArrayRoundTrip(prefix: seq<byte>, ignored: seq<byte>, payload: seq<byte>, suffix: seq<byte>)
    requires |ignored| == 4
    requires |prefix| + 8 + |payload| + |suffix| <= MaxInt32
    ensures |payload| + 4 < Pow256(4)
    ensures var blob: Blob := prefix + LeBytes(|payload| + 4, 4) + ignored + payload + suffix;
            ReadArray(blob, |prefix|) == Ok(payload)
  {
    assert Pow256(4) == 0x1_0000_0000;
    var blob: Blob := prefix + LeBytes(|payload| + 4, 4) + ignored + payload + suffix;
    var start := |prefix|;
    assert blob[start..start + 4] == LeBytes(|payload| + 4, 4);
    LeRoundTrip(|payload| + 4, 4);
    assert ReadInt32(blob, start) == Ok(|payload| + 4);
    assert blob[start + 8..start + 8 + |payload|] == payload;
  }

  /** A scalar written as its `size` little-endian bytes reads back as the same value. */
  lemma {:induction false} ScalarRoundTrip(prefix: seq<byte>, v: int, size: nat, signed: bool, suffix: seq<byte>)
    requires if signed then -(Pow256(size) as int) <= 2 * v < Pow256(size) else 0 <= v < Pow256(size)
    requires |prefix| + size + |suffix| <= MaxInt32
    ensures var u := if signed then Unsigned(v, size) else v;
            u < Pow256(size) &&
            var blob: Blob := prefix + LeBytes(u, size) + suffix;
            ReadScalar(blob, |prefix|, size).Ok? &&
            (if signed then Signed(LeValue(ReadScalar(blob, |prefix|, size).value), size)
             else LeValue(ReadScalar(blob, |prefix|, size).value)) == v
  {
    var u := if signed then Unsigned(v, size) else v;
    if signed {
      SignedRoundTrip(v, size);
    }
    var blob: Blob := prefix + LeBytes(u, size) + suffix;
    assert blob[|prefix|..|prefix| + size] == LeBytes(u, size);
    LeRoundTrip(u, size);
  }
}
