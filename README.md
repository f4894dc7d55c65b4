# ConfuserEx constant decryption and inliners, modelled in Dafny

This project models the part of de4dot's ConfuserEx deobfuscator that
recovers encrypted constants and undoes ConfuserEx's small obfuscations:

- **ConstantsDecrypter** recognises the module initializer that decrypts and
  LZMA-decompresses the constant blob (`IsStringDecrypterInit`), patches a
  copy of it so that it takes the encrypted array as argument
  (`DecryptArray(MethodDef, byte[])`: two window searches, the splice and the
  strip of leading non-`ldc.i4` instructions), finds the generic decrypter
  methods in their native and normal shapes (`IsNativeStringDecrypter`,
  `IsNormalStringDecrypter`, `FindStringDecrypters`) and dispatches a typed
  decryption on a verified generic argument.
- **ConstantDecrypterBase** turns a call's index into a blob offset
  (`CalculateMagic`: the native key or `(index * Num1) ^ Num2`, then
  `& 0x3FFFFFFF` and `<< 2`) and reads a length-prefixed string, a
  length-prefixed array or a little-endian scalar at that offset.
- **LzmaFinder** recognises the LZMA decompressor by the calls it makes and
  collects, recursively and without duplicates, the nested types its helper
  type calls into.
- **MathInliner** and **MiscInliner** replace calls of forwarding wrappers
  (`ldarg 0; …; ldarg n-1; op; ret`) by the forwarded instruction, then fold
  constants inside each block: MathInliner folds `int.Parse("…")` only;
  MiscInliner folds `int.Parse("…")`, `Type.EmptyTypes.Length` and
  `Activator.CreateInstance(typeof(T))`. MathInliner builds its wrapper map
  once; MiscInliner detects and memoises lazily.
- **TypesRestorer** collects, for each generic method, the type arguments
  its call sites use, replaces a generic parameter used with exactly one
  type by that type (through `[]` and `[,]` wrappers), repeats that for at
  most 20 rounds, then removes the resolved generic parameters and the
  matching call-site type arguments.
- **NormalSwitchData / SimpleSwitchData** read the key and division key of a
  switch-dispatch header block.

Instructions are values (`IL.Instr`: an opcode tag and an operand); method
bodies are sequences of them, and a module's bodies are a map from method to
body. Objects whose fields the source updates (`ConstantsDecrypter`,
`LzmaFinder`, `MathInliner`, `MiscInliner`, `TypesRestorer`, the switch
data and the blocks the inliners rewrite) are classes whose methods are
proved against functions that specify them. Everything the source does by
reflection, by running code or through a library whose behaviour is not
visible here is a function parameter: the native x86 emulator
(`Emulator`), the run of the patched initializer (`Runner`),
`Lzma.Decompress` (`Decompressor`) and `int.Parse` (`parse`).

Signed and unsigned 32-bit values are explicit: keys and offsets are `bv32`,
`(int)` casts go through `IL.ToInt32`, and `count - 4` and `index + 8` wrap
as C# `int` arithmetic does (`IL.Wrap32`).

## Model

| member | source | states |
|---|---|---|
| IL.ToInt32 | de4dot.code/deobfuscators/ConfuserEx/ConstantDecrypter.cs:78 | the `(int)` cast of a uint: the same value below 2^31, the value minus 2^32 from there on |
| IL.Wrap32 | de4dot.code/deobfuscators/ConfuserEx/ConstantDecrypter.cs:95-96 | C# `int` arithmetic: the result is congruent to the exact value modulo 2^32 and equal to it when it fits |
| IL.RemovePinnedAndModifiers | de4dot.code/deobfuscators/ConfuserEx/ConstantDecrypter.cs:343 | the stripped return type is not pinned and carries no required or optional modifier |
| ConstantDecrypterBase.MaskAndShift | de4dot.code/deobfuscators/ConfuserEx/ConstantDecrypter.cs:61-62 | `& 0x3FFFFFFF` then `<< 2` gives a multiple of 4 no larger than 0xFFFFFFFC whose quarter is the key's low 30 bits |
| ConstantDecrypterBase.CalculateMagic | de4dot.code/deobfuscators/ConfuserEx/ConstantDecrypter.cs:52-73 | fails exactly when the native routine has no result; otherwise a 4-aligned offset: the masked emulator result in native mode, the masked `(index * Num1) ^ Num2` in normal mode |
| ConstantDecrypterBase.NativeAgreesWithArithmetic | de4dot.code/deobfuscators/ConfuserEx/ConstantDecrypter.cs:54-70 | a native routine that computes `(index * Num1) ^ Num2` yields the same offset as normal mode with those numbers |
| ConstantDecrypterBase.ArithmeticKey | de4dot.code/deobfuscators/ConfuserEx/ConstantDecrypter.cs:66 | the key xored with `Num2` gives back the wrapped uint product `index * Num1`: C# multiplies before it xors |
| ConstantDecrypterBase.ArithmeticKeyAtZero | de4dot.code/deobfuscators/ConfuserEx/ConstantDecrypter.cs:66 | index 0 has the key `Num2` |
| ConstantDecrypterBase.ArithmeticMagicAtZero | de4dot.code/deobfuscators/ConfuserEx/ConstantDecrypter.cs:65-70 | a normal-mode site reads index 0 at the masked and shifted `Num2` |
| ConstantDecrypterBase.LeBytes | de4dot.code/deobfuscators/ConfuserEx/ConstantDecrypter.cs:78 | the little-endian encoding of a value has the requested width |
| ConstantDecrypterBase.LeValueBound | de4dot.code/deobfuscators/ConfuserEx/ConstantDecrypter.cs:78 | n little-endian bytes hold a value below 256^n |
| ConstantDecrypterBase.LeRoundTrip | de4dot.code/deobfuscators/ConfuserEx/ConstantDecrypter.cs:78 | decoding the little-endian encoding of a value gives the value back |
| ConstantDecrypterBase.LeBytesOfValue | de4dot.code/deobfuscators/ConfuserEx/ConstantDecrypter.cs:86 | encoding the value of any byte string gives the same bytes back |
| ConstantDecrypterBase.SignedRoundTrip | de4dot.code/deobfuscators/ConfuserEx/ConstantDecrypter.cs:86-87 | two's-complement reinterpretation of an in-range signed value gives it back |
| ConstantDecrypterBase.ReadInt32 | de4dot.code/deobfuscators/ConfuserEx/ConstantDecrypter.cs:78 | `BitConverter.ToInt32` succeeds exactly when four bytes lie inside the blob and returns their signed little-endian value |
| ConstantDecrypterBase.ReadString | de4dot.code/deobfuscators/ConfuserEx/ConstantDecrypter.cs:75-80 | succeeds exactly when the count is non-negative and the payload fits; the result is the `count` bytes after the length word |
| ConstantDecrypterBase.ReadArray | de4dot.code/deobfuscators/ConfuserEx/ConstantDecrypter.cs:90-98 | a count below 4 fails; otherwise the result is the `count - 4` bytes starting 8 bytes after the offset, exactly when they fit |
| ConstantDecrypterBase.ReadScalar | de4dot.code/deobfuscators/ConfuserEx/ConstantDecrypter.cs:86 | `Buffer.BlockCopy` of `size` bytes succeeds exactly when they lie inside the blob and copies them |
| ConstantDecrypterBase.DecryptString | de4dot.code/deobfuscators/ConfuserEx/ConstantDecrypter.cs:75-80 | succeeds exactly when the offset computes and the string reads at it |
| ConstantDecrypterBase.DecryptArray | de4dot.code/deobfuscators/ConfuserEx/ConstantDecrypter.cs:90-98 | succeeds exactly when the offset computes and the array reads at it |
| ConstantDecrypterBase.DecryptConstant | de4dot.code/deobfuscators/ConfuserEx/ConstantDecrypter.cs:82-88 | succeeds exactly when the offset computes and the scalar's bytes fit; the value is their little-endian reading, signed for signed types |
| ConstantDecrypterBase.StringRoundTrip | de4dot.code/deobfuscators/ConfuserEx/ConstantDecrypter.cs:75-80 | a payload stored after its 4-byte length reads back unchanged |
| ConstantDecrypterBase.ArrayRoundTrip | de4dot.code/deobfuscators/ConfuserEx/ConstantDecrypter.cs:90-98 | a payload stored after `count+4` and four ignored bytes reads back unchanged |
| ConstantDecrypterBase.ScalarRoundTrip | de4dot.code/deobfuscators/ConfuserEx/ConstantDecrypter.cs:82-88 | a signed or unsigned value stored as its little-endian bytes reads back as the same value |
| ConstantsDecrypter.LastPairFieldNone | de4dot.code/deobfuscators/ConfuserEx/ConstantDecrypter.cs:219-239 | no field is found exactly when no instruction pair of that kind occurs |
| ConstantsDecrypter.LastPairFieldIsLast | de4dot.code/deobfuscators/ConfuserEx/ConstantDecrypter.cs:219-236 | the field kept is the one of the last matching pair, since later matches overwrite earlier ones |
| ConstantsDecrypter.IsStringDecrypterInit | de4dot.code/deobfuscators/ConfuserEx/ConstantDecrypter.cs:189-240 | fewer than 15 instructions finds nothing; otherwise both fields are the last `ldtoken`/`InitializeArray` and `Decompress`/`stsfld` pairs, and the answer is whether both exist |
| ConstantsDecrypter.FirstInitWindow | de4dot.code/deobfuscators/ConfuserEx/ConstantDecrypter.cs:264-274 | the result is -1 or a position holding the `ldc.i4; newarr; dup; ldtoken; call` window |
| ConstantsDecrypter.FirstInitWindowIsFirst | de4dot.code/deobfuscators/ConfuserEx/ConstantDecrypter.cs:265-273 | no earlier position holds that window, so the search stops at the first |
| ConstantsDecrypter.FirstStorePair | de4dot.code/deobfuscators/ConfuserEx/ConstantDecrypter.cs:278-285 | the result is -1 or a position holding `call; stsfld` |
| ConstantsDecrypter.FirstStorePairIsFirst | de4dot.code/deobfuscators/ConfuserEx/ConstantDecrypter.cs:279-284 | no earlier position holds that pair |
| ConstantsDecrypter.SearchInitWindow | de4dot.code/deobfuscators/ConfuserEx/ConstantDecrypter.cs:264-274 | the loop returns the first window position, or -1 |
| ConstantsDecrypter.SearchStorePair | de4dot.code/deobfuscators/ConfuserEx/ConstantDecrypter.cs:278-285 | the loop returns the first store-pair position, or -1 |
| ConstantsDecrypter.StoreNotInsideWindow | de4dot.code/deobfuscators/ConfuserEx/ConstantDecrypter.cs:287-299 | a `call; stsfld` pair cannot start inside the init window, so the two cuts never overlap |
| ConstantsDecrypter.StripToLdc | de4dot.code/deobfuscators/ConfuserEx/ConstantDecrypter.cs:302-309 | the result is a suffix of the input that is empty or starts with `ldc.i4`, and every dropped instruction is not `ldc.i4` |
| ConstantsDecrypter.StripLeading | de4dot.code/deobfuscators/ConfuserEx/ConstantDecrypter.cs:302-309 | the removal loop computes that suffix |
| ConstantsDecrypter.Patched | de4dot.code/deobfuscators/ConfuserEx/ConstantDecrypter.cs:264-309 | a patched body that succeeds is empty or starts with `ldc.i4` |
| ConstantsDecrypter.Surgery | de4dot.code/deobfuscators/ConfuserEx/ConstantDecrypter.cs:287-309 | the same, for any pair of found positions |
| ConstantsDecrypter.PatchedEndsWithRet | de4dot.code/deobfuscators/ConfuserEx/ConstantDecrypter.cs:287-300 | with both windows found past position 0 and apart, the patch succeeds and a non-empty result ends in the inserted `ret` |
| ConstantsDecrypter.SurgeryEndsWithRet | de4dot.code/deobfuscators/ConfuserEx/ConstantDecrypter.cs:287-300 | the same, for given positions |
| ConstantsDecrypter.StripKeepsLast | de4dot.code/deobfuscators/ConfuserEx/ConstantDecrypter.cs:302-309 | stripping leading instructions keeps the last one |
| ConstantsDecrypter.PatchedWithoutSurgery | de4dot.code/deobfuscators/ConfuserEx/ConstantDecrypter.cs:287 | when either window is missing or at position 0, no splice happens and the result is a suffix of the body |
| ConstantsDecrypter.SplicedForm | de4dot.code/deobfuscators/ConfuserEx/ConstantDecrypter.cs:288-299 | the removals and inserts give `body[..s] + [ldarg.0] + body[s+5..e] + [ret]`, or `body[..s] + [ldarg.0]` when the pair directly follows the window |
| ConstantsDecrypter.CutAfterPair | de4dot.code/deobfuscators/ConfuserEx/ConstantDecrypter.cs:288-293 | the pair becomes `ret` and everything after it is removed |
| ConstantsDecrypter.ReplaceWindow | de4dot.code/deobfuscators/ConfuserEx/ConstantDecrypter.cs:294-299 | the five window instructions become one `ldarg.0` |
| ConstantsDecrypter.Operate | de4dot.code/deobfuscators/ConfuserEx/ConstantDecrypter.cs:287-309 | the list operations compute the surgery for the found positions, including the out-of-range removal the source can hit |
| ConstantsDecrypter.PatchInitializer | de4dot.code/deobfuscators/ConfuserEx/ConstantDecrypter.cs:264-309 | the two searches and the list operations compute the patched body |
| ConstantsDecrypter.IsNativeStringDecrypter | de4dot.code/deobfuscators/ConfuserEx/ConstantDecrypter.cs:406-470 | true exactly for the native template (`ldarg; call native; starg; … >> 30 … & 0x3FFFFFFF … << 2`, calling all seven APIs); the out parameter is set exactly when the first two instructions are read |
| ConstantsDecrypter.CallsAll | de4dot.code/deobfuscators/ConfuserEx/ConstantDecrypter.cs:463-465 | true exactly when the body calls every listed method |
| ConstantsDecrypter.ScanCallsMethod | de4dot.code/deobfuscators/ConfuserEx/ConstantDecrypter.cs:464 | true exactly when some instruction calls the named method |
| ConstantsDecrypter.NormalizeAssemblyCheck | de4dot.code/deobfuscators/ConfuserEx/ConstantDecrypter.cs:380-387 | the rewrite keeps the length and every opcode and changes at most instruction 0's operand |
| ConstantsDecrypter.NormalizeAssemblyCheckIdempotent | de4dot.code/deobfuscators/ConfuserEx/ConstantDecrypter.cs:380-387 | rewriting the assembly check twice is rewriting it once |
| ConstantsDecrypter.RewriteAssemblyCheck | de4dot.code/deobfuscators/ConfuserEx/ConstantDecrypter.cs:380-387 | the in-place edit computes that rewrite |
| ConstantsDecrypter.FirstMulXor | de4dot.code/deobfuscators/ConfuserEx/ConstantDecrypter.cs:389-401 | the result is -1 or a position holding `ldc.i4; mul; ldc.i4; xor` |
| ConstantsDecrypter.FirstMulXorIsFirst | de4dot.code/deobfuscators/ConfuserEx/ConstantDecrypter.cs:389-390 | no earlier position holds that window |
| ConstantsDecrypter.SearchMulXor | de4dot.code/deobfuscators/ConfuserEx/ConstantDecrypter.cs:389-401 | the loop returns the first such position, or -1 |
| ConstantsDecrypter.IsNormalStringDecrypter | de4dot.code/deobfuscators/ConfuserEx/ConstantDecrypter.cs:372-404 | under 25 instructions nothing is found or changed; otherwise the body is rewritten, found means a mul/xor window exists, and `num1`/`num2` are its two constants |
| ConstantsDecrypter.MulXorWindowComputesKey | de4dot.code/deobfuscators/ConfuserEx/ConstantDecrypter.cs:389-401 | the `ldc.i4 num1; mul; ldc.i4 num2; xor` window the recogniser reads, run on an evaluation stack holding the index, leaves exactly the term `(index * num1) ^ num2` |
| ConstantsDecrypter.KeyTermIsArithmeticKey | de4dot.code/deobfuscators/ConfuserEx/ConstantDecrypter.cs:66 | that term's uint value is the key `CalculateMagic` computes from `Num1` and `Num2` |
| ConstantsDecrypter.NormalizeKeepsNativeDecryptor | de4dot.code/deobfuscators/ConfuserEx/ConstantDecrypter.cs:350-359 | the rewrite of the normal check leaves a native decrypter's body untouched |
| ConstantsDecrypter.Tagged | de4dot.code/deobfuscators/ConfuserEx/ConstantDecrypter.cs:350-368 | one decrypter record per recognised shape |
| ConstantsDecrypter.ScanKeepsShape | de4dot.code/deobfuscators/ConfuserEx/ConstantDecrypter.cs:330-370 | the scan rewrites bodies without adding or removing methods or changing body lengths |
| ConstantsDecrypter.ScanSitesNameScanned | de4dot.code/deobfuscators/ConfuserEx/ConstantDecrypter.cs:330-370 | every record names a scanned method and carries the decrypted blob |
| ConstantsDecrypter.CandidateSameShape | de4dot.code/deobfuscators/ConfuserEx/ConstantDecrypter.cs:332-346 | whether a method is a decrypter candidate depends on its signature and its having a body, so rewriting bodies in place never changes it |
| ConstantsDecrypter.ScanSitesAreCandidates | de4dot.code/deobfuscators/ConfuserEx/ConstantDecrypter.cs:332-370 | every record of the scan names a method that passes the candidate filter |
| ConstantsDecrypter.ScanBodiesKeepsOthers | de4dot.code/deobfuscators/ConfuserEx/ConstantDecrypter.cs:330-370 | the scan leaves the body of every method it does not reach, and of every non-candidate, unchanged |
| ConstantsDecrypter.TaggedNames | de4dot.code/deobfuscators/ConfuserEx/ConstantDecrypter.cs:352-367 | the records of one method name that method and carry the blob |
| ConstantsDecrypter.BothShapesYieldTwoSites | de4dot.code/deobfuscators/ConfuserEx/ConstantDecrypter.cs:350-368 | a body matching both shapes yields two records, the native one first |
| ConstantsDecrypter.ScanStep | de4dot.code/deobfuscators/ConfuserEx/ConstantDecrypter.cs:332-369 | one more method adds its records and its rewritten body when it is a candidate and changes nothing otherwise |
| ConstantsDecrypter.ScanFromIsScan | de4dot.code/deobfuscators/ConfuserEx/ConstantDecrypter.cs:332-369 | finishing the scan from any point gives the whole scan |
| ConstantsDecrypter.ScanCandidate | de4dot.code/deobfuscators/ConfuserEx/ConstantDecrypter.cs:348-368 | the two recognisers yield the method's records and its rewritten body |
| ConstantsDecrypter.NativeShapeOf | de4dot.code/deobfuscators/ConfuserEx/ConstantDecrypter.cs:350-358 | the native recogniser yields the native record, if any |
| ConstantsDecrypter.NormalShapeOf | de4dot.code/deobfuscators/ConfuserEx/ConstantDecrypter.cs:359-367 | the normal recogniser yields the normal record, if any, and the rewritten body |
| ConstantsDecrypter.ScanMethods | de4dot.code/deobfuscators/ConfuserEx/ConstantDecrypter.cs:330-370 | the loop over the methods computes the records and bodies of the whole scan |
| ConstantsDecrypter.Decrypt | de4dot.code/deobfuscators/ConfuserEx/ConstantDecrypter.cs:472-562 | the result is "no value" exactly when the generic argument does not verify; decryption can fail only after it verifies |
| ConstantsDecrypter.VerifyGenericArgUnique | de4dot.code/deobfuscators/ConfuserEx/ConstantDecrypter.cs:472-478 | an instantiation passes the generic-argument check for one element type at most, and only with exactly one type argument |
| ConstantsDecrypter.DispatchExclusive | de4dot.code/deobfuscators/ConfuserEx/ConstantDecrypter.cs:472-562 | at most one typed dispatcher accepts a given generic argument |
| ConstantsDecrypter.ArithmeticMagic | de4dot.code/deobfuscators/ConfuserEx/ConstantDecrypter.cs:65-70 | in normal mode the offset always computes and, as `int`, equals the arithmetic offset |
| ConstantsDecrypter.DispatchScalarRoundTrip | de4dot.code/deobfuscators/ConfuserEx/ConstantDecrypter.cs:487-541 | a scalar stored at the arithmetic offset comes back from its typed dispatcher |
| ConstantsDecrypter.ConstantRoundTrip | de4dot.code/deobfuscators/ConfuserEx/ConstantDecrypter.cs:82-88 | a scalar stored at the arithmetic offset comes back from `DecryptConstant` |
| ConstantsDecrypter.DispatchStringRoundTrip | de4dot.code/deobfuscators/ConfuserEx/ConstantDecrypter.cs:480-485 | a string stored at the arithmetic offset comes back from the string dispatcher |
| ConstantsDecrypter.DispatchArrayRoundTrip | de4dot.code/deobfuscators/ConfuserEx/ConstantDecrypter.cs:557-562 | an array stored at the arithmetic offset comes back from the array dispatcher |
| ConstantsDecrypter.ArrayDecoderRoundTrip | de4dot.code/deobfuscators/ConfuserEx/ConstantDecrypter.cs:90-98 | an array stored at the arithmetic offset comes back from `DecryptArray` |
| ConstantsDecrypter.DecryptInitializerSteps | de4dot.code/deobfuscators/ConfuserEx/ConstantDecrypter.cs:168-187 | recognising, patching, running and decompressing compute the initializer's fields and blob, and fail exactly where a step does |
| ConstantsDecrypter.DecryptInitializerMeaning | de4dot.code/deobfuscators/ConfuserEx/ConstantDecrypter.cs:168-187 | a result carries the array and target fields the recogniser finds and, as blob, the decompressed output of the patched initializer run on the array field's initial value; a recognised, patchable body yields nothing only when the run or the decompression fails |
| ConstantsDecrypter.TryInitializer | de4dot.code/deobfuscators/ConfuserEx/ConstantDecrypter.cs:157-164 | trying a method as the initializer keeps every method and every body's length |
| ConstantsDecrypter.TryCalls | de4dot.code/deobfuscators/ConfuserEx/ConstantDecrypter.cs:147-160 | the loop over the module initializer's calls keeps the set of methods |
| ConstantsDecrypter.StoredExtends | de4dot.code/deobfuscators/ConfuserEx/ConstantDecrypter.cs:159 | a successful try keeps the stored fields together, keeps the earlier decrypters and appends only records naming global methods |
| ConstantsDecrypter.TryInitializerExtends | de4dot.code/deobfuscators/ConfuserEx/ConstantDecrypter.cs:157-159 | one try, successful or not, keeps the stored fields together, keeps earlier decrypters and appends only records naming global methods |
| ConstantsDecrypter.TryCallsExtends | de4dot.code/deobfuscators/ConfuserEx/ConstantDecrypter.cs:147-160 | the whole loop over the initializer's calls keeps the same three facts |
| ConstantsDecrypter.FindFoldExtends | de4dot.code/deobfuscators/ConfuserEx/ConstantDecrypter.cs:143-166 | `Find()` as a whole keeps the stored fields together and the set of methods, keeps earlier decrypters and appends only records naming global methods |
| ConstantsDecrypter.ConstantsDecrypter.DetectedMeansFound | de4dot.code/deobfuscators/ConfuserEx/ConstantDecrypter.cs:140-141 | in a valid state, `Detected` holds exactly when an initializer was found and some decrypter was recorded |
| ConstantsDecrypter.ConstantsDecrypter.FindInitializer | de4dot.code/deobfuscators/ConfuserEx/ConstantDecrypter.cs:168-187 | true exactly when the initializer decrypts; then the fields, blob, method and `CanRemoveLzma` are set from it, and nothing changes otherwise |
| ConstantsDecrypter.ConstantsDecrypter.FindStringDecrypters | de4dot.code/deobfuscators/ConfuserEx/ConstantDecrypter.cs:330-370 | returns the records of the whole scan and leaves the rewritten bodies behind |
| ConstantsDecrypter.ConstantsDecrypter.AppendDecrypters | de4dot.code/deobfuscators/ConfuserEx/ConstantDecrypter.cs:159 | the decrypters become the old ones followed by the records of a whole scan of the global methods, and the bodies become the scan's rewritten bodies; the state stays valid and new records name global methods |
| ConstantsDecrypter.ConstantsDecrypter.Find | de4dot.code/deobfuscators/ConfuserEx/ConstantDecrypter.cs:143-166 | without a module initializer nothing changes; otherwise the bodies, blob, fields, `Method`, `CanRemoveLzma` and decrypters become `FindFold` of the old ones (each qualifying call of the module initializer in order, then the initializer itself), `Detected` then holds exactly when that fold found an initializer and some decrypter, the state stays valid, earlier decrypters are kept and new ones name global methods |
| ConstantsDecrypter.ConstantsDecrypter.TryAsInitializer | de4dot.code/deobfuscators/ConfuserEx/ConstantDecrypter.cs:157-159 | the state becomes `TryInitializer` of the old state: the fields of a successful `Find(MethodDef)` plus the appended records and rewritten bodies, or no change on failure |
| LzmaFinder.IsLzmaMethod | de4dot.code/deobfuscators/ConfuserEx/LzmaFinder.cs:48-85 | true exactly when the body has at least 60 instructions and calls each of the five stream and decoder shapes |
| LzmaFinder.BodyCoveredGrows | de4dot.code/deobfuscators/ConfuserEx/LzmaFinder.cs:87-105 | a body whose nested callees are collected stays so as the list grows |
| LzmaFinder.LzmaFinder.TypeCoveredGrows | de4dot.code/deobfuscators/ConfuserEx/LzmaFinder.cs:87-105 | a type whose methods are covered stays so as the list grows |
| LzmaFinder.LzmaFinder.CollectedGrows | de4dot.code/deobfuscators/ConfuserEx/LzmaFinder.cs:87-105 | two collecting stages in a row are one collecting stage |
| LzmaFinder.LzmaFinder.CollectedAfterVisit | de4dot.code/deobfuscators/ConfuserEx/LzmaFinder.cs:99-102 | adding a new nested type and collecting from it keeps the list duplicate-free and covered |
| LzmaFinder.LzmaFinder.NestedFrom | de4dot.code/deobfuscators/ConfuserEx/LzmaFinder.cs:87-105 | the walk from a type only appends to the list |
| LzmaFinder.LzmaFinder.MethodsFrom | de4dot.code/deobfuscators/ConfuserEx/LzmaFinder.cs:89-104 | the walk of a type's methods in order, skipping those without a body, only appends |
| LzmaFinder.LzmaFinder.BodyFrom | de4dot.code/deobfuscators/ConfuserEx/LzmaFinder.cs:92-104 | the walk of a body's instructions in order only appends |
| LzmaFinder.LzmaFinder.VisitFrom | de4dot.code/deobfuscators/ConfuserEx/LzmaFinder.cs:94-103 | one instruction only appends: its new nested declaring type, then that type's walk |
| LzmaFinder.LzmaFinder.BodyFromGrows | de4dot.code/deobfuscators/ConfuserEx/LzmaFinder.cs:92-104 | a body walk adds a type only when some instruction names a method of a nested type |
| LzmaFinder.LzmaFinder.MethodsFromGrows | de4dot.code/deobfuscators/ConfuserEx/LzmaFinder.cs:89-104 | a walk of methods adds a type only when some method body names a method of a nested type |
| LzmaFinder.LzmaFinder.ExtractNestedTypes | de4dot.code/deobfuscators/ConfuserEx/LzmaFinder.cs:87-105 | the list becomes `NestedFrom` of the old list: the depth-first pre-order walk of the type's method bodies; only distinct nested declaring types are appended, each covered, and the given type ends covered |
| LzmaFinder.LzmaFinder.WalkBody | de4dot.code/deobfuscators/ConfuserEx/LzmaFinder.cs:92-104 | the list becomes `BodyFrom` of the old list for the method's instructions in order, and every nested callee's declaring type is in it afterwards |
| LzmaFinder.LzmaFinder.VisitInstr | de4dot.code/deobfuscators/ConfuserEx/LzmaFinder.cs:94-103 | the list becomes `VisitFrom` of the old list: a new nested callee's declaring type is appended and then walked, anything else leaves the list alone |
| LzmaFinder.LzmaFinder.LastDecompressor | de4dot.code/deobfuscators/ConfuserEx/LzmaFinder.cs:33-45 | the last method recognised as the decompressor, or none exactly when none is |
| LzmaFinder.LzmaFinder.FindFrom | de4dot.code/deobfuscators/ConfuserEx/LzmaFinder.cs:33-45 | `Find`'s loop only appends to the list |
| LzmaFinder.LzmaFinder.FindFromGrows | de4dot.code/deobfuscators/ConfuserEx/LzmaFinder.cs:33-45 | `Find`'s loop adds a type only by walking a decompressor's helper type that names a method of a nested type |
| LzmaFinder.LzmaFinder.FoundLzmaExactly | de4dot.code/deobfuscators/ConfuserEx/LzmaFinder.cs:26 | after a run from a fresh finder, `FoundLzma` (a `Method` and a non-empty list) holds exactly when some decompressor's helper type has a method body naming a method of a nested type |
| LzmaFinder.LzmaFinder.VisitMethod | de4dot.code/deobfuscators/ConfuserEx/LzmaFinder.cs:35-45 | a decompressor becomes `Method` and its helper type's nested types are collected; a decompressor whose fourth instruction is not a method call throws as the cast does; on success the list becomes `NestedFrom` of the helper type for a decompressor and is unchanged otherwise |
| LzmaFinder.LzmaFinder.Find | de4dot.code/deobfuscators/ConfuserEx/LzmaFinder.cs:28-46 | `Method`, the list and the exception become exactly those of `FindFrom` over the module type's methods; from a fresh finder, a run without exception ends with `FoundLzma` exactly when some decompressor's helper type has a method body naming a method of a nested type; `Method` is the last decompressor, every decompressor's helper type is covered, or the cast at instruction 3 fails as in the source |
| Inlining.AsMemberRef | de4dot.code/deobfuscators/ConfuserEx/MathInliner.cs:47 | `as IMemberRef` keeps a member reference and turns anything else into null |
| Inlining.ForwarderBody | de4dot.code/deobfuscators/ConfuserEx/MathInliner.cs:22-37 | the wrapper template: `ldarg 0..n-1`, the forwarded instruction, `ret` |
| Inlining.ForwarderShape | de4dot.code/deobfuscators/ConfuserEx/MathInliner.cs:22-37 | a body ending in `ret` is a forwarder exactly when it matches that template |
| Inlining.ForwarderRoundTrip | de4dot.code/deobfuscators/ConfuserEx/MathInliner.cs:46-49 | the template is recognised and maps back to its forwarded instruction |
| Inlining.CheckForwarder | de4dot.code/deobfuscators/ConfuserEx/MathInliner.cs:24-36 | the argument loop and the count test decide exactly the forwarder predicate |
| Inlining.Rewired | de4dot.code/deobfuscators/ConfuserEx/MathInliner.cs:59-64 | a call of a mapped method takes the map's opcode and target; any other instruction is unchanged |
| Inlining.RewireAll | de4dot.code/deobfuscators/ConfuserEx/MathInliner.cs:59-64 | rewiring keeps the block's length |
| Inlining.RewireAllChanges | de4dot.code/deobfuscators/ConfuserEx/MathInliner.cs:59-64 | each position is rewired independently of the others |
| Inlining.InstrsOf | de4dot.code/deobfuscators/ConfuserEx/MathInliner.cs:55 | the instruction lists of the blocks, in order |
| Inlining.AnyFiredAppend | de4dot.code/deobfuscators/ConfuserEx/MathInliner.cs:54-110 | the `modified` flag after one more block is the old flag or that block's |
| Inlining.AnyFiredExists | de4dot.code/deobfuscators/ConfuserEx/MathInliner.cs:54-110 | the flag holds exactly when some block fired |
| Inlining.TypeofStep | de4dot.code/deobfuscators/ConfuserEx/MiscInliner.cs:89-105 | the `typeof` fold removes two instructions and puts a `newobj`; it can fail on the missing third instruction only when that is not checked |
| Inlining.ParseStep | de4dot.code/deobfuscators/ConfuserEx/MiscInliner.cs:123-129 | `ldstr; call int.Parse` folds exactly when the string parses, into `ldc.i4` of the parsed value, removing one instruction |
| Inlining.StepAt | de4dot.code/deobfuscators/ConfuserEx/MiscInliner.cs:86-170 | a fold removes at least one instruction inside the block and never puts a `ldstr` |
| Inlining.PeepholeShrinks | de4dot.code/deobfuscators/ConfuserEx/MiscInliner.cs:86-170 | the folding loop never lengthens a block, and reports a change exactly when it shortened it |
| Inlining.Processed | de4dot.code/deobfuscators/ConfuserEx/MathInliner.cs:56-108 | a block's pass never lengthens it; without inlinable calls it fires exactly when it shortened the block |
| Inlining.RunPeephole | de4dot.code/deobfuscators/ConfuserEx/MiscInliner.cs:86-170 | the in-place folding loop computes the specified fold, its flag and its failure |
| Inlining.Advanced | de4dot.code/deobfuscators/ConfuserEx/MiscInliner.cs:86-170 | a step of that loop never lengthens the block |
| Inlining.PeepholeAdvance | de4dot.code/deobfuscators/ConfuserEx/MiscInliner.cs:86-170 | one step of the loop continues the specified fold from the next position, or is its failure |
| Inlining.PeepholeUnfold | de4dot.code/deobfuscators/ConfuserEx/MiscInliner.cs:86-170 | the fold at a position is the fold after that position's step |
| Inlining.EmptyTypesFold | de4dot.code/deobfuscators/ConfuserEx/MiscInliner.cs:107-114 | `ldsfld Type.EmptyTypes; ldlen` folds into one `ldc.i4` of 0 |
| Inlining.TypeofFold | de4dot.code/deobfuscators/ConfuserEx/MiscInliner.cs:89-105 | `ldtoken T; call GetTypeFromHandle; call CreateInstance` folds into `newobj T::.ctor` |
| Inlining.ParseFold | de4dot.code/deobfuscators/ConfuserEx/MiscInliner.cs:123-129 | a parsable `int.Parse` literal folds into its value |
| Inlining.TrailingTypeofThrows | de4dot.code/deobfuscators/ConfuserEx/MiscInliner.cs:93 | as written, a block ending in `ldtoken; call GetTypeFromHandle` throws; with the bound checked it does not |
| Inlining.CheckedPeepholeTotal | de4dot.code/deobfuscators/ConfuserEx/MiscInliner.cs:86-170 | with the bound checked, a block whose literals all parse never fails |
| Inlining.SpliceParses | de4dot.code/deobfuscators/ConfuserEx/MiscInliner.cs:86-170 | a fold keeps every remaining `ldstr` parsable |
| Inlining.CheckedStepNoFault | de4dot.code/deobfuscators/ConfuserEx/MiscInliner.cs:86-170 | with the bound checked, no single step fails on parsable literals |
| MathInliner.Wrappers | de4dot.code/deobfuscators/ConfuserEx/MathInliner.cs:15-51 | the map holds exactly the forwarders among the module's methods, each mapped to its forwarded instruction |
| MathInliner.WrappersExclude | de4dot.code/deobfuscators/ConfuserEx/MathInliner.cs:17-44 | a method without a body, shorter than two, or not ending in `ret` is never mapped |
| MathInliner.IsForwarderMethod | de4dot.code/deobfuscators/ConfuserEx/MathInliner.cs:17-44 | the constructor's test for one method decides exactly the forwarder predicate |
| MathInliner.MathInliner.Lookup | de4dot.code/deobfuscators/ConfuserEx/MathInliner.cs:60 | `TryGetValue` on the map |
| MathInliner.MathInliner.InlineCalls | de4dot.code/deobfuscators/ConfuserEx/MathInliner.cs:59-65 | the block becomes its rewiring, and the flag says whether any call was inlinable |
| MathInliner.MathInliner.ProcessBlock | de4dot.code/deobfuscators/ConfuserEx/MathInliner.cs:56-108 | one block ends as its specified pass, with that pass's flag or failure |
| MathInliner.MathInliner.Deobfuscate | de4dot.code/deobfuscators/ConfuserEx/MathInliner.cs:53-111 | every block ends as its specified pass and the result says whether any fired; a failure is the failure of some block `j`, the blocks before `j` having ended as their pass and those after it keeping their instructions |
| MiscInliner.DetectedShape | de4dot.code/deobfuscators/ConfuserEx/MiscInliner.cs:16-55 | a method maps only when its body ends in `ret` and holds one `ldarg` per parameter before the forwarded instruction, or is a lone `ret` of a parameterless static method, which maps to `nop` |
| MiscInliner.DetectedWrapper | de4dot.code/deobfuscators/ConfuserEx/MiscInliner.cs:20-41 | a wrapper body is detected and maps to what it forwards |
| MiscInliner.DetectedCases | de4dot.code/deobfuscators/ConfuserEx/MiscInliner.cs:20-54 | two or more instructions map exactly when they forward; a shorter body maps only to `nop`, and only for a static method |
| MiscInliner.MiscInliner.Lookup | de4dot.code/deobfuscators/ConfuserEx/MiscInliner.cs:57-70 | the lookup is `Detect`'s verdict on every method |
| MiscInliner.MiscInliner.Detect | de4dot.code/deobfuscators/ConfuserEx/MiscInliner.cs:16-55 | adds the method's entry exactly when it is detected, and nothing else |
| MiscInliner.MiscInliner.ShouldInline | de4dot.code/deobfuscators/ConfuserEx/MiscInliner.cs:15-71 | answers `Detect`'s verdict, memoises it, and keeps every memo entry correct |
| MiscInliner.MiscInliner.InlineAt | de4dot.code/deobfuscators/ConfuserEx/MiscInliner.cs:80-84 | one instruction is rewired, and its method joins the memo when it is a wrapper |
| MiscInliner.MiscInliner.InlineStep | de4dot.code/deobfuscators/ConfuserEx/MiscInliner.cs:79-85 | one round of the loop extends the rewired prefix |
| MiscInliner.MiscInliner.InlineCalls | de4dot.code/deobfuscators/ConfuserEx/MiscInliner.cs:79-85 | the block becomes its rewiring, the flag says whether any call was inlinable, and the memo gains exactly the wrappers called |
| MiscInliner.CalledWrappersStep | de4dot.code/deobfuscators/ConfuserEx/MiscInliner.cs:79-85 | one more instruction adds at most its own callee to the wrappers called |
| MiscInliner.MiscInliner.ProcessBlock | de4dot.code/deobfuscators/ConfuserEx/MiscInliner.cs:76-170 | one block ends as its specified pass, with that pass's flag or failure |
| MiscInliner.MiscInliner.Deobfuscate | de4dot.code/deobfuscators/ConfuserEx/MiscInliner.cs:73-173 | every block ends as its specified pass and the result says whether any fired; a failure is the failure of some block `j`, the blocks before `j` having ended as their pass and those after it keeping their instructions |
| SwitchData.NormalSwitchHeader | de4dot.code/deobfuscators/ConfuserEx/NormalSwitchData.cs:13-34 | the header template has seven instructions |
| SwitchData.NormalHeaderRoundTrip | de4dot.code/deobfuscators/ConfuserEx/NormalSwitchData.cs:13-34 | the template is recognised, and its key and division key read back |
| SwitchData.NormalHeaderNeedsSeven | de4dot.code/deobfuscators/ConfuserEx/NormalSwitchData.cs:15-16 | a header with one instruction more or less is not recognised |
| SwitchData.NormalSwitchData.Initialize | de4dot.code/deobfuscators/ConfuserEx/NormalSwitchData.cs:13-34 | true exactly for the header shape; then `Key` and `DivisionKey` are its two constants, and nothing changes otherwise |
| SwitchData.LastLdcI4 | de4dot.code/deobfuscators/ConfuserEx/NormalSwitchData.cs:47-52 | the last `ldc.i4` position, or -1 exactly when there is none |
| SwitchData.LastLdcI4Append | de4dot.code/deobfuscators/ConfuserEx/NormalSwitchData.cs:47-52 | appending an `ldc.i4` makes it the last; appending anything else changes nothing |
| SwitchData.LastLdcI4Prefix | de4dot.code/deobfuscators/ConfuserEx/NormalSwitchData.cs:47-52 | the answer depends only on the prefix searched |
| SwitchData.SimpleSwitchData.Initialize | de4dot.code/deobfuscators/ConfuserEx/NormalSwitchData.cs:42-54 | true exactly for three or more instructions holding an `ldc.i4`; then `Key` is the last one's value, and nothing changes otherwise |
| TypesRestorer.ArrayBase | de4dot.code/deobfuscators/ConfuserEx/TypesRestorer.cs:199-213 | the element type under all array wrappers is not an array |
| TypesRestorer.SpineRebuild | de4dot.code/deobfuscators/ConfuserEx/TypesRestorer.cs:199-213 | a type is its array wrappers around its element type |
| TypesRestorer.Rebuilt | de4dot.code/deobfuscators/ConfuserEx/TypesRestorer.cs:202-211 | `[]` and rank-1 arrays become `[]`; any other rank becomes `ArraySig` of rank 0 |
| TypesRestorer.Specify | de4dot.code/deobfuscators/ConfuserEx/TypesRestorer.cs:193-215 | succeeds exactly when the type is the parameter under array wrappers, and then gives the hint under the rebuilt wrappers |
| TypesRestorer.SpecifyDropsRank | de4dot.code/deobfuscators/ConfuserEx/TypesRestorer.cs:205-206 | a multi-dimensional array of the parameter becomes an array of rank 0 |
| TypesRestorer.FirstSpecifyMeaning | de4dot.code/deobfuscators/ConfuserEx/TypesRestorer.cs:181-191 | no result exactly when no single-hint parameter specifies the type; a result comes from one of them |
| TypesRestorer.FirstSpecifyIsFirst | de4dot.code/deobfuscators/ConfuserEx/TypesRestorer.cs:183-188 | the result is that of the first single-hint parameter that specifies the type |
| TypesRestorer.FirstSpecifyFrom | de4dot.code/deobfuscators/ConfuserEx/TypesRestorer.cs:183-188 | once a result is found, later parameters do not change it |
| TypesRestorer.SpecifyRelation | de4dot.code/deobfuscators/ConfuserEx/TypesRestorer.cs:181-191 | the early-return loop computes that first result |
| TypesRestorer.Singles | de4dot.code/deobfuscators/ConfuserEx/TypesRestorer.cs:36-45 | exactly the indices with one hint, in descending order |
| TypesRestorer.Reverse | de4dot.code/deobfuscators/ConfuserEx/TypesRestorer.cs:43 | position k of the result is position `n-1-k` of the input |
| TypesRestorer.ReverseAscending | de4dot.code/deobfuscators/ConfuserEx/TypesRestorer.cs:36-45 | reversing the ascending list gives the descending one |
| TypesRestorer.Cleaned | de4dot.code/deobfuscators/ConfuserEx/TypesRestorer.cs:36-45 | the loop and `Reverse` give exactly the single-hint indices, in descending order |
| TypesRestorer.RemoveAt | de4dot.code/deobfuscators/ConfuserEx/TypesRestorer.cs:155 | `RemoveAt` succeeds exactly for an index inside the list |
| TypesRestorer.Without | de4dot.code/deobfuscators/ConfuserEx/TypesRestorer.cs:154-156 | dropping a set of positions never lengthens the list |
| TypesRestorer.WithoutTail | de4dot.code/deobfuscators/ConfuserEx/TypesRestorer.cs:154-156 | positions dropped only from a prefix leave the rest as it was |
| TypesRestorer.WithoutBeyond | de4dot.code/deobfuscators/ConfuserEx/TypesRestorer.cs:154-156 | dropping a position past the end changes nothing |
| TypesRestorer.Elements | de4dot.code/deobfuscators/ConfuserEx/TypesRestorer.cs:154 | the set of listed indices |
| TypesRestorer.RemoveDescending | de4dot.code/deobfuscators/ConfuserEx/TypesRestorer.cs:154-156 | removing valid indices in descending order removes exactly those positions |
| TypesRestorer.RemoveAll | de4dot.code/deobfuscators/ConfuserEx/TypesRestorer.cs:154-156 | the removal loop computes the successive removals |
| TypesRestorer.WithoutAll | de4dot.code/deobfuscators/ConfuserEx/TypesRestorer.cs:169-175 | dropping every position leaves nothing |
| TypesRestorer.FreshCall | de4dot.code/deobfuscators/ConfuserEx/TypesRestorer.cs:69-73 | a new relation has no callers and one empty hint list per generic parameter |
| TypesRestorer.GenericCalls | de4dot.code/deobfuscators/ConfuserEx/TypesRestorer.cs:65-75 | one fresh relation per generic method outside the global type, in declaration order |
| TypesRestorer.GenericCallsComplete | de4dot.code/deobfuscators/ConfuserEx/TypesRestorer.cs:65-75 | every such method has a relation |
| TypesRestorer.TypesRestorer.FindAllGenericMethods | de4dot.code/deobfuscators/ConfuserEx/TypesRestorer.cs:65-75 | `methods` becomes those relations |
| TypesRestorer.Added | de4dot.code/deobfuscators/ConfuserEx/TypesRestorer.cs:88-93 | add-if-absent keeps the list, contains the item and keeps it duplicate-free |
| TypesRestorer.Recorded | de4dot.code/deobfuscators/ConfuserEx/TypesRestorer.cs:90-94 | recording type arguments succeeds exactly when there are no more of them than generic parameters |
| TypesRestorer.RecordArgs | de4dot.code/deobfuscators/ConfuserEx/TypesRestorer.cs:90-94 | the loop computes that recording |
| TypesRestorer.FirstCall | de4dot.code/deobfuscators/ConfuserEx/TypesRestorer.cs:85-87 | the first relation whose method the instantiation resolves to, or -1 exactly when none does |
| TypesRestorer.RecordSpec | de4dot.code/deobfuscators/ConfuserEx/TypesRestorer.cs:82-96 | recording one instantiation keeps the relations' shape and their hint lists duplicate-free |
| TypesRestorer.ScanInstrs | de4dot.code/deobfuscators/ConfuserEx/TypesRestorer.cs:81-98 | the same for one method's instructions |
| TypesRestorer.ScanDefs | de4dot.code/deobfuscators/ConfuserEx/TypesRestorer.cs:78-99 | the same for every method with a body |
| TypesRestorer.TypesRestorer.Record | de4dot.code/deobfuscators/ConfuserEx/TypesRestorer.cs:82-96 | updates `methods` as specified for one instantiation, or fails as it does |
| TypesRestorer.TypesRestorer.ScanBody | de4dot.code/deobfuscators/ConfuserEx/TypesRestorer.cs:81-98 | updates `methods` as specified for one body, or fails as it does |
| TypesRestorer.TypesRestorer.ScanGenericRelation | de4dot.code/deobfuscators/ConfuserEx/TypesRestorer.cs:77-100 | `methods` becomes the specified scan, or the scan's failure is returned |
| TypesRestorer.RetypedAll | de4dot.code/deobfuscators/ConfuserEx/TypesRestorer.cs:112-123 | each local or parameter type is replaced by its specified form |
| TypesRestorer.RetypeSigs | de4dot.code/deobfuscators/ConfuserEx/TypesRestorer.cs:112-123 | the loop computes that and reports whether any changed |
| TypesRestorer.RetypedInstrs | de4dot.code/deobfuscators/ConfuserEx/TypesRestorer.cs:135-142 | each type-token operand is replaced by its specified form |
| TypesRestorer.RestoreCallees | de4dot.code/deobfuscators/ConfuserEx/TypesRestorer.cs:129-144 | the loop computes that and reports whether any changed |
| TypesRestorer.RestoredMethod | de4dot.code/deobfuscators/ConfuserEx/TypesRestorer.cs:104-125 | restoring keeps the method's identity, generic parameters and whether it has a body, retypes return and parameters, and an unchanged flag means an unchanged method |
| TypesRestorer.RestoreMethod | de4dot.code/deobfuscators/ConfuserEx/TypesRestorer.cs:104-125 | the steps compute the restored method |
| TypesRestorer.RestoredMethodAsWritten | de4dot.code/deobfuscators/ConfuserEx/TypesRestorer.cs:112 | as written, restoring throws exactly for a method without a body |
| TypesRestorer.BodilessGenericThrows | de4dot.code/deobfuscators/ConfuserEx/TypesRestorer.cs:65-75 | a bodiless generic method gets a relation, so the as-written restore reaches it and throws |
| TypesRestorer.RestoredMethodTotal | de4dot.code/deobfuscators/ConfuserEx/TypesRestorer.cs:104-125 | the corrected restore retypes a bodiless method's signature and agrees with the as-written one on every method with a body |
| TypesRestorer.RestoreAll | de4dot.code/deobfuscators/ConfuserEx/TypesRestorer.cs:102-127 | restoring every relation keeps the method count, and an unchanged flag means unchanged methods |
| TypesRestorer.RestoreAllKeeps | de4dot.code/deobfuscators/ConfuserEx/TypesRestorer.cs:102-127 | restoring keeps each method's identity, generic parameters and whether it has a body |
| TypesRestorer.RestoreEach | de4dot.code/deobfuscators/ConfuserEx/TypesRestorer.cs:102-127 | the loop computes that restoration |
| TypesRestorer.TypesRestorer.RestoreTypes | de4dot.code/deobfuscators/ConfuserEx/TypesRestorer.cs:102-127 | the methods become their restoration, and the result is its flag |
| TypesRestorer.Round | de4dot.code/deobfuscators/ConfuserEx/TypesRestorer.cs:57-60 | a round keeps the method count, and a round that changes nothing leaves the methods as they were |
| TypesRestorer.Iterate | de4dot.code/deobfuscators/ConfuserEx/TypesRestorer.cs:56-61 | a successful iteration is the result of some single round |
| TypesRestorer.IterateCount | de4dot.code/deobfuscators/ConfuserEx/TypesRestorer.cs:56 | the rounds run are between 1 and the limit |
| TypesRestorer.IterateSettles | de4dot.code/deobfuscators/ConfuserEx/TypesRestorer.cs:56-61 | stopping before the limit means the last round changed nothing, so one more round is the same |
| TypesRestorer.Rounds | de4dot.code/deobfuscators/ConfuserEx/TypesRestorer.cs:56-61 | the rounds' relations refer to the resulting methods |
| TypesRestorer.IterateUnfold | de4dot.code/deobfuscators/ConfuserEx/TypesRestorer.cs:56-61 | the loop stops on a failure, on no change or at the limit, and otherwise continues from the new methods |
| TypesRestorer.RoundsSettle | de4dot.code/deobfuscators/ConfuserEx/TypesRestorer.cs:56-61 | stopping before 20 rounds means a fixed point was reached |
| TypesRestorer.TypesRestorer.RunRound | de4dot.code/deobfuscators/ConfuserEx/TypesRestorer.cs:57-60 | one round continues or ends the specified iteration |
| TypesRestorer.TypesRestorer.RunRounds | de4dot.code/deobfuscators/ConfuserEx/TypesRestorer.cs:56-61 | the loop computes the specified iteration or its failure |
| TypesRestorer.RestoredSignature | de4dot.code/deobfuscators/ConfuserEx/TypesRestorer.cs:153-157 | removing the resolved generic parameters keeps the method count |
| TypesRestorer.SignatureLosesSingles | de4dot.code/deobfuscators/ConfuserEx/TypesRestorer.cs:153-157 | exactly the single-hint generic parameters are removed |
| TypesRestorer.TypesRestorer.RestoreSignature | de4dot.code/deobfuscators/ConfuserEx/TypesRestorer.cs:153-157 | the methods become the specified signature restoration, or its failure is returned |
| TypesRestorer.StrippedInstr | de4dot.code/deobfuscators/ConfuserEx/TypesRestorer.cs:164-176 | stripping keeps the opcode and leaves any instruction not instantiating the method unchanged |
| TypesRestorer.CallSiteLosesSingles | de4dot.code/deobfuscators/ConfuserEx/TypesRestorer.cs:169-175 | a call site loses exactly the resolved type arguments, and becomes a plain method call when none is left |
| TypesRestorer.StrippedInstrs | de4dot.code/deobfuscators/ConfuserEx/TypesRestorer.cs:163-177 | succeeds exactly when every instruction strips, each position then holding its stripped form |
| TypesRestorer.SharedStripped | de4dot.code/deobfuscators/ConfuserEx/TypesRestorer.cs:163-175 | the instruction loop with instantiations shared by token keeps the number of instructions and the token table's keys |
| TypesRestorer.SharedSpecRemovedTwice | de4dot.code/deobfuscators/ConfuserEx/TypesRestorer.cs:169-172 | two calls through one shared `m<A>` with its only parameter cleaned throw `ArgumentOutOfRange` at the second |
| TypesRestorer.SharedSpecLosesTwo | de4dot.code/deobfuscators/ConfuserEx/TypesRestorer.cs:169-172 | two calls through one shared `m<A, B, C>` with parameter 0 cleaned leave both calls as `m<C>` |
| TypesRestorer.CopiesLoseOne | de4dot.code/deobfuscators/ConfuserEx/TypesRestorer.cs:169-175 | with a copy per instruction the same two calls each become `m<B, C>` |
| TypesRestorer.StripCallSites | de4dot.code/deobfuscators/ConfuserEx/TypesRestorer.cs:163-177 | the loop computes that stripping |
| TypesRestorer.RestoredCallers | de4dot.code/deobfuscators/ConfuserEx/TypesRestorer.cs:159-179 | stripping the callers keeps the method count |
| TypesRestorer.TypesRestorer.RestoreCallers | de4dot.code/deobfuscators/ConfuserEx/TypesRestorer.cs:159-179 | the methods become the specified caller restoration, or its failure is returned |
| TypesRestorer.CleanupAll | de4dot.code/deobfuscators/ConfuserEx/TypesRestorer.cs:146-151 | the cleanup keeps the method count |
| TypesRestorer.TypesRestorer.Cleanup | de4dot.code/deobfuscators/ConfuserEx/TypesRestorer.cs:146-151 | the methods become the specified cleanup, or its failure is returned |
| TypesRestorer.TypesRestorer.Deobfuscate | de4dot.code/deobfuscators/ConfuserEx/TypesRestorer.cs:55-63 | at most 20 rounds, stopping at the first that changes nothing, then the cleanup; any failure is returned |

## Left out

- MathInliner.MathInliner.Deobfuscate: on a failure the contract does not state the failing block's own instructions, which the source leaves partly rewritten in place when the exception leaves its loop.
- MiscInliner.MiscInliner.Deobfuscate: the same for the failing block of MiscInliner's pass.
- Running the patched initializer (`ModuleDefUser`, `Module.Write`, `Assembly.Load`, `Invoke`) is the parameter `run`; the model only builds the patched body.
- `Lzma.Decompress` is the parameter `decompress`; the model does not decompress.
- The native key routine runs in an x86 emulator; the model takes its result from the parameter `emulate`.
- UTF-8 decoding and `string.Intern` are not modelled: a decrypted string is its bytes.
- `DecryptSingle` and `DecryptDouble`: floating point is not modelled; the other typed dispatchers are.
- The `Convert.ToInt32`, `float.Parse`, `double.Parse` and `Math.*` folds compute with floating point and are not modelled: the model leaves those instruction pairs as they are, where the source would fold them.
- `int.Parse` is the parameter `parse`.
- `ISimpleDeobfuscator.Deobfuscate` is not modelled: method bodies are taken as already simplified.
- `DotNetUtils.GetType` for `ArrayType` is not modelled.
- `Console.WriteLine` of the caught exception message is not modelled; the exception is the failure result.
- dnlib's object model is reduced to the fields the core reads: opcodes, operands, method signatures, declaring types and nesting.
- `DeobfuscateBegin` only records the current method for the `typeof` fold's member reference; the model builds that reference from the type alone.
- Method bodies are a snapshot of the module: a rewrite of one body is seen by later reads of that body only.
- Outside `TypesRestorer.SharedStripped`, each instruction holds its own copy of its `MethodSpec`, so `RestoreCallers` strips every call site once from the original arguments; the loaded module shares one `MethodSpec` per token among all instructions that use it, which the source then strips once per instruction (see Findings).
- ConstantsDecrypter.IsNormalStringDecrypter: every `ldc.i4` form carries its constant as an int operand, so the `(int)(uint)` unboxing at ConstantDecrypter.cs:393-398 of a short form's operand (`InvalidCastException` for the sbyte of `ldc.i4.s`, `NullReferenceException` for `ldc.i4.0`-`ldc.i4.8` and `ldc.i4.m1`) is not modelled; the model reads the constant.
- `TypeSig` is compared by value; dnlib's `List.Contains` compares by reference unless a comparer is given.
- The hidden `this` parameter counts in `ParamCount` for instance methods, as `method.Parameters.Count` does.
- The `SwitchData` base class (its block and `Key` field) is reduced to the fields the two subclasses set.
- TypesRestorer.Rebuilt: dnlib's one-argument `ArraySig` constructor gives rank 0, and the model keeps that as written.
- ConstantDecrypterBase.MaskAndShift and ConstantDecrypterBase.CalculateMagic state the offset's alignment and bound in bit-vector terms rather than as integers.

## Findings

| source | as written | input that shows it | evidently intended | confidence | as-written member | corrected member |
|---|---|---|---|---|---|---|
| de4dot.code/deobfuscators/ConfuserEx/MiscInliner.cs:93 | the `typeof` fold reads `Instructions[i + 2]` without checking that it exists | a block ending in `ldtoken T; call Type.GetTypeFromHandle` | the fold applies only when a third instruction exists | not executed | Inlining.TrailingTypeofThrows | Inlining.CheckedPeepholeTotal |
| de4dot.code/deobfuscators/ConfuserEx/TypesRestorer.cs:112 | `RestoreTypes` reads `method.Body.Variables` for every generic method, though methods without a body are collected too | a generic abstract or extern method declared outside the global type | the locals are retyped only for a method with a body | not executed | TypesRestorer.BodilessGenericThrows | TypesRestorer.RestoredMethodTotal |
| de4dot.code/deobfuscators/ConfuserEx/TypesRestorer.cs:163-175 | `RestoreCallers` removes the cleaned positions from `ms.GenericInstMethodSig.GenericArguments` for every instruction that names `ms`, though instructions with the same token share one `MethodSpec` | two calls of `m<A>` where `m`'s only generic parameter is cleaned (the second `RemoveAt(0)` throws), or two calls of `m<A, B, C>` with parameter 0 cleaned (both end up `m<C>`) | each instantiation loses the cleaned arguments once | not executed | TypesRestorer.SharedSpecRemovedTwice | TypesRestorer.CallSiteLosesSingles |
