/**
 * The block transform behind DriverLicenseService.decrypt and encryptValue (sadl/service.ts):
 * key-set selection by version tag, six blocks cut from the ciphertext, the RSA primitive on
 * each, left padding, and the writes into a zero-filled 720-byte buffer.
 */
module Decryption {
  import opened Outcomes
  import opened Bytes
  import FieldReads

  /** Bytes dropped from the front of the input before the first block (the tag and one more). */
  const HeaderLength := 5
  const BlockCount := 6
  /** Blocks at least this long use the large key and keep their own length as output size. */
  const LargeBlock := 128
  /** Output size for blocks decrypted with the small key. */
  const SmallKeySize := 74

  /** A version tag: the four leading bytes that select a key set. */
  type Tag = s: seq<byte> | |s| == 4 witness [0, 0, 0, 0]

  /** An RSA public key: exponent and modulus. */
  datatype PublicKey = PublicKey(e: nat, n: nat)

  /** The two keys of one licence version. */
  datatype KeySet = KeySet(large: PublicKey, small: PublicKey)

  /** The two version tags with their key sets, as loaded from the versions and keys modules. */
  datatype KeyMaterial = KeyMaterial(version1: Tag, version2: Tag, keys1: KeySet, keys2: KeySet)

  /**
   * The RSA primitive m^e mod n on big-endian byte strings, with the conversions around it;
   * the model leaves it uninterpreted.
   */
  type ModPow = (seq<byte>, PublicKey) -> seq<byte>

  /** bytes.subarray(0, 4). */
  function VersionTag(bytes: seq<byte>): (r: seq<byte>)
    ensures r <= bytes && |r| == Min(4, |bytes|)
  {
    bytes[..Min(4, |bytes|)]
  }

  /** Key-set selection: version 1 is tried first, then version 2; any other tag is refused. */
  function SelectKeys(bytes: seq<byte>, material: KeyMaterial): (r: Result<KeySet>)
    ensures r.Ok? <==> VersionTag(bytes) in {material.version1, material.version2}
    ensures r.Ok? ==> |bytes| >= 4 && bytes[..4] in {material.version1, material.version2}
    ensures r.Ok? ==> r.value == if bytes[..4] == material.version1 then material.keys1 else material.keys2
    ensures r.Err? ==> r.error == InvalidLicenceVersion
  {
    var tag := VersionTag(bytes);
    if tag == material.version1 then Ok(material.keys1)
    else if tag == material.version2 then Ok(material.keys2)
    else Err(InvalidLicenceVersion)
  }

  /** The unsigned big-endian value of a byte string. */
  function BigEndian(s: seq<byte>): nat {
    if s == [] then 0 else 256 * BigEndian(s[..|s| - 1]) + s[|s| - 1]
  }

  /** The padding step of encryptValue: zeros in front up to `size`, never a truncation. */
  function Pad(r: seq<byte>, size: nat): (p: seq<byte>)
    ensures |p| == Max(|r|, size)
    ensures p[|p| - |r|..] == r
    ensures forall k :: 0 <= k < |p| - |r| ==> p[k] == 0
  {
    if |r| < size then Zeros(size - |r|) + r else r
  }

  /** Leading zero bytes do not change a big-endian value. */
  lemma {:induction false} ZerosKeepValue(n: nat, r: seq<byte>)
    ensures BigEndian(Zeros(n) + r) == BigEndian(r)
    decreases |r|
  {
    if r == [] {
      assert Zeros(n) + r == Zeros(n);
      ZerosAreZero(n);
    } else {
      var s := Zeros(n) + r;
      assert s[..|s| - 1] == Zeros(n) + r[..|r| - 1];
      ZerosKeepValue(n, r[..|r| - 1]);
    }
  }

  lemma {:induction false} ZerosAreZero(n: nat)
    ensures BigEndian(Zeros(n)) == 0
  {
    if n > 0 {
      assert Zeros(n)[..n - 1] == Zeros(n - 1);
      ZerosAreZero(n - 1);
    }
  }

  /** Padding keeps the number: the padded output is the same integer as the primitive's output. */
  lemma PadKeepsValue(r: seq<byte>, size: nat)
    ensures BigEndian(Pad(r, size)) == BigEndian(r)
    ensures |Pad(r, size)| >= size
  {
    if |r| < size {
      ZerosKeepValue(size - |r|, r);
    }
  }

  /** encryptValue(rgb, e, n, size): the primitive's output, left-padded to `size` bytes. */
  function EncryptValue(rgb: seq<byte>, key: PublicKey, size: nat, modPow: ModPow): (r: seq<byte>)
    ensures |r| == Max(|modPow(rgb, key)|, size)
  {
    Pad(modPow(rgb, key), size)
  }

  /** encryptValue returns the primitive's number unchanged, as at least `size` big-endian bytes. */
  lemma EncryptValueKeepsNumber(rgb: seq<byte>, key: PublicKey, size: nat, modPow: ModPow)
    ensures var r := EncryptValue(rgb, key, size, modPow);
      |r| >= size && BigEndian(r) == BigEndian(modPow(rgb, key)) && r[|r| - |modPow(rgb, key)|..] == modPow(rgb, key)
  {
    PadKeepsValue(modPow(rgb, key), size);
  }

  /** The key and output size decrypt picks for one block: by the block's own length. */
  function BlockOutput(block: seq<byte>, keys: KeySet, modPow: ModPow): (r: seq<byte>)
    ensures |r| >= if |block| >= LargeBlock then |block| else SmallKeySize
    ensures BigEndian(r) == BigEndian(modPow(block, if |block| >= LargeBlock then keys.large else keys.small))
  {
    if |block| >= LargeBlock then
      EncryptValueKeepsNumber(block, keys.large, |block|, modPow);
      EncryptValue(block, keys.large, |block|, modPow)
    else
      EncryptValueKeepsNumber(block, keys.small, SmallKeySize, modPow);
      EncryptValue(block, keys.small, SmallKeySize, modPow)
  }

  /** decryptedBytes.set(out, at): `out` copied over the buffer from `at` on. */
  function Write(buf: seq<byte>, at: nat, out: seq<byte>): (r: seq<byte>)
    requires at + |out| <= |buf|
    ensures |r| == |buf|
    ensures forall j :: 0 <= j < |r| ==> r[j] == if at <= j < at + |out| then out[j - at] else buf[j]
  {
    buf[..at] + out + buf[at + |out|..]
  }

  /** A buffer that agrees with a write index by index is that write. */
  lemma WriteAt(after: seq<byte>, buf: seq<byte>, at: nat, out: seq<byte>)
    requires at + |out| <= |buf| == |after|
    requires forall j :: 0 <= j < |after| ==> after[j] == if at <= j < at + |out| then out[j - at] else buf[j]
    ensures after == Write(buf, at, out)
  {
  }

  /**
   * The loop of decrypt from block `i` on, with the buffer so far, the ciphertext not yet cut,
   * and the `firstBytes` flag.
   */
  function DecryptBlocks(buf: seq<byte>, data: seq<byte>, i: nat, first: bool, keys: KeySet, modPow: ModPow): (r: Result<seq<byte>>)
    requires |buf| == FieldReads.PlaintextSize
    ensures r.Ok? ==> |r.value| == FieldReads.PlaintextSize
    ensures r.Err? ==> r.error == WriteOutOfBounds
    decreases BlockCount - i
  {
    if i >= BlockCount then Ok(buf)
    else
      var end := if first then 129 else 128;
      var block := data[..Min(end, |data|)];
      var out := BlockOutput(block, keys, modPow);
      var at := i * end;
      if at + |out| > FieldReads.PlaintextSize then Err(WriteOutOfBounds)
      else DecryptBlocks(Write(buf, at, out), data[Min(end, |data|)..], i + 1, false, keys, modPow)
  }

  /** One turn of decrypt's loop: cut a block, decrypt it, and either write it or fail. */
  lemma DecryptBlocksNext(buf: seq<byte>, data: seq<byte>, i: nat, first: bool, keys: KeySet, modPow: ModPow)
    requires |buf| == FieldReads.PlaintextSize && i < BlockCount
    ensures var end := if first then 129 else 128;
      var out := BlockOutput(data[..Min(end, |data|)], keys, modPow);
      DecryptBlocks(buf, data, i, first, keys, modPow) ==
        if i * end + |out| > FieldReads.PlaintextSize then Err(WriteOutOfBounds)
        else DecryptBlocks(Write(buf, i * end, out), data[Min(end, |data|)..], i + 1, false, keys, modPow)
  {
  }

  /** The ciphertext: everything after the first five bytes. */
  function Cipher(bytes: seq<byte>): (r: seq<byte>)
    ensures |bytes| >= HeaderLength ==> bytes == bytes[..HeaderLength] + r
    ensures |bytes| <= HeaderLength ==> r == []
  {
    bytes[Min(HeaderLength, |bytes|)..]
  }

  /** decrypt(bytes): the plaintext buffer, or why there is none. */
  function DecryptSpec(bytes: seq<byte>, material: KeyMaterial, modPow: ModPow): (r: Result<seq<byte>>)
    ensures r.Ok? ==> |r.value| == FieldReads.PlaintextSize
    ensures r.Err? ==> r.error in {InvalidLicenceVersion, WriteOutOfBounds}
    ensures (r.Err? && r.error == InvalidLicenceVersion) <==> VersionTag(bytes) !in {material.version1, material.version2}
  {
    var keys :- SelectKeys(bytes, material);
    DecryptBlocks(Zeros(FieldReads.PlaintextSize), Cipher(bytes), 0, true, keys, modPow)
  }

  // A description of the same result by block number instead of by loop state.

  /** Where block k ends in the ciphertext: 129 bytes for block 0, 128 for each later one. */
  function BlockEnd(k: nat): nat {
    128 * k + 129
  }

  function BlockStart(k: nat): nat {
    if k == 0 then 0 else BlockEnd(k - 1)
  }

  /** Block k of the ciphertext, short or empty once the ciphertext runs out. */
  function Block(c: seq<byte>, k: nat): seq<byte> {
    c[Min(BlockStart(k), |c|)..Min(BlockEnd(k), |c|)]
  }

  function Output(c: seq<byte>, k: nat, keys: KeySet, modPow: ModPow): seq<byte> {
    BlockOutput(Block(c, k), keys, modPow)
  }

  /** Where block k's output is written: i * end is 0 for block 0 and 128 * k after it. */
  function Offset(k: nat): nat {
    128 * k
  }

  predicate Fits(c: seq<byte>, k: nat, keys: KeySet, modPow: ModPow) {
    Offset(k) + |Output(c, k, keys, modPow)| <= FieldReads.PlaintextSize
  }

  predicate AllFit(c: seq<byte>, keys: KeySet, modPow: ModPow) {
    forall k :: 0 <= k < BlockCount ==> Fits(c, k, keys, modPow)
  }

  /** Block k's write reaches byte j. */
  predicate Covers(c: seq<byte>, k: nat, keys: KeySet, modPow: ModPow, j: int) {
    Offset(k) <= j < Offset(k) + |Output(c, k, keys, modPow)|
  }

  /** Byte j after the first n writes: the last write covering j decides it; untouched bytes stay 0. */
  function Painted(c: seq<byte>, keys: KeySet, modPow: ModPow, n: nat, j: int): byte
    decreases n
  {
    if n == 0 then 0
    else
      if Covers(c, n - 1, keys, modPow, j) then Output(c, n - 1, keys, modPow)[j - Offset(n - 1)]
      else Painted(c, keys, modPow, n - 1, j)
  }

  function Canvas(c: seq<byte>, keys: KeySet, modPow: ModPow, n: nat): (r: seq<byte>)
    ensures |r| == FieldReads.PlaintextSize
  {
    seq(FieldReads.PlaintextSize, j => Painted(c, keys, modPow, n, j))
  }

  /** The loop state before block i: the ciphertext cut at block i's start, the flag set only for block 0. */
  lemma CutAtBlock(c: seq<byte>, i: nat, first: bool)
    requires first == (i == 0)
    ensures var data := c[Min(BlockStart(i), |c|)..];
      var end := if first then 129 else 128;
      && data[..Min(end, |data|)] == Block(c, i)
      && data[Min(end, |data|)..] == c[Min(BlockStart(i + 1), |c|)..]
      && i * end == Offset(i)
  {
  }

  /** One more write turns the canvas of the first i blocks into that of the first i + 1. */
  lemma {:induction false} CanvasStep(c: seq<byte>, i: nat, keys: KeySet, modPow: ModPow)
    requires Fits(c, i, keys, modPow)
    ensures Write(Canvas(c, keys, modPow, i), Offset(i), Output(c, i, keys, modPow)) == Canvas(c, keys, modPow, i + 1)
  {
    var w := Write(Canvas(c, keys, modPow, i), Offset(i), Output(c, i, keys, modPow));
    forall j | 0 <= j < FieldReads.PlaintextSize
      ensures w[j] == Canvas(c, keys, modPow, i + 1)[j]
    {
      assert Canvas(c, keys, modPow, i + 1)[j] == Painted(c, keys, modPow, i + 1, j);
    }
  }

  /** One turn of the loop, stated on the block-numbered description. */
  lemma {:induction false} DecryptBlocksStep(c: seq<byte>, i: nat, keys: KeySet, modPow: ModPow)
    requires i < BlockCount
    ensures DecryptBlocks(Canvas(c, keys, modPow, i), c[Min(BlockStart(i), |c|)..], i, i == 0, keys, modPow)
      == if !Fits(c, i, keys, modPow) then Err(WriteOutOfBounds)
         else DecryptBlocks(Canvas(c, keys, modPow, i + 1), c[Min(BlockStart(i + 1), |c|)..], i + 1, false, keys, modPow)
  {
    CutAtBlock(c, i, i == 0);
    if Fits(c, i, keys, modPow) {
      CanvasStep(c, i, keys, modPow);
    }
  }

  /** From block i on, the loop ends in the full canvas if every remaining block fits, else in a write error. */
  ghost predicate PaintsFrom(c: seq<byte>, i: nat, keys: KeySet, modPow: ModPow) {
    DecryptBlocks(Canvas(c, keys, modPow, i), c[Min(BlockStart(i), |c|)..], i, i == 0, keys, modPow)
      == if forall k :: i <= k < BlockCount ==> Fits(c, k, keys, modPow)
         then Ok(Canvas(c, keys, modPow, BlockCount)) else Err(WriteOutOfBounds)
  }

  lemma {:induction false} PaintsFromStep(c: seq<byte>, i: nat, keys: KeySet, modPow: ModPow)
    requires i < BlockCount && PaintsFrom(c, i + 1, keys, modPow)
    ensures PaintsFrom(c, i, keys, modPow)
  {
    var r := DecryptBlocks(Canvas(c, keys, modPow, i), c[Min(BlockStart(i), |c|)..], i, i == 0, keys, modPow);
    DecryptBlocksStep(c, i, keys, modPow);
    if Fits(c, i, keys, modPow) {
      var next := DecryptBlocks(Canvas(c, keys, modPow, i + 1), c[Min(BlockStart(i + 1), |c|)..], i + 1, false, keys, modPow);
      assert r == next;
      if forall k :: i + 1 <= k < BlockCount ==> Fits(c, k, keys, modPow) {
        assert next == Ok(Canvas(c, keys, modPow, BlockCount));
        assert forall k :: i <= k < BlockCount ==> Fits(c, k, keys, modPow);
      } else {
        assert next == Err(WriteOutOfBounds);
      }
    } else {
      assert r == Err(WriteOutOfBounds);
    }
  }

  lemma {:induction false} PaintsFromEnd(c: seq<byte>, keys: KeySet, modPow: ModPow)
    ensures PaintsFrom(c, BlockCount, keys, modPow)
  {
  }

  /** Going back from the last block to the first, the loop from block 0 ends as painted. */
  lemma DecryptBlocksPainted(c: seq<byte>, keys: KeySet, modPow: ModPow)
    ensures PaintsFrom(c, 0, keys, modPow)
  {
    PaintsFromLastThree(c, keys, modPow);
    PaintsFromStep(c, 2, keys, modPow);
    PaintsFromStep(c, 1, keys, modPow);
    PaintsFromStep(c, 0, keys, modPow);
  }

  lemma PaintsFromLastThree(c: seq<byte>, keys: KeySet, modPow: ModPow)
    ensures PaintsFrom(c, 3, keys, modPow)
  {
    PaintsFromEnd(c, keys, modPow);
    PaintsFromStep(c, 5, keys, modPow);
    PaintsFromStep(c, 4, keys, modPow);
    PaintsFromStep(c, 3, keys, modPow);
  }

  /**
   * decrypt in closed form: the tag check, then success exactly when every block's output fits,
   * with each byte taken from the last block written over it.
   */
  lemma DecryptCharacterised(bytes: seq<byte>, material: KeyMaterial, modPow: ModPow)
    ensures DecryptSpec(bytes, material, modPow) ==
      match SelectKeys(bytes, material)
      case Err(e) => Err(e)
      case Ok(keys) =>
        if AllFit(Cipher(bytes), keys, modPow) then Ok(Canvas(Cipher(bytes), keys, modPow, BlockCount))
        else Err(WriteOutOfBounds)
  {
    if SelectKeys(bytes, material).Ok? {
      var keys := SelectKeys(bytes, material).value;
      var c := Cipher(bytes);
      assert Canvas(c, keys, modPow, 0) == Zeros(FieldReads.PlaintextSize);
      assert c[Min(BlockStart(0), |c|)..] == c;
      assert DecryptSpec(bytes, material, modPow) ==
        DecryptBlocks(Canvas(c, keys, modPow, 0), c[Min(BlockStart(0), |c|)..], 0, true, keys, modPow);
      DecryptBlocksPainted(c, keys, modPow);
    }
  }

  /** decrypt fails exactly on an unknown tag or on a block whose output runs past the buffer. */
  lemma DecryptFails(bytes: seq<byte>, material: KeyMaterial, modPow: ModPow)
    ensures DecryptSpec(bytes, material, modPow).Err? <==>
      SelectKeys(bytes, material).Err? || exists k :: 0 <= k < BlockCount && !Fits(Cipher(bytes), k, SelectKeys(bytes, material).value, modPow)
    ensures DecryptSpec(bytes, material, modPow).Err? && SelectKeys(bytes, material).Ok? ==>
      DecryptSpec(bytes, material, modPow).error == WriteOutOfBounds
  {
    DecryptCharacterised(bytes, material, modPow);
  }

  /**
   * Block 0 is written over bytes 0..128 and block 1 starts at 128, so byte 128 of the
   * plaintext comes from block 1 whenever block 1 produced any output.
   */
  lemma BlockOneOverwritesBlockZero(bytes: seq<byte>, material: KeyMaterial, modPow: ModPow)
    requires DecryptSpec(bytes, material, modPow).Ok?
    ensures var keys := SelectKeys(bytes, material).value;
      var out1 := Output(Cipher(bytes), 1, keys, modPow);
      |out1| > 0 ==> DecryptSpec(bytes, material, modPow).value[128] == out1[0]
  {
    DecryptCharacterised(bytes, material, modPow);
  }

  /** Bytes past every write keep the buffer's initial zero. */
  lemma UnwrittenBytesAreZero(bytes: seq<byte>, material: KeyMaterial, modPow: ModPow, j: nat)
    requires DecryptSpec(bytes, material, modPow).Ok? && j < FieldReads.PlaintextSize
    requires var keys := SelectKeys(bytes, material).value;
      forall k :: 0 <= k < BlockCount ==> !Covers(Cipher(bytes), k, keys, modPow, j)
    ensures DecryptSpec(bytes, material, modPow).value[j] == 0
  {
    DecryptCharacterised(bytes, material, modPow);
    var keys := SelectKeys(bytes, material).value;
    PaintedUntouched(Cipher(bytes), keys, modPow, BlockCount, j);
  }

  /** No write among the first n reaches byte j, so it is still 0. */
  lemma {:induction false} PaintedUntouched(c: seq<byte>, keys: KeySet, modPow: ModPow, n: nat, j: int)
    requires forall k :: 0 <= k < n ==> !Covers(c, k, keys, modPow, j)
    ensures Painted(c, keys, modPow, n, j) == 0
  {
    if n > 0 {
      PaintedUntouched(c, keys, modPow, n - 1, j);
      assert !Covers(c, n - 1, keys, modPow, j);
    }
  }

  /**
   * A 720-byte input leaves 715 ciphertext bytes: one block of 129, four of 128 (large key)
   * and a short last block of 74 (small key).
   */
  lemma FullPayloadBlocks(bytes: seq<byte>)
    requires |bytes| == FieldReads.PlaintextSize
    ensures |Block(Cipher(bytes), 0)| == 129
    ensures forall k :: 1 <= k <= 4 ==> |Block(Cipher(bytes), k)| == 128
    ensures |Block(Cipher(bytes), 5)| == 74
  {
  }

  /**
   * Once the ciphertext holds a full sixth block (at least 5 + 129 + 5 * 128 = 774 input bytes),
   * its output of at least 128 bytes at offset 640 runs past 720, and decrypt always fails.
   */
  lemma LongPayloadFails(bytes: seq<byte>, material: KeyMaterial, modPow: ModPow)
    requires |bytes| >= 774
    ensures DecryptSpec(bytes, material, modPow).Err?
  {
    DecryptFails(bytes, material, modPow);
    if SelectKeys(bytes, material).Ok? {
      var keys := SelectKeys(bytes, material).value;
      var c := Cipher(bytes);
      assert |Block(c, 5)| == 128;
      assert |Output(c, 5, keys, modPow)| >= 128;
      assert !Fits(c, 5, keys, modPow);
    }
  }
}
