/// A blob: the content of a file, identified by its size and its SHA-1 digest.
/// Two sentinel blobs stand for an empty file and for a file whose content
/// could not be read.
module BlobInfos {
  import opened DotNet

  /// BlobInfo.LENGTH, the length in bytes of a SHA-1 digest.
  const DigestLength := 20

  type Digest = s: seq<bv8> | |s| == DigestLength witness [0, 0, 0, 0, 0, 0, 0, 0, 0, 0, 0, 0, 0, 0, 0, 0, 0, 0, 0, 0]

  /// Digest of the empty-file sentinel: twenty zero bytes.
  const EmptyDigest: Digest := [0, 0, 0, 0, 0, 0, 0, 0, 0, 0, 0, 0, 0, 0, 0, 0, 0, 0, 0, 0]

  /// Digest of the broken sentinel: the SHA-1 of the empty input,
  /// da39a3ee5e6b4b0d3255bfef95601890afd80709.
  const BrokenDigest: Digest :=
    [218, 57, 163, 238, 94, 107, 75, 13, 50, 85, 191, 239, 149, 96, 24, 144, 175, 216, 7, 9]

  /// A blob. Equality of values is BlobInfo.Equals: same size and same digest bytes.
  datatype BlobInfo = BlobInfo(size: int64, sha1: Digest)

  /// The sentinel for files of length zero.
  const Empty := BlobInfo(0, EmptyDigest)

  /// The sentinel for files whose content could not be determined.
  const Broken := BlobInfo(-1, BrokenDigest)

  /// A blob is either the digest of real content (positive size) or one of the sentinels.
  predicate IsSentinel(b: BlobInfo) {
    b == Empty || b == Broken
  }

  /// The public constructor: a positive size and a non-null digest of exactly 20 bytes.
  function NewBlobInfo(size: int64, sha1Digest: Option<seq<bv8>>): (r: Result<BlobInfo>)
    ensures r.Ok? <==> 1 <= size && sha1Digest.Some? && |sha1Digest.value| == DigestLength
    ensures r.Ok? ==> r.value.size == size && r.value.sha1 == sha1Digest.value && !IsSentinel(r.value)
    ensures size < 1 ==> r == Err(ArgumentException)
    ensures 1 <= size && sha1Digest.None? ==> r == Err(ArgumentNullException)
    ensures 1 <= size && sha1Digest.Some? && |sha1Digest.value| != DigestLength ==> r == Err(ArgumentException)
  {
    if size < 1 then Err(ArgumentException)
    else if sha1Digest.None? then Err(ArgumentNullException)
    else if |sha1Digest.value| != DigestLength then Err(ArgumentException)
    else Ok(BlobInfo(size, sha1Digest.value))
  }

  /// The private constructor that builds the two sentinels from their size alone.
  function SentinelBlobInfo(size: int64): (r: Result<BlobInfo>)
    ensures r.Ok? <==> size == 0 || size == -1
    ensures r.Ok? ==> IsSentinel(r.value) && r.value.size == size
    ensures r.Err? ==> r.error == ArgumentException
  {
    if size == 0 then Ok(Empty)
    else if size == -1 then Ok(Broken)
    else Err(ArgumentException)
  }

  /// BlobInfo.Create: a real blob for a positive size, the empty sentinel for
  /// size zero and the broken sentinel for any negative size.
  function Create(size: int64, sha1Digest: Option<seq<bv8>>): (r: Result<BlobInfo>)
    ensures size <= 0 ==> r.Ok?
    ensures r.Ok? ==> (IsSentinel(r.value) <==> size <= 0)
    ensures r.Ok? ==> r.value.size == (if size < 0 then -1 else size)
    ensures 0 < size ==> r == NewBlobInfo(size, sha1Digest)
  {
    if size > 0 then NewBlobInfo(size, sha1Digest)
    else if size == 0 then SentinelBlobInfo(0)
    else SentinelBlobInfo(-1)
  }

  /// A sentinel is never accepted by the public constructor, so the sentinels
  /// cannot be confused with the blob of real content.
  lemma SentinelsAreNotContent(size: int64, sha1Digest: Option<seq<bv8>>)
    requires NewBlobInfo(size, sha1Digest).Ok?
    ensures NewBlobInfo(size, sha1Digest).value != Empty
    ensures NewBlobInfo(size, sha1Digest).value != Broken
  {
  }

  /// The lazily created static sentinels BlobInfo._emptyBlobInfo and
  /// BlobInfo._brokenBlobInfo, and the Create that reads them.
  class BlobInfoStatics {
    var emptyBlobInfo: Option<BlobInfo>
    var brokenBlobInfo: Option<BlobInfo>

    /// A cached sentinel, once created, is the sentinel.
    ghost predicate Valid()
      reads this
    {
      (emptyBlobInfo.Some? ==> emptyBlobInfo.value == Empty) &&
      (brokenBlobInfo.Some? ==> brokenBlobInfo.value == Broken)
    }

    constructor ()
      ensures Valid()
      ensures emptyBlobInfo.None? && brokenBlobInfo.None?
    {
      emptyBlobInfo := None;
      brokenBlobInfo := None;
    }

    /// BlobInfo.EmptyBlobInfo: created on the first read, the same value afterwards.
    method EmptyBlobInfo() returns (b: BlobInfo)
      requires Valid()
      modifies this
      ensures Valid()
      ensures b == Empty && emptyBlobInfo == Some(b)
      ensures brokenBlobInfo == old(brokenBlobInfo)
    {
      if emptyBlobInfo.None? {
        var created := SentinelBlobInfo(0);
        emptyBlobInfo := Some(created.value);
      }
      b := emptyBlobInfo.value;
    }

    /// BlobInfo.BrokenBlobInfo: created on the first read, the same value afterwards.
    method BrokenBlobInfo() returns (b: BlobInfo)
      requires Valid()
      modifies this
      ensures Valid()
      ensures b == Broken && brokenBlobInfo == Some(b)
      ensures emptyBlobInfo == old(emptyBlobInfo)
    {
      if brokenBlobInfo.None? {
        var created := SentinelBlobInfo(-1);
        brokenBlobInfo := Some(created.value);
      }
      b := brokenBlobInfo.value;
    }

    /// BlobInfo.Create as written, going through the static sentinels.
    method CreateBlobInfo(size: int64, sha1Digest: Option<seq<bv8>>) returns (r: Result<BlobInfo>)
      requires Valid()
      modifies this
      ensures Valid()
      ensures r == Create(size, sha1Digest)
    {
      if size > 0 {
        r := NewBlobInfo(size, sha1Digest);
      } else if size == 0 {
        var b := EmptyBlobInfo();
        r := Ok(b);
      } else {
        var b := BrokenBlobInfo();
        r := Ok(b);
      }
    }
  }

  /// BlobInfo.Equals(object): false for null and for objects of another type,
  /// otherwise equal sizes and the twenty digest bytes compared one by one.
  method Equals(self: BlobInfo, obj: Operand<BlobInfo>) returns (r: bool)
    ensures r <==> obj == Instance(self)
  {
    if !obj.Instance? {
      return false;
    }
    var other := obj.value;
    if self.size != other.size {
      return false;
    }
    var index := 0;
    while index < DigestLength
      invariant 0 <= index <= DigestLength
      invariant self.sha1[..index] == other.sha1[..index]
    {
      if self.sha1[index] != other.sha1[index] {
        return false;
      }
      index := index + 1;
    }
    assert self.sha1 == self.sha1[..DigestLength] && other.sha1 == other.sha1[..DigestLength];
    return true;
  }

  /// The 64-bit two's-complement pattern of an Int64.
  function Unsigned64(v: int64): (u: nat)
    ensures u < 0x1_0000_0000_0000_0000
    ensures u % 0x1_0000_0000_0000_0000 == v % 0x1_0000_0000_0000_0000
  {
    if v < 0 then v + 0x1_0000_0000_0000_0000 else v
  }

  /// Int64.GetHashCode: the low 32 bits exclusive-or the high 32 bits.
  function Int64HashCode(v: int64): bv32 {
    var u := Unsigned64(v) as bv64;
    ((u & 0xFFFF_FFFF) as bv32) ^ ((u >> 32) as bv32)
  }

  /// The i-th big-endian 32-bit word of a digest.
  function Word(d: Digest, i: nat): bv32
    requires i < 5
  {
    (d[4 * i] as bv32 << 24) | (d[4 * i + 1] as bv32 << 16) | (d[4 * i + 2] as bv32 << 8) | d[4 * i + 3] as bv32
  }

  /// A seed exclusive-or the first n words.
  function WordsXor(seed: bv32, d: Digest, n: nat): bv32
    requires n <= 5
  {
    if n == 0 then seed else WordsXor(seed, d, n - 1) ^ Word(d, n - 1)
  }

  /// The hash code of a blob: the size's hash exclusive-or the five digest words.
  function HashCode(b: BlobInfo): bv32 {
    WordsXor(Int64HashCode(b.size), b.sha1, 5)
  }

  /// The first j bytes of word i, shifted in one byte at a time.
  function WordPrefix(d: Digest, i: nat, j: nat): bv32
    requires i < 5 && j <= 4
  {
    if j == 0 then 0 else (WordPrefix(d, i, j - 1) << 8) | d[4 * i + j - 1] as bv32
  }

  /// On an Int32, multiplying by 256 and adding a byte shifts the byte in.
  lemma ShiftInByte(x: bv32, b: bv8)
    ensures x * 256 + b as bv32 == (x << 8) | b as bv32
  {
  }

  lemma WordPrefixComplete(d: Digest, i: nat)
    requires i < 5
    ensures WordPrefix(d, i, 4) == Word(d, i)
  {
    assert WordPrefix(d, i, 1) == (0 << 8) | d[4 * i] as bv32;
    assert WordPrefix(d, i, 2) == (WordPrefix(d, i, 1) << 8) | d[4 * i + 1] as bv32;
  }

  /// The inner loop of BlobInfo.GetHashCode: the Int32 accumulator
  /// hashPart * 256 + byte, with Int32 wrap-around, reads word i big-endian.
  method ReadWord(d: Digest, i: nat) returns (hashPart: bv32)
    requires i < 5
    ensures hashPart == Word(d, i)
  {
    hashPart := 0;
    var j := 0;
    while j < 4
      invariant 0 <= j <= 4
      invariant hashPart == WordPrefix(d, i, j)
    {
      var index := i * 4 + j;
      ShiftInByte(hashPart, d[index]);
      hashPart := hashPart * 256 + d[index] as bv32;
      j := j + 1;
    }
    WordPrefixComplete(d, i);
  }

  lemma XorNextWord(seed: bv32, d: Digest, i: nat, hash: bv32, w: bv32)
    requires i < 5 && hash == WordsXor(seed, d, i) && w == Word(d, i)
    ensures hash ^ w == WordsXor(seed, d, i + 1)
  {
  }

  /// The outer loop of BlobInfo.GetHashCode: starting from the size's hash,
  /// exclusive-or in each of the five words read by the inner loop.
  method XorWords(d: Digest, sizeHash: bv32) returns (hash: bv32)
    ensures hash == WordsXor(sizeHash, d, 5)
  {
    hash := sizeHash;
    var i := 0;
    while i < 5
      invariant 0 <= i <= 5
      invariant hash == WordsXor(sizeHash, d, i)
    {
      var hashPart := ReadWord(d, i);
      XorNextWord(sizeHash, d, i, hash, hashPart);
      hash := hash ^ hashPart;
      i := i + 1;
    }
  }

  /// BlobInfo.GetHashCode computes the closed-form hash, so values that
  /// Equals relates have the same hash code.
  method GetHashCode(b: BlobInfo) returns (hash: bv32)
    ensures hash == HashCode(b)
  {
    var sizeHash := Int64HashCode(b.size);
    hash := XorWords(b.sha1, sizeHash);
  }

  /// The upper-case hexadecimal digit of a value below 16.
  function HexDigit(n: int): (c: char)
    requires 0 <= n < 16
    ensures IsHexDigit(c)
  {
    if n < 10 then ('0' as int + n) as char else ('A' as int + n - 10) as char
  }

  predicate IsHexDigit(c: char) {
    '0' <= c <= '9' || 'A' <= c <= 'F'
  }

  function HexValue(c: char): (n: int)
    requires IsHexDigit(c)
    ensures 0 <= n < 16
  {
    if c <= '9' then c as int - '0' as int else c as int - 'A' as int + 10
  }

  lemma HexDigitValue(n: int)
    requires 0 <= n < 16
    ensures HexValue(HexDigit(n)) == n
  {
  }

  /// The two digits BitConverter writes for one byte.
  function ByteText(b: bv8): string {
    [HexDigit(b as int / 16), HexDigit(b as int % 16)]
  }

  /// BitConverter.ToString: the bytes' digit pairs separated by dashes.
  function BitConverterText(d: seq<bv8>): string {
    if |d| == 0 then ""
    else if |d| == 1 then ByteText(d[0])
    else ByteText(d[0]) + "-" + BitConverterText(d[1..])
  }

  /// String.Replace("-", String.Empty).
  function RemoveDashes(s: string): string {
    if |s| == 0 then "" else (if s[0] == '-' then "" else [s[0]]) + RemoveDashes(s[1..])
  }

  /// The text BlobInfo.HexString computes for a digest.
  function DigestHex(d: seq<bv8>): string {
    RemoveDashes(BitConverterText(d))
  }

  /// The reading back of a string of digit pairs.
  function ParseHex(s: string): seq<bv8>
    requires |s| % 2 == 0 && forall k :: 0 <= k < |s| ==> IsHexDigit(s[k])
  {
    if |s| == 0 then [] else [(HexValue(s[0]) * 16 + HexValue(s[1])) as bv8] + ParseHex(s[2..])
  }

  /// The digit pairs with no separator.
  function Pairs(d: seq<bv8>): string {
    if |d| == 0 then "" else ByteText(d[0]) + Pairs(d[1..])
  }

  lemma {:induction false} RemoveDashesAppend(s: string, t: string)
    ensures RemoveDashes(s + t) == RemoveDashes(s) + RemoveDashes(t)
  {
    if |s| == 0 {
      assert s + t == t;
    } else {
      assert (s + t)[1..] == s[1..] + t;
      RemoveDashesAppend(s[1..], t);
    }
  }

  lemma {:induction false} DigestHexIsPairs(d: seq<bv8>)
    ensures DigestHex(d) == Pairs(d)
  {
    if |d| != 0 {
      var t := ByteText(d[0]);
      ByteTextHasNoDash(d[0]);
      if |d| == 1 {
        assert BitConverterText(d) == t;
        assert Pairs(d) == t + Pairs([]);
      } else {
        var rest := BitConverterText(d[1..]);
        assert BitConverterText(d) == t + ("-" + rest);
        RemoveDashesAppend(t, "-" + rest);
        RemoveDashesAppend("-", rest);
        assert RemoveDashes("-") == "";
        DigestHexIsPairs(d[1..]);
        assert DigestHex(d) == t + Pairs(d[1..]);
      }
    }
  }

  /// The two digits of a byte hold no dash.
  lemma ByteTextHasNoDash(b: bv8)
    ensures RemoveDashes(ByteText(b)) == ByteText(b)
  {
    var t := ByteText(b);
    assert t[0] != '-' && t[1] != '-';
    assert t[1..][1..] == [];
    assert RemoveDashes(t[1..]) == [t[1]] + RemoveDashes([]);
  }

  lemma {:induction false} PairsAreDigits(d: seq<bv8>)
    ensures |Pairs(d)| == 2 * |d|
    ensures forall k :: 0 <= k < |Pairs(d)| ==> IsHexDigit(Pairs(d)[k])
  {
    if |d| != 0 {
      PairsAreDigits(d[1..]);
    }
  }

  lemma {:induction false} ParsePairs(d: seq<bv8>)
    ensures |Pairs(d)| == 2 * |d|
    ensures forall k :: 0 <= k < |Pairs(d)| ==> IsHexDigit(Pairs(d)[k])
    ensures ParseHex(Pairs(d)) == d
  {
    PairsAreDigits(d);
    if |d| != 0 {
      ParsePairs(d[1..]);
      var p := Pairs(d);
      assert p[2..] == Pairs(d[1..]);
      var b := d[0] as int;
      HexDigitValue(b / 16);
      HexDigitValue(b % 16);
      assert HexValue(p[0]) * 16 + HexValue(p[1]) == b;
    }
  }

  /// BlobInfo.HexString of a digest: forty upper-case hexadecimal digits with
  /// no separator, from which the digest can be read back.
  lemma HexStringRoundTrip(d: Digest)
    ensures |DigestHex(d)| == 2 * DigestLength
    ensures forall k :: 0 <= k < |DigestHex(d)| ==> IsHexDigit(DigestHex(d)[k])
    ensures ParseHex(DigestHex(d)) == d
  {
    DigestHexIsPairs(d);
    ParsePairs(d);
  }

  /// BlobInfo.ToString, given the text Helper.GetDataSizeString produces for
  /// the size: the digest can be read back from the last forty characters.
  function ToString(b: BlobInfo, dataSizeText: string): (r: string)
    ensures |r| == |dataSizeText| + 3 + 2 * DigestLength
    ensures forall k :: |r| - 2 * DigestLength <= k < |r| ==> IsHexDigit(r[k])
    ensures ParseHex(r[|r| - 2 * DigestLength..]) == b.sha1
  {
    HexStringRoundTrip(b.sha1);
    var r := dataSizeText + " | " + DigestHex(b.sha1);
    assert r[|r| - 2 * DigestLength..] == DigestHex(b.sha1);
    r
  }

  /// A blob together with its lazily computed BlobInfo._hexString.
  class HexStringCache {
    const blob: BlobInfo
    var hexString: Option<string>

    ghost predicate Valid()
      reads this
    {
      hexString.Some? ==> hexString.value == DigestHex(blob.sha1)
    }

    constructor (blob: BlobInfo)
      ensures this.blob == blob && hexString.None? && Valid()
    {
      this.blob := blob;
      hexString := None;
    }

    /// BlobInfo.HexString: computed on the first read, then returned from the cache.
    method HexString() returns (s: string)
      requires Valid()
      modifies this
      ensures Valid()
      ensures s == DigestHex(blob.sha1) && hexString == Some(s)
    {
      if hexString.None? {
        var text := BitConverterText(blob.sha1);
        hexString := Some(RemoveDashes(text));
      }
      s := hexString.value;
    }
  }
}
