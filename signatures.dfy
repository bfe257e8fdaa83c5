/**
 * The file-equivalence check: MatchesSignature compares a local file with an
 * expected (size, MD5) pair or with another file. The digest algorithm itself
 * (MD5.ComputeHash over the file stream) is a parameter of type Digest; the
 * formatting of the digest into text, which decides what `==` compares, is modelled.
 */
module Signatures {

  import opened Platform

  newtype byte = x: int | 0 <= x < 256

  /** A file as PatchUtils reads it: its bytes; FileInfo.Length is their number. */
  datatype FileInfo = FileInfo(content: seq<byte>)

  /** MD5.ComputeHash: bytes to digest bytes. */
  type Digest = seq<byte> -> seq<byte>

  function HexDigit(n: int, upper: bool): (c: char)
    requires 0 <= n < 16
  {
    if n < 10 then ('0' as int + n) as char
    else if upper then ('A' as int + n - 10) as char
    else ('a' as int + n - 10) as char
  }

  /** BitConverter.ToString: each byte as two upper-case hex digits, bytes separated by '-'. */
  function BitConverterToString(bytes: seq<byte>): string
  {
    if bytes == [] then []
    else if |bytes| == 1 then [HexDigit(bytes[0] as int / 16, true), HexDigit(bytes[0] as int % 16, true)]
    else [HexDigit(bytes[0] as int / 16, true), HexDigit(bytes[0] as int % 16, true), '-'] + BitConverterToString(bytes[1..])
  }

  /** String.Replace("-", ""). */
  function RemoveDashes(s: string): string
  {
    if s == [] then [] else (if s[0] == '-' then [] else [s[0]]) + RemoveDashes(s[1..])
  }

  /** String.ToLowerInvariant, on the ASCII letters (the only letters the hex text holds). */
  function ToLowerInvariant(s: string): string
  {
    if s == [] then []
    else [if 'A' <= s[0] <= 'Z' then (s[0] as int + 32) as char else s[0]] + ToLowerInvariant(s[1..])
  }

  /** Md5Hash: the digest of the file's bytes, formatted as the source formats it. */
  function Md5Hash(file: FileInfo, digest: Digest): string
  {
    ToLowerInvariant(RemoveDashes(BitConverterToString(digest(file.content))))
  }

  /** Hex text without separators, two digits per byte, in the chosen case. */
  function Hex(bytes: seq<byte>, upper: bool): string
  {
    if bytes == [] then []
    else [HexDigit(bytes[0] as int / 16, upper), HexDigit(bytes[0] as int % 16, upper)] + Hex(bytes[1..], upper)
  }

  predicate IsLowerHexDigit(c: char)
  {
    '0' <= c <= '9' || 'a' <= c <= 'f'
  }

  lemma {:induction false} RemoveDashesAppend(a: string, b: string)
    ensures RemoveDashes(a + b) == RemoveDashes(a) + RemoveDashes(b)
    decreases |a|
  {
    if a != [] {
      assert (a + b)[1..] == a[1..] + b;
      RemoveDashesAppend(a[1..], b);
    } else {
      assert a + b == b;
    }
  }

  lemma {:induction false} ToLowerAppend(a: string, b: string)
    ensures ToLowerInvariant(a + b) == ToLowerInvariant(a) + ToLowerInvariant(b)
    decreases |a|
  {
    if a != [] {
      assert (a + b)[1..] == a[1..] + b;
      ToLowerAppend(a[1..], b);
    } else {
      assert a + b == b;
    }
  }

  /** Dropping the dashes from BitConverter's text leaves the upper-case hex. */
  lemma {:induction false} DashesRemoved(bytes: seq<byte>)
    ensures RemoveDashes(BitConverterToString(bytes)) == Hex(bytes, true)
    decreases |bytes|
  {
    if |bytes| == 1 {
      assert bytes[1..] == [];
      var hi, lo := HexDigit(bytes[0] as int / 16, true), HexDigit(bytes[0] as int % 16, true);
      assert [hi, lo] == [hi] + [lo];
      RemoveDashesAppend([hi], [lo]);
    } else if |bytes| > 1 {
      var hi, lo := HexDigit(bytes[0] as int / 16, true), HexDigit(bytes[0] as int % 16, true);
      assert [hi, lo, '-'] + BitConverterToString(bytes[1..]) == [hi] + ([lo] + (['-'] + BitConverterToString(bytes[1..])));
      RemoveDashesAppend([hi], [lo] + (['-'] + BitConverterToString(bytes[1..])));
      RemoveDashesAppend([lo], ['-'] + BitConverterToString(bytes[1..]));
      RemoveDashesAppend(['-'], BitConverterToString(bytes[1..]));
      DashesRemoved(bytes[1..]);
    }
  }

  /** Lowering the upper-case hex gives the lower-case hex. */
  lemma {:induction false} HexLowered(bytes: seq<byte>)
    ensures ToLowerInvariant(Hex(bytes, true)) == Hex(bytes, false)
    decreases |bytes|
  {
    if bytes != [] {
      var hi, lo := HexDigit(bytes[0] as int / 16, true), HexDigit(bytes[0] as int % 16, true);
      assert [hi, lo] + Hex(bytes[1..], true) == [hi] + ([lo] + Hex(bytes[1..], true));
      ToLowerAppend([hi], [lo] + Hex(bytes[1..], true));
      ToLowerAppend([lo], Hex(bytes[1..], true));
      HexLowered(bytes[1..]);
    }
  }

  lemma {:induction false} LowerHexShape(bytes: seq<byte>)
    ensures |Hex(bytes, false)| == 2 * |bytes|
    ensures forall i :: 0 <= i < |Hex(bytes, false)| ==> IsLowerHexDigit(Hex(bytes, false)[i])
    decreases |bytes|
  {
    if bytes != [] {
      LowerHexShape(bytes[1..]);
    }
  }

  /**
   * Md5Hash yields lower-case hex: two digits per digest byte, each in 0-9 or
   * a-f. The dashes of BitConverter.ToString are gone and its letters lowered.
   */
  lemma Md5HashIsLowerHex(file: FileInfo, digest: Digest)
    ensures Md5Hash(file, digest) == Hex(digest(file.content), false)
    ensures |Md5Hash(file, digest)| == 2 * |digest(file.content)|
    ensures forall i :: 0 <= i < |Md5Hash(file, digest)| ==> IsLowerHexDigit(Md5Hash(file, digest)[i])
  {
    DashesRemoved(digest(file.content));
    HexLowered(digest(file.content));
    LowerHexShape(digest(file.content));
  }

  /**
   * MatchesSignature(fileInfo, fileSize, md5): lengths must agree; then files above
   * the hashing limit match on size alone, and the others when the formatted digest
   * equals `md5` exactly.
   */
  function MatchesSignature(settings: Settings, file: FileInfo, fileSize: int, md5: string, digest: Digest): (r: bool)
    ensures r ==> |file.content| == fileSize
    ensures r && fileSize <= settings.fileHashCheckSizeLimit ==> Md5Hash(file, digest) == md5
  {
    if |file.content| == fileSize then
      fileSize > settings.fileHashCheckSizeLimit || Md5Hash(file, digest) == md5
    else
      false
  }

  /** MatchesSignature(fileInfo, other): the same rule with the other file's live length and digest. */
  function MatchesSignatureOfFile(settings: Settings, file: FileInfo, other: FileInfo, digest: Digest): (r: bool)
    ensures r ==> |file.content| == |other.content|
  {
    var fileSize := |other.content|;
    if |file.content| == fileSize then
      fileSize > settings.fileHashCheckSizeLimit || Md5Hash(file, digest) == Md5Hash(other, digest)
    else
      false
  }

  /** A length mismatch is never a match, whatever the expected digest. */
  lemma LengthMismatchNeverMatches(settings: Settings, file: FileInfo, fileSize: int, md5: string, digest: Digest)
    requires |file.content| != fileSize
    ensures forall h :: !MatchesSignature(settings, file, fileSize, h, digest)
  {
  }

  /** With equal lengths: a match exactly when the size is above the limit or the digests agree. */
  lemma EqualLengthMatches(settings: Settings, file: FileInfo, fileSize: int, md5: string, digest: Digest)
    requires |file.content| == fileSize
    ensures MatchesSignature(settings, file, fileSize, md5, digest) <==>
              fileSize > settings.fileHashCheckSizeLimit || Md5Hash(file, digest) == md5
  {
  }

  /**
   * Above the limit the contents are never read: any two files of the expected
   * length match, whatever their bytes and the expected digest.
   */
  lemma LargeFilesSkipContent(settings: Settings, file: FileInfo, corrupted: FileInfo, fileSize: int, md5: string, digest: Digest)
    requires |file.content| == |corrupted.content| == fileSize > settings.fileHashCheckSizeLimit
    ensures MatchesSignature(settings, file, fileSize, md5, digest)
    ensures MatchesSignature(settings, corrupted, fileSize, md5, digest)
  {
  }

  /**
   * The comparison is exact, not case-insensitive: at or below the limit an
   * expected digest holding an upper-case letter never matches, because Md5Hash
   * is lower-case.
   */
  lemma UpperCaseDigestNeverMatches(settings: Settings, file: FileInfo, fileSize: int, md5: string, digest: Digest, k: nat)
    requires fileSize <= settings.fileHashCheckSizeLimit
    requires k < |md5| && 'A' <= md5[k] <= 'Z'
    ensures !MatchesSignature(settings, file, fileSize, md5, digest)
  {
    Md5HashIsLowerHex(file, digest);
    var h := Md5Hash(file, digest);
    assert k >= |h| || h[k] != md5[k];
  }

  /** The two overloads agree: comparing with a file is comparing with its length and digest. */
  lemma OverloadsAgree(settings: Settings, file: FileInfo, other: FileInfo, digest: Digest)
    ensures MatchesSignatureOfFile(settings, file, other, digest)
         == MatchesSignature(settings, file, |other.content|, Md5Hash(other, digest), digest)
  {
  }

  /** Every file matches itself, and matching between two files is symmetric. */
  lemma MatchesSignatureOfFileReflexiveSymmetric(settings: Settings, a: FileInfo, b: FileInfo, digest: Digest)
    ensures MatchesSignatureOfFile(settings, a, a, digest)
    ensures MatchesSignatureOfFile(settings, a, b, digest) == MatchesSignatureOfFile(settings, b, a, digest)
  {
  }
}
