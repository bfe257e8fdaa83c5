/**
 * The string helpers of PatchUtils: TryParseIntSimple, IsProjectNameValid and
 * GetGoogleDriveDownloadLinkFromUrl.
 */
module TextHelpers {

  // ----- 32-bit integers -----

  const INT32_MIN: int := -0x8000_0000
  const INT32_MODULUS: int := 0x1_0000_0000

  /** The C# `int` a mathematical integer becomes: arithmetic is unchecked and wraps modulo 2^32. */
  function Wrap32(x: int): (r: int)
    ensures INT32_MIN <= r < INT32_MIN + INT32_MODULUS
  {
    (x - INT32_MIN) % INT32_MODULUS + INT32_MIN
  }

  lemma Wrap32Shift(x: int, k: int)
    ensures Wrap32(x + k * INT32_MODULUS) == Wrap32(x)
  {
    var a := x - INT32_MIN;
    assert (a + k * INT32_MODULUS) % INT32_MODULUS == a % INT32_MODULUS by {
      var q, r := a / INT32_MODULUS, a % INT32_MODULUS;
      assert a == q * INT32_MODULUS + r;
      assert a + k * INT32_MODULUS == (q + k) * INT32_MODULUS + r;
    }
  }

  lemma Wrap32Identity(x: int)
    requires INT32_MIN <= x < INT32_MIN + INT32_MODULUS
    ensures Wrap32(x) == x
  {
  }

  /** Wrapping after each step of `result * 10 + digit` is wrapping once at the end. */
  lemma Wrap32Step(x: int, d: int)
    ensures Wrap32(Wrap32(x) * 10 + d) == Wrap32(x * 10 + d)
  {
    var a := x - INT32_MIN;
    var q := a / INT32_MODULUS;
    assert Wrap32(x) == x - q * INT32_MODULUS;
    assert Wrap32(x) * 10 + d == x * 10 + d + (-10 * q) * INT32_MODULUS;
    Wrap32Shift(x * 10 + d, -10 * q);
  }

  /** `result = -result` on a wrapped value. */
  lemma Wrap32Negate(x: int)
    ensures Wrap32(-Wrap32(x)) == Wrap32(-x)
  {
    var a := x - INT32_MIN;
    var q := a / INT32_MODULUS;
    assert Wrap32(x) == x - q * INT32_MODULUS;
    assert -Wrap32(x) == -x + q * INT32_MODULUS;
    Wrap32Shift(-x, q);
  }

  // ----- TryParseIntSimple -----

  predicate IsDigit(c: char)
  {
    '0' <= c <= '9'
  }

  function DigitValue(c: char): int
  {
    c as int - '0' as int
  }

  /** Where the digits begin: after a leading '-', if there is one. */
  function DigitsStart(s: string): nat
  {
    if |s| > 0 && s[0] == '-' then 1 else 0
  }

  predicate AllDigits(digits: string)
  {
    forall i :: 0 <= i < |digits| ==> IsDigit(digits[i])
  }

  /** The value of a run of decimal digits; no digits is 0. */
  function DecimalValue(digits: string): nat
    requires AllDigits(digits)
  {
    if digits == [] then 0
    else DecimalValue(digits[..|digits| - 1]) * 10 + DigitValue(digits[|digits| - 1])
  }

  /** The strings TryParseIntSimple accepts: non-empty, then only digits after an optional '-'. */
  predicate IsSimpleInt(s: string)
  {
    |s| > 0 && AllDigits(s[DigitsStart(s)..])
  }

  /** The value an accepted string parses to, as a 32-bit int. */
  function SimpleIntValue(s: string): int
    requires IsSimpleInt(s)
  {
    var magnitude: int := DecimalValue(s[DigitsStart(s)..]);
    Wrap32(if s[0] == '-' then -magnitude else magnitude)
  }

  /** The index of the first non-digit at or after `from`, or |s|. */
  function FirstNonDigit(s: string, from: nat): (k: nat)
    requires from <= |s|
    ensures from <= k <= |s| && AllDigits(s[from..k]) && (k < |s| ==> !IsDigit(s[k]))
    decreases |s| - from
  {
    if from == |s| || !IsDigit(s[from]) then from
    else
      var k := FirstNonDigit(s, from + 1);
      assert s[from..k] == [s[from]] + s[from + 1..k];
      k
  }

  /**
   * What `result` holds after a rejected string: the wrapped value of the digits
   * read before the first non-digit, not negated (the sign is applied only on success).
   */
  function PartialValue(s: string): int
  {
    if s == [] then 0
    else
      var start := DigitsStart(s);
      Wrap32(DecimalValue(s[start..FirstNonDigit(s, start)]))
  }

  lemma DecimalValueSnoc(digits: string, c: char)
    requires AllDigits(digits) && IsDigit(c)
    ensures AllDigits(digits + [c])
    ensures DecimalValue(digits + [c]) == DecimalValue(digits) * 10 + DigitValue(c)
  {
    assert (digits + [c])[..|digits|] == digits;
  }

  /**
   * TryParseIntSimple: an optional '-', then digits accumulated as
   * `result = result * 10 + (ch - '0')` in 32-bit arithmetic; the first non-digit
   * returns false with whatever `result` holds.
   */
  method TryParseIntSimple(s: string) returns (success: bool, result: int)
    ensures success == IsSimpleInt(s)
    ensures success ==> result == SimpleIntValue(s)
    ensures !success ==> result == PartialValue(s)
  {
    result := 0;
    if |s| == 0 {
      return false, result;
    }

    var isNegative := s[0] == '-';
    var start := if isNegative then 1 else 0;
    var i := start;
    while i < |s|
      invariant start <= i <= |s|
      invariant AllDigits(s[start..i])
      invariant result == Wrap32(DecimalValue(s[start..i]))
    {
      var ch := s[i];
      if ch < '0' || ch > '9' {
        RejectedAtNonDigit(s, start, i);
        return false, result;
      }
      assert s[start..i + 1] == s[start..i] + [ch];
      DecimalValueSnoc(s[start..i], ch);
      Wrap32Step(DecimalValue(s[start..i]), DigitValue(ch));
      result := Wrap32(result * 10 + DigitValue(ch));
      i := i + 1;
    }

    assert s[start..i] == s[DigitsStart(s)..];
    if isNegative {
      Wrap32Negate(DecimalValue(s[start..]));
      result := Wrap32(-result);
    }
    return true, result;
  }

  /** A non-digit after the sign rejects the string and leaves the digits before it. */
  lemma RejectedAtNonDigit(s: string, start: nat, i: nat)
    requires start == DigitsStart(s) && start <= i < |s|
    requires AllDigits(s[start..i]) && !IsDigit(s[i])
    ensures !IsSimpleInt(s)
    ensures PartialValue(s) == Wrap32(DecimalValue(s[start..i]))
  {
    assert s[start..][i - start] == s[i];
    FirstNonDigitOfRun(s, start, i);
  }

  lemma {:induction false} FirstNonDigitOfRun(s: string, from: nat, k: nat)
    requires from <= k < |s| && AllDigits(s[from..k]) && !IsDigit(s[k])
    ensures FirstNonDigit(s, from) == k
    decreases k - from
  {
    if from < k {
      assert s[from] == s[from..k][0];
      assert s[from + 1..k] == s[from..k][1..];
      FirstNonDigitOfRun(s, from + 1, k);
    }
  }

  /** "" and anything starting with '+' are rejected, "-" alone is 0. */
  lemma SignEdgeCases()
    ensures !IsSimpleInt("")
    ensures IsSimpleInt("-") && SimpleIntValue("-") == 0
    ensures forall s :: |s| > 0 && s[0] == '+' ==> !IsSimpleInt(s)
  {
    assert "-"[1..] == "";
    forall s | |s| > 0 && s[0] == '+' ensures !IsSimpleInt(s) {
      assert s[DigitsStart(s)..][0] == '+';
    }
  }

  function Pow10(n: nat): nat
  {
    if n == 0 then 1 else 10 * Pow10(n - 1)
  }

  lemma {:induction false} DecimalValueBound(digits: string)
    requires AllDigits(digits)
    ensures DecimalValue(digits) < Pow10(|digits|)
    decreases |digits|
  {
    if digits != [] {
      DecimalValueBound(digits[..|digits| - 1]);
    }
  }

  /** Up to nine digits never overflow: the result is the exact signed value. */
  lemma ShortIntsAreExact(s: string)
    requires IsSimpleInt(s) && |s| - DigitsStart(s) <= 9
    ensures SimpleIntValue(s) == (if s[0] == '-' then -1 else 1) * DecimalValue(s[DigitsStart(s)..])
  {
    var digits := s[DigitsStart(s)..];
    DecimalValueBound(digits);
    Pow10Monotone(|digits|, 9);
    assert Pow10(9) == 1000000000;
  }

  lemma {:induction false} Pow10Monotone(m: nat, n: nat)
    requires m <= n
    ensures Pow10(m) <= Pow10(n)
    decreases n
  {
    if m < n { Pow10Monotone(m, n - 1); }
  }

  function DigitChar(d: int): (c: char)
    requires 0 <= d < 10
    ensures IsDigit(c) && DigitValue(c) == d
  {
    ('0' as int + d) as char
  }

  /** The decimal text of a natural number, as Int32.ToString writes it. */
  function NatToDecimal(n: nat): (r: string)
    ensures AllDigits(r)
  {
    if n < 10 then [DigitChar(n)] else NatToDecimal(n / 10) + [DigitChar(n % 10)]
  }

  function IntToDecimal(n: int): string
  {
    if n < 0 then "-" + NatToDecimal(-n) else NatToDecimal(n)
  }

  lemma {:induction false} NatToDecimalValue(n: nat)
    ensures DecimalValue(NatToDecimal(n)) == n
  {
    if n >= 10 {
      NatToDecimalValue(n / 10);
      DecimalValueSnoc(NatToDecimal(n / 10), DigitChar(n % 10));
    }
  }

  /** Every 32-bit int reads back from its decimal text, int.MinValue included. */
  lemma ParsesIntToDecimal(n: int)
    requires INT32_MIN <= n < INT32_MIN + INT32_MODULUS
    ensures IsSimpleInt(IntToDecimal(n)) && SimpleIntValue(IntToDecimal(n)) == n
  {
    var s := IntToDecimal(n);
    if n < 0 {
      var digits := NatToDecimal(-n);
      NatToDecimalValue(-n);
      assert s[0] == '-' && s[1..] == digits;
      assert DigitsStart(s) == 1;
      Wrap32Identity(n);
    } else {
      NatToDecimalValue(n);
      assert s[0] != '-' && DigitsStart(s) == 0 && s[0..] == s;
      Wrap32Identity(n);
    }
  }

  // ----- IsProjectNameValid -----

  predicate IsAsciiAlphanumeric(c: char)
  {
    '0' <= c <= '9' || 'a' <= c <= 'z' || 'A' <= c <= 'Z'
  }

  /** IsProjectNameValid: non-empty and only ASCII letters and digits. */
  method IsProjectNameValid(projectName: string) returns (valid: bool)
    ensures valid <==> |projectName| > 0 && forall i :: 0 <= i < |projectName| ==> IsAsciiAlphanumeric(projectName[i])
  {
    if |projectName| == 0 {
      return false;
    }
    for i := 0 to |projectName|
      invariant forall k :: 0 <= k < i ==> IsAsciiAlphanumeric(projectName[k])
    {
      var ch := projectName[i];
      if (ch < '0' || ch > '9') && (ch < 'a' || ch > 'z') && (ch < 'A' || ch > 'Z') {
        return false;
      }
    }
    return true;
  }

  // ----- GetGoogleDriveDownloadLinkFromUrl -----

  predicate OccursAt(s: string, sub: string, k: int)
  {
    0 <= k && k + |sub| <= |s| && s[k..k + |sub|] == sub
  }

  /** String.IndexOf(sub, from): the first occurrence at or after `from`, or -1. */
  function IndexOf(s: string, sub: string, from: nat): (r: int)
    ensures r == -1 || (from <= r && OccursAt(s, sub, r))
    ensures forall k :: from <= k && (r == -1 || k < r) ==> !OccursAt(s, sub, k)
    decreases |s| - from
  {
    if from + |sub| > |s| then -1
    else if s[from..from + |sub|] == sub then from
    else IndexOf(s, sub, from + 1)
  }

  /** String.IndexOf(c, from): the first position at or after `from` holding `c`, or -1. */
  function IndexOfChar(s: string, c: char, from: nat): (r: int)
    requires from <= |s|
    ensures r == -1 || (from <= r < |s| && s[r] == c)
    ensures forall k :: from <= k < |s| && (r == -1 || k < r) ==> s[k] != c
    decreases |s| - from
  {
    if from == |s| then -1
    else if s[from] == c then from
    else IndexOfChar(s, c, from + 1)
  }

  function DownloadLink(fileId: string): string
  {
    "https://drive.google.com/uc?id=" + fileId + "&export=download"
  }

  /** Where the id after "id=" ends, as the source finds it: the next '&', else the end. */
  function IdEnd(url: string, start: nat): (r: nat)
    requires start <= |url|
    ensures start <= r <= |url|
  {
    var closing := IndexOfChar(url, '&', start);
    if closing < 0 then |url| else closing
  }

  /**
   * GetGoogleDriveDownloadLinkFromUrl: the id after the first "id=" when that is
   * past the start of the url, up to '&' or the end; otherwise the id after
   * "file/d/", up to '/', else '?', else the end; "" when neither marker is found.
   */
  function GetGoogleDriveDownloadLinkFromUrl(url: string): (r: string)
    ensures r == "" <==> IndexOf(url, "id=", 0) <= 0 && IndexOf(url, "file/d/", 0) < 0
  {
    var index := IndexOf(url, "id=", 0);
    if index > 0 then
      var start := index + 3;
      DownloadLink(url[start..IdEnd(url, start)])
    else
      var index := IndexOf(url, "file/d/", 0);
      if index < 0 then ""
      else
        var start := index + 7;
        DownloadLink(url[start..FileIdEnd(url, start)])
  }

  /** No "id=" can start inside `prefix` and run into the "id=" that follows it. */
  lemma IdMarkerAfterPrefix(prefix: string, rest: string)
    requires forall k :: !OccursAt(prefix, "id=", k)
    ensures IndexOf(prefix + "id=" + rest, "id=", 0) == |prefix|
  {
    var url := prefix + "id=" + rest;
    assert url[|prefix|..|prefix| + 3] == "id=";
    assert OccursAt(url, "id=", |prefix|);
    forall k | 0 <= k < |prefix| ensures !OccursAt(url, "id=", k) {
      if k + 3 <= |prefix| {
        assert url[k..k + 3] == prefix[k..k + 3];
        assert !OccursAt(prefix, "id=", k);
      } else {
        // the window ends in the 'i' or the 'd' of the marker, never in '='
        var marked := prefix + "id=";
        assert url[k + 2] == marked[k + 2] == "id="[k + 2 - |prefix|];
        assert url[k..k + 3][2] == url[k + 2];
      }
    }
  }

  /**
   * The parts of a url the "id=" branch accepts: a non-empty prefix without
   * "id=", an id without '&', and a rest that is empty or starts with '&'.
   */
  ghost predicate IdLinkParts(prefix: string, fileId: string, rest: string)
  {
    && |prefix| > 0 && (forall k :: !OccursAt(prefix, "id=", k))
    && '&' !in fileId
    && (rest == "" || rest[0] == '&')
  }

  /**
   * A url whose first "id=" follows a non-empty `prefix` yields the id that runs
   * from there to the next '&' or to the end.
   */
  lemma IdLinkForm(prefix: string, fileId: string, rest: string)
    requires IdLinkParts(prefix, fileId, rest)
    ensures GetGoogleDriveDownloadLinkFromUrl(prefix + "id=" + fileId + rest) == DownloadLink(fileId)
  {
    var url := prefix + "id=" + (fileId + rest);
    assert prefix + "id=" + fileId + rest == url;
    IdMarkerAfterPrefix(prefix, fileId + rest);
    var start := |prefix| + 3;
    var stop := start + |fileId|;
    assert forall k :: start <= k < stop ==> url[k] == fileId[k - start];
    assert IndexOfChar(url, '&', start) == (if rest == "" then -1 else stop) by {
      if rest != "" { assert url[stop] == rest[0]; }
    }
    assert url[start..stop] == fileId;
  }

  /** A query parameter before the id, as in `drive.google.com/open?authuser=0&id=FILEID`. */
  lemma IdAfterOtherParameterForm(fileId: string)
    requires '&' !in fileId
    ensures GetGoogleDriveDownloadLinkFromUrl("https://drive.google.com/open?authuser=0&id=" + fileId) == DownloadLink(fileId)
  {
    var site := "https://drive.google.com/open?";
    var parameter := "authuser=0&";
    var prefix := site + parameter;
    assert "https://drive.google.com/open?authuser=0&id=" + fileId == prefix + "id=" + fileId + "";
    forall j | 0 <= j < |parameter| && parameter[j] == '=' ensures 2 <= j && parameter[j - 2] != 'i' {
      assert j == 8;
    }
    SafeEqualsAppend(site, parameter);
    NoIdMarkerIfSafe(prefix);
    IdLinkForm(prefix, fileId, "");
  }

  /** `drive.google.com/open?id=FILEID`, optionally after "https://", yields FILEID. */
  lemma OpenLinkForm(lead: string, fileId: string)
    requires lead == "" || lead == "https://"
    requires '&' !in fileId
    ensures GetGoogleDriveDownloadLinkFromUrl(lead + "drive.google.com/open?id=" + fileId) == DownloadLink(fileId)
  {
    var prefix := lead + "drive.google.com/open?";
    assert lead + "drive.google.com/open?id=" + fileId == prefix + "id=" + fileId + "";
    NoIdMarkerWithoutEquals(prefix);
    IdLinkForm(prefix, fileId, "");
  }

  /** `drive.google.com/uc?id=FILEID&export=download`, optionally after "https://", yields FILEID. */
  lemma DownloadLinkForm(lead: string, fileId: string)
    requires lead == "" || lead == "https://"
    requires '&' !in fileId
    ensures GetGoogleDriveDownloadLinkFromUrl(lead + "drive.google.com/uc?id=" + fileId + "&export=download")
         == DownloadLink(fileId)
  {
    var prefix := lead + "drive.google.com/uc?";
    assert lead + "drive.google.com/uc?id=" == prefix + "id=";
    NoIdMarkerWithoutEquals(prefix);
    IdLinkForm(prefix, fileId, "&export=download");
  }

  /** Every '=' in `s` has a character other than 'i' two places before it, inside `s`. */
  predicate SafeEquals(s: string)
  {
    forall j :: 0 <= j < |s| && s[j] == '=' ==> 2 <= j && s[j - 2] != 'i'
  }

  lemma SafeEqualsAppend(a: string, b: string)
    requires SafeEquals(a) && SafeEquals(b)
    ensures SafeEquals(a + b)
  {
    var s := a + b;
    forall j | 0 <= j < |s| && s[j] == '=' ensures 2 <= j && s[j - 2] != 'i' {
      if j >= |a| {
        assert s[j] == b[j - |a|];
        assert s[j - 2] == b[j - |a| - 2];
      }
    }
  }

  /** A string in which every '=' is safe holds no "id=". */
  lemma NoIdMarkerIfSafe(s: string)
    requires SafeEquals(s)
    ensures forall k :: !OccursAt(s, "id=", k)
  {
    forall k | 0 <= k && k + 3 <= |s| ensures !OccursAt(s, "id=", k) {
      assert s[k..k + 3][0] == s[k] && s[k..k + 3][2] == s[k + 2];
    }
  }

  /** A string without '=' holds no "id=". */
  lemma NoIdMarkerWithoutEquals(s: string)
    requires '=' !in s
    ensures forall k :: !OccursAt(s, "id=", k)
  {
    forall j | 0 <= j < |s| ensures s[j] != '=' {
      assert s[j] in s;
    }
    NoIdMarkerIfSafe(s);
  }

  /** No "file/d/" can start inside `host` and run into the "file/d/" that follows it. */
  lemma FileMarkerAfterHost(host: string, rest: string)
    requires forall k :: !OccursAt(host, "file/d/", k)
    ensures IndexOf(host + "file/d/" + rest, "file/d/", 0) == |host|
  {
    var url := host + "file/d/" + rest;
    assert url[|host|..|host| + 7] == "file/d/";
    assert OccursAt(url, "file/d/", |host|);
    forall k | 0 <= k < |host| ensures !OccursAt(url, "file/d/", k) {
      if k + 7 <= |host| {
        assert url[k..k + 7] == host[k..k + 7];
        assert !OccursAt(host, "file/d/", k);
      } else if k + 7 <= |url| {
        // the marker's 'f' would have to sit at a later position of "file/d/", which holds none
        var marked := host + "file/d/";
        assert url[|host|] == marked[|host|] == 'f';
        assert url[k..k + 7][|host| - k] == url[|host|];
      }
    }
  }

  /** How the source finds the end of the id after "file/d/": up to '/', else up to '?', else to the end. */
  predicate EndsFileId(fileId: string, tail: string)
  {
    && '/' !in fileId
    && ((|tail| > 0 && tail[0] == '/')
        || ('/' !in tail && '?' !in fileId && (tail == "" || tail[0] == '?')))
  }

  /** Where the id after "file/d/" ends, as the source finds it: the next '/', else the next '?', else the end. */
  function FileIdEnd(url: string, start: nat): (r: nat)
    requires start <= |url|
    ensures start <= r <= |url|
  {
    var slash := IndexOfChar(url, '/', start);
    if slash >= 0 then slash
    else
      var question := IndexOfChar(url, '?', start);
      if question < 0 then |url| else question
  }

  /** `EndsFileId` is exactly where `FileIdEnd` stops. */
  lemma FileIdEndAt(prefix: string, fileId: string, tail: string)
    requires EndsFileId(fileId, tail)
    ensures FileIdEnd(prefix + fileId + tail, |prefix|) == |prefix| + |fileId|
  {
    var url := prefix + fileId + tail;
    var base := |prefix| + |fileId|;
    forall k | |prefix| <= k < base ensures url[k] == fileId[k - |prefix|] && url[k] != '/' && (!(tail != [] && tail[0] == '/') ==> url[k] != '?') {
      assert fileId[k - |prefix|] in fileId;
    }
    if tail == [] || tail[0] != '/' {
      forall k | base <= k < |url| ensures url[k] != '/' {
        assert url[k] == tail[k - base];
        assert tail[k - base] in tail;
      }
      if tail != [] { assert url[base] == tail[0]; }
    } else {
      assert url[base] == tail[0];
    }
  }

  /** The url either starts with "id=" or holds no "id=": the source then ignores the "id=" branch. */
  ghost predicate IdMarkerOnlyAtStart(url: string)
  {
    OccursAt(url, "id=", 0) || forall k :: !OccursAt(url, "id=", k)
  }

  /** The parts of a url the "file/d/" branch accepts: a host without "file/d/", and an id that `EndsFileId` delimits. */
  ghost predicate FileIdLinkParts(host: string, fileId: string, tail: string)
  {
    (forall k :: !OccursAt(host, "file/d/", k)) && EndsFileId(fileId, tail)
  }

  /**
   * A url that starts with "id=" or holds none, whose first "file/d/" follows
   * `host`, yields the id that `EndsFileId` delimits: ended by '/', by '?' when
   * no '/' follows, or by the end of the url.
   */
  lemma FileIdLinkForm(host: string, fileId: string, tail: string)
    requires IdMarkerOnlyAtStart(host + "file/d/" + fileId + tail)
    requires FileIdLinkParts(host, fileId, tail)
    ensures GetGoogleDriveDownloadLinkFromUrl(host + "file/d/" + fileId + tail) == DownloadLink(fileId)
  {
    var prefix := host + "file/d/";
    var url := prefix + fileId + tail;
    assert host + "file/d/" + (fileId + tail) == url;
    var base := |prefix| + |fileId|;
    assert IndexOf(url, "id=", 0) <= 0 by {
      if OccursAt(url, "id=", 0) { assert IndexOf(url, "id=", 0) != -1; }
    }
    FileMarkerAfterHost(host, fileId + tail);
    FileIdEndAt(prefix, fileId, tail);
    assert url[|prefix|..base] == fileId;
  }

  /** No '=' in host or id, and every '=' of the tail safe: no "id=" at all. */
  lemma NoIdMarkerInFileLink(host: string, fileId: string, tail: string)
    requires '=' !in host && '=' !in fileId && SafeEquals(tail)
    ensures forall k :: !OccursAt(host + "file/d/" + fileId + tail, "id=", k)
  {
    forall j | 0 <= j < |host| ensures host[j] != '=' { assert host[j] in host; }
    forall j | 0 <= j < |fileId| ensures fileId[j] != '=' { assert fileId[j] in fileId; }
    assert SafeEquals("file/d/");
    SafeEqualsAppend(host, "file/d/");
    SafeEqualsAppend(host + "file/d/", fileId);
    SafeEqualsAppend(host + "file/d/" + fileId, tail);
    NoIdMarkerIfSafe(host + "file/d/" + fileId + tail);
  }

  /** A string without 'f' holds no "file/d/". */
  lemma NoFileMarkerWithoutF(s: string)
    requires 'f' !in s
    ensures forall k :: !OccursAt(s, "file/d/", k)
  {
    forall k | 0 <= k && k + 7 <= |s| ensures !OccursAt(s, "file/d/", k) {
      assert s[k..k + 7][0] == s[k];
      assert s[k] in s;
    }
  }

  /** The host part of the documented links holds neither '=' nor "file/d/". */
  lemma DriveHost(lead: string)
    requires lead == "" || lead == "https://"
    ensures '=' !in lead + "drive.google.com/"
    ensures forall k :: !OccursAt(lead + "drive.google.com/", "file/d/", k)
  {
    NoFileMarkerWithoutF(lead + "drive.google.com/");
  }

  /** Every '=' in "/view?usp=sharing" and "?usp=sharing" is safe. */
  lemma SharingTailsSafe()
    ensures SafeEquals("/view?usp=sharing") && SafeEquals("?usp=sharing")
  {
    var view := "/view?usp=sharing";
    var query := "?usp=sharing";
    forall j | 0 <= j < |view| && view[j] == '=' ensures 2 <= j && view[j - 2] != 'i' {
      assert j == 9;
    }
    forall j | 0 <= j < |query| && query[j] == '=' ensures 2 <= j && query[j - 2] != 'i' {
      assert j == 4;
    }
  }

  /** `drive.google.com/file/d/FILEID/view?usp=sharing`, optionally after "https://", yields FILEID. */
  lemma FileLinkForm(lead: string, fileId: string)
    requires lead == "" || lead == "https://"
    requires '/' !in fileId && '=' !in fileId
    ensures GetGoogleDriveDownloadLinkFromUrl(lead + "drive.google.com/file/d/" + fileId + "/view?usp=sharing")
         == DownloadLink(fileId)
  {
    var host := lead + "drive.google.com/";
    var tail := "/view?usp=sharing";
    assert lead + "drive.google.com/file/d/" + fileId + tail == host + "file/d/" + fileId + tail;
    DriveHost(lead);
    SharingTailsSafe();
    NoIdMarkerInFileLink(host, fileId, tail);
    FileIdLinkForm(host, fileId, tail);
  }

  /** `drive.google.com/file/d/FILEID?usp=sharing`: the id ends at the '?'. */
  lemma FileLinkQueryForm(lead: string, fileId: string)
    requires lead == "" || lead == "https://"
    requires '/' !in fileId && '?' !in fileId && '=' !in fileId
    ensures GetGoogleDriveDownloadLinkFromUrl(lead + "drive.google.com/file/d/" + fileId + "?usp=sharing")
         == DownloadLink(fileId)
  {
    var host := lead + "drive.google.com/";
    var tail := "?usp=sharing";
    assert lead + "drive.google.com/file/d/" + fileId + tail == host + "file/d/" + fileId + tail;
    assert '/' !in tail;
    DriveHost(lead);
    SharingTailsSafe();
    NoIdMarkerInFileLink(host, fileId, tail);
    FileIdLinkForm(host, fileId, tail);
  }

  /** `drive.google.com/file/d/FILEID`: the id runs to the end of the url. */
  lemma FileLinkBareForm(lead: string, fileId: string)
    requires lead == "" || lead == "https://"
    requires '/' !in fileId && '?' !in fileId && '=' !in fileId
    ensures GetGoogleDriveDownloadLinkFromUrl(lead + "drive.google.com/file/d/" + fileId) == DownloadLink(fileId)
  {
    var host := lead + "drive.google.com/";
    assert lead + "drive.google.com/file/d/" + fileId == host + "file/d/" + fileId + "";
    DriveHost(lead);
    assert SafeEquals("");
    NoIdMarkerInFileLink(host, fileId, "");
    FileIdLinkForm(host, fileId, "");
  }

  /** The url is `prefix + "id=" + fileId + rest` with the parts `IdLinkForm` asks for. */
  ghost predicate IdLinkShape(url: string, fileId: string)
  {
    exists prefix: string, rest: string :: IdLinkParts(prefix, fileId, rest) && url == prefix + "id=" + fileId + rest
  }

  /** The url is `host + "file/d/" + fileId + tail` with the parts `FileIdLinkForm` asks for. */
  ghost predicate FileIdLinkShape(url: string, fileId: string)
  {
    && IdMarkerOnlyAtStart(url)
    && exists host: string, tail: string :: FileIdLinkParts(host, fileId, tail) && url == host + "file/d/" + fileId + tail
  }

  /** The text before the first occurrence of `sub` holds no `sub`. */
  lemma BeforeFirstOccurrence(s: string, sub: string, index: int)
    requires |sub| > 0 && index == IndexOf(s, sub, 0) >= 0
    ensures s[index..index + |sub|] == sub
    ensures forall k :: !OccursAt(s[..index], sub, k)
  {
    forall k | 0 <= k && k + |sub| <= index ensures !OccursAt(s[..index], sub, k) {
      assert !OccursAt(s, sub, k);
      assert s[..index][k..k + |sub|] == s[k..k + |sub|];
    }
  }

  /** A run that `IndexOfChar` skipped holds no `c`. */
  lemma SkippedRun(s: string, c: char, start: nat, stop: nat)
    requires start <= stop <= |s|
    requires forall k :: start <= k < stop ==> s[k] != c
    ensures c !in s[start..stop]
  {
    forall j | 0 <= j < stop - start ensures s[start..stop][j] != c {
      assert s[start..stop][j] == s[start + j];
    }
  }

  lemma SplitThree(s: string, i: nat, j: nat, k: nat)
    requires i <= j <= k <= |s|
    ensures s == s[..i] + s[i..j] + s[j..k] + s[k..]
  {
  }

  /** The id after "id=" holds no '&', and what follows it is empty or starts with '&'. */
  lemma IdEndShape(url: string, start: nat)
    requires start <= |url|
    ensures '&' !in url[start..IdEnd(url, start)]
    ensures IdEnd(url, start) == |url| || url[IdEnd(url, start)] == '&'
  {
    SkippedRun(url, '&', start, IdEnd(url, start));
  }

  /** A url with "id=" past its start has the shape `IdLinkForm` describes. */
  lemma IdBranchShape(url: string) returns (fileId: string)
    requires IndexOf(url, "id=", 0) > 0
    ensures GetGoogleDriveDownloadLinkFromUrl(url) == DownloadLink(fileId) && IdLinkShape(url, fileId)
  {
    var index := IndexOf(url, "id=", 0);
    var start := index + 3;
    var stop := IdEnd(url, start);
    var prefix, rest := url[..index], url[stop..];
    fileId := url[start..stop];
    BeforeFirstOccurrence(url, "id=", index);
    SplitThree(url, index, start, stop);
    IdEndShape(url, start);
    assert '&' !in fileId;
    assert rest == "" || rest[0] == '&' by {
      if stop < |url| { assert rest[0] == url[stop]; }
    }
    assert IdLinkParts(prefix, fileId, rest);
    assert url == prefix + "id=" + fileId + rest;
  }

  /** How far the id after "file/d/" runs, told by `EndsFileId`. */
  lemma FileIdEndShape(url: string, start: nat)
    requires start <= |url|
    ensures EndsFileId(url[start..FileIdEnd(url, start)], url[FileIdEnd(url, start)..])
  {
    var stop := FileIdEnd(url, start);
    SkippedRun(url, '/', start, stop);
    if IndexOfChar(url, '/', start) < 0 {
      SkippedRun(url, '/', stop, |url|);
      SkippedRun(url, '?', start, stop);
      assert url[stop..] == url[stop..|url|];
    }
  }

  /** A url without "id=" past its start but with "file/d/" has the shape `FileIdLinkForm` describes. */
  lemma FileIdBranchShape(url: string) returns (fileId: string)
    requires IndexOf(url, "id=", 0) <= 0 && IndexOf(url, "file/d/", 0) >= 0
    ensures GetGoogleDriveDownloadLinkFromUrl(url) == DownloadLink(fileId) && FileIdLinkShape(url, fileId)
  {
    var index := IndexOf(url, "file/d/", 0);
    var start := index + 7;
    var stop := FileIdEnd(url, start);
    var host, tail := url[..index], url[stop..];
    fileId := url[start..stop];
    BeforeFirstOccurrence(url, "file/d/", index);
    SplitThree(url, index, start, stop);
    FileIdEndShape(url, start);
    assert FileIdLinkParts(host, fileId, tail);
    assert url == host + "file/d/" + fileId + tail;
    assert IdMarkerOnlyAtStart(url) by {
      if IndexOf(url, "id=", 0) == 0 { assert OccursAt(url, "id=", 0); }
    }
  }

  /**
   * Every url the function accepts has one of the two shapes, so the two form
   * lemmas between them cover every non-empty result.
   */
  lemma DriveLinkShapes(url: string)
    ensures GetGoogleDriveDownloadLinkFromUrl(url) != "" ==>
      exists fileId :: GetGoogleDriveDownloadLinkFromUrl(url) == DownloadLink(fileId)
                    && (IdLinkShape(url, fileId) || FileIdLinkShape(url, fileId))
  {
    if IndexOf(url, "id=", 0) > 0 {
      var fileId := IdBranchShape(url);
    } else if IndexOf(url, "file/d/", 0) >= 0 {
      var fileId := FileIdBranchShape(url);
    }
  }
}
