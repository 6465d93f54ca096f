/** The home page's two rules: whether a pasted session cookie is accepted, and which
    year buttons are offered. */
module Home {
  import opened Seqs

  newtype byte = x: int | 0 <= x < 256

  const CookieLength := 128
  /** The header that the upstream site's session cookies decode to. */
  const SaltedHeader := "Salted__"
  /** The hexadecimal spelling of the header's ASCII bytes. */
  const SaltedHex := "53616c7465645f5f"

  // ---------------------------------------------------------------------------
  // Hexadecimal

  /** A character of the class `[0-9a-f]`: lower-case hexadecimal only. */
  predicate IsHexDigit(c: char) {
    '0' <= c <= '9' || 'a' <= c <= 'f'
  }

  predicate IsHex(s: string) {
    forall i :: 0 <= i < |s| ==> IsHexDigit(s[i])
  }

  function HexValue(c: char): (r: int)
    requires IsHexDigit(c)
    ensures 0 <= r < 16
  {
    if c <= '9' then c as int - '0' as int else c as int - 'a' as int + 10
  }

  function HexDigit(v: int): (c: char)
    requires 0 <= v < 16
    ensures IsHexDigit(c) && HexValue(c) == v
  {
    if v < 10 then ('0' as int + v) as char else ('a' as int + v - 10) as char
  }

  /** Distinct digits have distinct values. */
  lemma HexValueInjective(c: char, d: char)
    requires IsHexDigit(c) && IsHexDigit(d) && HexValue(c) == HexValue(d)
    ensures c == d
  {
  }

  /** `Buffer.from(hex, "hex")` for a string of hexadecimal digit pairs: one byte per pair,
      high digit first. */
  function HexDecode(hex: string): (r: seq<byte>)
    requires |hex| % 2 == 0 && IsHex(hex)
    ensures |r| == |hex| / 2
    ensures forall k :: 0 <= k < |r| ==> r[k] as int == 16 * HexValue(hex[2 * k]) + HexValue(hex[2 * k + 1])
  {
    seq(|hex| / 2, k requires 0 <= k < |hex| / 2 => (16 * HexValue(hex[2 * k]) + HexValue(hex[2 * k + 1])) as byte)
  }

  /** The lower-case hexadecimal spelling of some bytes. */
  function HexEncode(bytes: seq<byte>): (r: string)
    ensures |r| == 2 * |bytes| && IsHex(r)
    ensures forall k :: 0 <= k < |bytes| ==>
              r[2 * k] == HexDigit(bytes[k] as int / 16) && r[2 * k + 1] == HexDigit(bytes[k] as int % 16)
  {
    if |bytes| == 0 then ""
    else [HexDigit(bytes[0] as int / 16), HexDigit(bytes[0] as int % 16)] + HexEncode(bytes[1..])
  }

  /** Decoding the spelling of some bytes gives the bytes back. */
  lemma DecodeEncode(bytes: seq<byte>)
    ensures HexDecode(HexEncode(bytes)) == bytes
  {
    var hex := HexEncode(bytes);
    var back := HexDecode(hex);
    forall k | 0 <= k < |bytes|
      ensures back[k] == bytes[k]
    {
      var v := bytes[k] as int;
      assert HexValue(hex[2 * k]) == v / 16 && HexValue(hex[2 * k + 1]) == v % 16;
      assert back[k] as int == 16 * (v / 16) + v % 16 == v;
    }
  }

  /** A byte's two digits are determined by its value. */
  lemma DigitPairInjective(hi: int, lo: int, hi': int, lo': int)
    requires 0 <= lo < 16 && 0 <= lo' < 16 && 0 <= hi && 0 <= hi'
    requires 16 * hi + lo == 16 * hi' + lo'
    ensures hi == hi' && lo == lo'
  {
  }

  /** Two hexadecimal strings that decode to the same bytes are the same string. */
  lemma HexDecodeInjective(a: string, b: string)
    requires |a| % 2 == 0 && IsHex(a) && |b| % 2 == 0 && IsHex(b)
    requires HexDecode(a) == HexDecode(b)
    ensures a == b
  {
    var da, db := HexDecode(a), HexDecode(b);
    assert |a| == |b|;
    forall k | 0 <= k < |a| / 2
      ensures a[2 * k] == b[2 * k] && a[2 * k + 1] == b[2 * k + 1]
    {
      assert da[k] == db[k];
      DigitPairInjective(HexValue(a[2 * k]), HexValue(a[2 * k + 1]), HexValue(b[2 * k]), HexValue(b[2 * k + 1]));
      HexValueInjective(a[2 * k], b[2 * k]);
      HexValueInjective(a[2 * k + 1], b[2 * k + 1]);
    }
    forall i | 0 <= i < |a|
      ensures a[i] == b[i]
    {
      var k := i / 2;
      assert i == 2 * k || i == 2 * k + 1;
    }
  }

  /** Decoding commutes with taking a prefix of whole pairs. */
  lemma HexDecodePrefix(hex: string, n: nat)
    requires |hex| % 2 == 0 && IsHex(hex) && 2 * n <= |hex|
    ensures HexDecode(hex)[..n] == HexDecode(hex[..2 * n])
  {
    var whole, part := HexDecode(hex), HexDecode(hex[..2 * n]);
    forall k | 0 <= k < n
      ensures whole[k] == part[k]
    {
      assert hex[..2 * n][2 * k] == hex[2 * k] && hex[..2 * n][2 * k + 1] == hex[2 * k + 1];
      assert whole[k] as int == part[k] as int;
    }
  }

  /** The ASCII bytes of a string of ASCII characters. */
  function AsciiBytes(s: string): (r: seq<byte>)
    requires forall i :: 0 <= i < |s| ==> s[i] as int < 128
    ensures |r| == |s|
    ensures forall i :: 0 <= i < |s| ==> r[i] as int == s[i] as int
  {
    seq(|s|, i requires 0 <= i < |s| => s[i] as int as byte)
  }

  // ---------------------------------------------------------------------------
  // The cookie rule

  /** The regular expression `^[0-9a-f]{128}$`. */
  predicate MatchesCookiePattern(cookie: string) {
    |cookie| == CookieLength && IsHex(cookie)
  }

  predicate StartsWith(bytes: seq<byte>, prefix: seq<byte>) {
    |prefix| <= |bytes| && bytes[..|prefix|] == prefix
  }

  /** The home page's `validCookie`: a non-empty cookie, a signed-in session, the
      128-hex-digit pattern, and a decoding that starts with "Salted__". The decoded
      bytes are only looked at once the pattern has matched. */
  function ValidCookie(cookie: string, hasSession: bool): (r: bool)
    ensures r <==> hasSession && MatchesCookiePattern(cookie) && cookie[..16] == SaltedHex
  {
    if cookie == "" || !hasSession then false
    else if !MatchesCookiePattern(cookie) then false
    else
      CookieHeaderDigits(cookie);
      StartsWith(HexDecode(cookie), AsciiBytes(SaltedHeader))
  }

  /** The sixteen digits 53616c7465645f5f decode to the ASCII bytes of "Salted__". */
  lemma SaltedHexDecodesToHeader()
    ensures HexDecode(SaltedHex) == AsciiBytes(SaltedHeader)
  {
    var decoded, header := HexDecode(SaltedHex), AsciiBytes(SaltedHeader);
    forall k | 0 <= k < 8
      ensures decoded[k] == header[k]
    {
      HeaderByte(k);
    }
  }

  /** One byte of the header against its two digits. */
  lemma HeaderByte(k: int)
    requires 0 <= k < 8
    ensures 16 * HexValue(SaltedHex[2 * k]) + HexValue(SaltedHex[2 * k + 1]) == SaltedHeader[k] as int
  {
    // one empty branch per byte: the split lets each case be computed from constants
    if k == 0 {
    } else if k == 1 {
    } else if k == 2 {
    } else if k == 3 {
    } else if k == 4 {
    } else if k == 5 {
    } else if k == 6 {
    } else {
    }
  }

  /** A cookie of the right shape decodes to bytes starting with "Salted__" exactly when
      its first sixteen digits are 53616c7465645f5f. */
  lemma CookieHeaderDigits(cookie: string)
    requires MatchesCookiePattern(cookie)
    ensures StartsWith(HexDecode(cookie), AsciiBytes(SaltedHeader)) <==> cookie[..16] == SaltedHex
  {
    var header := AsciiBytes(SaltedHeader);
    HexDecodePrefix(cookie, 8);
    SaltedHexDecodesToHeader();
    if HexDecode(cookie)[..8] == header {
      HexDecodeInjective(cookie[..16], SaltedHex);
    }
  }

  /** A valid cookie decodes to 64 bytes, the first eight of which are "Salted__". */
  lemma ValidCookieDecodes(cookie: string, hasSession: bool)
    requires ValidCookie(cookie, hasSession)
    ensures hasSession && cookie != "" && MatchesCookiePattern(cookie)
    ensures |HexDecode(cookie)| == 64
    ensures HexDecode(cookie)[..8] == AsciiBytes(SaltedHeader)
  {
  }

  // ---------------------------------------------------------------------------
  // The year buttons

  const FirstYear := 2015
  /** `Date.getMonth()` counts months from 0, so December is 11. */
  const December := 11

  /** `Array.from({ length: currentYear - 2015 + 1 }, (_, i) => 2015 + i)`: a negative
      length gives no years. */
  function Candidates(currentYear: int): (r: seq<int>)
    ensures |r| == if currentYear < FirstYear then 0 else currentYear - FirstYear + 1
    ensures forall i :: 0 <= i < |r| ==> r[i] == FirstYear + i
  {
    var n := if currentYear < FirstYear then 0 else currentYear - FirstYear + 1;
    seq(n, i => FirstYear + i)
  }

  lemma CandidateYears(currentYear: int)
    ensures forall y :: y in Candidates(currentYear) <==> FirstYear <= y <= currentYear
  {
    var r := Candidates(currentYear);
    forall y | FirstYear <= y <= currentYear
      ensures y in r
    {
      assert r[y - FirstYear] == y;
    }
  }

  function Shown(currentYear: int, month: int): int -> bool {
    y => y < currentYear || month == December
  }

  /** The years offered on the home page: every year from 2015 before the current one,
      and the current one only in December. */
  function YearButtons(currentYear: int, month: int): (r: seq<int>)
    ensures forall i, j :: 0 <= i < j < |r| ==> r[i] < r[j]
    ensures forall y :: y in r <==> FirstYear <= y < currentYear || (y == currentYear >= FirstYear && month == December)
    ensures currentYear >= FirstYear ==> |r| == currentYear - FirstYear + (if month == December then 1 else 0)
  {
    var all := Candidates(currentYear);
    var p := Shown(currentYear, month);
    YearButtonsShape(currentYear, month);
    CandidateYears(if month == December then currentYear else currentYear - 1);
    Filter(all, p)
  }

  lemma YearButtonsShape(currentYear: int, month: int)
    ensures var r := Filter(Candidates(currentYear), Shown(currentYear, month));
            && r == Candidates(if month == December then currentYear else currentYear - 1)
            && |r| == if currentYear < FirstYear then 0
                      else currentYear - FirstYear + (if month == December then 1 else 0)
  {
    var all := Candidates(currentYear);
    var p := Shown(currentYear, month);
    if |all| == 0 {
      assert Filter(all, p) == [];
    } else {
      var earlier := all[..|all| - 1];
      assert earlier == Candidates(currentYear - 1);
      assert all == earlier + [currentYear];
      FilterAppend(earlier, [currentYear], p);
      FilterKeepsAll(earlier, p);
    }
  }
}
