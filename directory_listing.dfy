/**
 * The two string helpers of src/http/directory_listing.cpp: `url_encode`,
 * which percent-encodes a file name for an `href`, and `trim_quotes`.
 * Both work on bytes; `isalnum` is taken in the C locale, where only the
 * ASCII letters and digits are alphanumeric.
 */
module DirectoryListing {
  import opened Base

  const Quote: Byte := 34
  const Percent: Byte := 37

  predicate IsAlnum(b: Byte) {
    48 <= b <= 57 || 65 <= b <= 90 || 97 <= b <= 122
  }

  /** The unreserved characters of section 2.3 of RFC 3986: letters, digits, '-', '.', '_' and '~'. */
  predicate Unreserved(b: Byte) {
    IsAlnum(b) || b == 45 || b == 95 || b == 46 || b == 126
  }

  /** An uppercase hexadecimal digit: '0'-'9' or 'A'-'F'. */
  predicate IsUpperHex(b: Byte) {
    48 <= b <= 57 || 65 <= b <= 70
  }

  /** The digit `std::hex` with `std::uppercase` prints for `d`. */
  function HexDigit(d: nat): (h: Byte)
    requires d < 16
    ensures IsUpperHex(h)
  {
    if d < 10 then 48 + d else 55 + d
  }

  /** The value of a hexadecimal digit in either case; 0 for anything else. */
  function HexValue(h: Byte): (d: nat)
    ensures d < 16
  {
    if 48 <= h <= 57 then h - 48
    else if 65 <= h <= 70 then h - 55
    else if 97 <= h <= 102 then h - 87
    else 0
  }

  predicate IsHex(h: Byte) {
    48 <= h <= 57 || 65 <= h <= 70 || 97 <= h <= 102
  }

  /**
   * What one loop turn of `url_encode` writes: an unreserved byte as it
   * is, any other byte as '%' and its unsigned value in two uppercase,
   * zero-padded hexadecimal digits (`setw(2)` with fill '0').
   */
  function EncodeByte(b: Byte): (r: seq<Byte>)
    ensures Unreserved(b) ==> r == [b]
    ensures !Unreserved(b) ==>
              && |r| == 3 && r[0] == Percent && IsUpperHex(r[1]) && IsUpperHex(r[2])
              && HexValue(r[1]) * 16 + HexValue(r[2]) == b
  {
    if Unreserved(b) then [b] else [Percent, HexDigit(b / 16), HexDigit(b % 16)]
  }

  /** Everything `url_encode` has written after the bytes of `s`. */
  function Encoded(s: seq<Byte>): seq<Byte> {
    if s == [] then [] else Encoded(s[..|s| - 1]) + EncodeByte(s[|s| - 1])
  }

  /** `url_encode`: the loop over the input, appending to the output stream. */
  method UrlEncode(value: seq<Byte>) returns (escaped: seq<Byte>)
    ensures escaped == Encoded(value)
  {
    escaped := [];
    for i := 0 to |value|
      invariant escaped == Encoded(value[..i])
    {
      assert value[..i + 1][..i] == value[..i];
      var c := value[i];
      if Unreserved(c) {
        escaped := escaped + [c];
        continue;
      }
      escaped := escaped + [Percent] + [HexDigit(c / 16), HexDigit(c % 16)];
    }
    assert value[..|value|] == value;
  }

  /** A space becomes "%20". */
  lemma EncodeSpace()
    ensures Encoded([32]) == [Percent, 50, 48]
  {
    assert [32][..0] == [];
  }

  /** The encoding of a concatenation is the concatenation of the encodings. */
  lemma {:induction false} EncodedAppend(a: seq<Byte>, b: seq<Byte>)
    ensures Encoded(a + b) == Encoded(a) + Encoded(b)
    decreases |b|
  {
    if b == [] {
      assert a + b == a;
    } else {
      var c := b[..|b| - 1];
      assert (a + b)[..|a + b| - 1] == a + c;
      assert (a + b)[|a + b| - 1] == b[|b| - 1];
      EncodedAppend(a, c);
    }
  }

  /** The number of bytes `url_encode` escapes. */
  function EscapedCount(s: seq<Byte>): nat {
    if s == [] then 0 else EscapedCount(s[..|s| - 1]) + (if Unreserved(s[|s| - 1]) then 0 else 1)
  }

  /** Each escaped byte takes three output bytes instead of one. */
  lemma {:induction false} EncodedLength(s: seq<Byte>)
    ensures |Encoded(s)| == |s| + 2 * EscapedCount(s)
  {
    if s != [] {
      EncodedLength(s[..|s| - 1]);
    }
  }

  /** The output consists of unreserved bytes and '%' signs only. */
  lemma {:induction false} EncodedSafe(s: seq<Byte>)
    ensures forall i :: 0 <= i < |Encoded(s)| ==> Unreserved(Encoded(s)[i]) || Encoded(s)[i] == Percent
  {
    if s != [] {
      EncodedSafe(s[..|s| - 1]);
    }
  }

  /** Percent-decoding: a '%' and two hexadecimal digits stand for one byte; anything else for itself. */
  function Decode(t: seq<Byte>): seq<Byte> {
    if t == [] then []
    else if |t| >= 3 && t[0] == Percent && IsHex(t[1]) && IsHex(t[2]) then
      [HexValue(t[1]) * 16 + HexValue(t[2])] + Decode(t[3..])
    else [t[0]] + Decode(t[1..])
  }

  /** The encoding read from the front: the first byte's encoding, then the rest's. */
  lemma {:induction false} EncodedCons(s: seq<Byte>)
    requires s != []
    ensures Encoded(s) == EncodeByte(s[0]) + Encoded(s[1..])
    decreases |s|
  {
    var n := |s|;
    if n == 1 {
      assert s[..0] == [] && s[1..] == [];
    } else {
      var init := s[..n - 1];
      EncodedCons(init);
      assert init[0] == s[0];
      assert init[1..] == s[1..][..n - 2];
      assert s[1..][n - 2] == s[n - 1];
    }
  }

  lemma DecodeEncodeByte(b: Byte, rest: seq<Byte>)
    ensures Decode(EncodeByte(b) + rest) == [b] + Decode(rest)
  {
    var t := EncodeByte(b) + rest;
    if Unreserved(b) {
      assert t[1..] == rest;
    } else {
      assert t[3..] == rest;
    }
  }

  /** Decoding the output gives back the input, so no two inputs share an encoding. */
  lemma {:induction false} DecodeEncoded(s: seq<Byte>)
    ensures Decode(Encoded(s)) == s
    decreases |s|
  {
    if s != [] {
      EncodedCons(s);
      DecodeEncodeByte(s[0], Encoded(s[1..]));
      DecodeEncoded(s[1..]);
    }
  }

  lemma EncodedInjective(a: seq<Byte>, b: seq<Byte>)
    requires Encoded(a) == Encoded(b)
    ensures a == b
  {
    DecodeEncoded(a);
    DecodeEncoded(b);
  }

  /**
   * `trim_quotes` as written: a leading quote is removed, but the second
   * step keeps `substr(0, size())`, the whole string, so a trailing quote
   * stays. `front()` and `back()` need a non-empty string at each step.
   */
  function TrimQuotes(s: seq<Byte>): (r: seq<Byte>)
    requires |s| > 0 && s != [Quote]
    ensures s[0] == Quote ==> r == s[1..]
    ensures s[0] != Quote ==> r == s
  {
    var t := if s[0] == Quote then s[1..] else s;
    if t[|t| - 1] == Quote then t[0..|t|] else t
  }

  /** The trailing quote of a quoted name survives. */
  lemma TrimQuotesKeepsTrailingQuote()
    ensures TrimQuotes([Quote, 97, Quote]) == [97, Quote]
  {
  }

  /** `trim_quotes` as intended: one leading and one trailing quote removed, each if present. */
  function TrimQuotesIntended(s: seq<Byte>): (r: seq<Byte>)
    ensures |s| > 0 && s[0] == Quote && |s| > 1 && s[|s| - 1] == Quote ==> r == s[1..|s| - 1]
    ensures |s| > 0 && s[0] != Quote && s[|s| - 1] != Quote ==> r == s
    ensures |s| > 0 && s[0] == Quote && s[|s| - 1] != Quote ==> r == s[1..]
    ensures |s| > 0 && s[0] != Quote && s[|s| - 1] == Quote ==> r == s[..|s| - 1]
    ensures s == [Quote] ==> r == []
  {
    var t := if |s| > 0 && s[0] == Quote then s[1..] else s;
    if |t| > 0 && t[|t| - 1] == Quote then t[..|t| - 1] else t
  }

  /** Quoting a name and trimming it gives the name back. */
  lemma TrimQuotesIntendedRoundTrip(x: seq<Byte>)
    ensures TrimQuotesIntended([Quote] + x + [Quote]) == x
  {
    var s := [Quote] + x + [Quote];
    assert s[1..|s| - 1] == x;
  }
}
