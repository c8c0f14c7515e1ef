/** Percent-encoding of URLs (falconlink/http/http_utils.cpp), in the C locale. */
module Url {
  import opened Text

  /** One byte of a `std::string`. */
  type Byte = c: char | c as int < 256 witness 'a'

  predicate IsAlnum(c: char) {
    '0' <= c <= '9' || 'A' <= c <= 'Z' || 'a' <= c <= 'z'
  }

  predicate IsUnreserved(c: char) {
    IsAlnum(c) || c == '-' || c == '_' || c == '.' || c == '~'
  }

  predicate IsUpperHex(c: char) {
    '0' <= c <= '9' || 'A' <= c <= 'F'
  }

  function HexDigit(n: nat): char
    requires n < 16
  {
    if n < 10 then ('0' as int + n) as char else ('A' as int + n - 10) as char
  }

  function HexValue(c: char): int {
    if '0' <= c <= '9' then c as int - '0' as int
    else if 'A' <= c <= 'F' then c as int - 'A' as int + 10
    else if 'a' <= c <= 'f' then c as int - 'a' as int + 10
    else -1
  }

  predicate IsSpace(c: char) {
    c == ' ' || 9 <= c as int <= 13
  }

  /** Hexadecimal digits read up to the first character that is not one. */
  function ReadDigits(s: string, acc: nat): nat {
    if s == "" || HexValue(s[0]) < 0 then acc else ReadDigits(s[1..], acc * 16 + HexValue(s[0]))
  }

  /** `is >> std::hex >> tmp`: leading blanks, a sign, digits; zero when nothing can be read. */
  function ReadHexInt(s: string): int {
    if s == "" then 0
    else if IsSpace(s[0]) then ReadHexInt(s[1..])
    else if s[0] == '-' then 0 - ReadDigits(s[1..], 0)
    else if s[0] == '+' then ReadDigits(s[1..], 0)
    else ReadDigits(s, 0)
  }

  function ToChar(n: int): Byte {
    (n % 256) as char
  }

  // ---------------------------------------------------------------- what the two loops compute

  function EncodedByte(c: Byte): string {
    if IsUnreserved(c) then [c] else ['%', HexDigit(c as int / 16), HexDigit(c as int % 16)]
  }

  function Encoded(s: seq<Byte>): string {
    if s == [] then "" else EncodedByte(s[0]) + Encoded(s[1..])
  }

  function Least(a: int, b: int): int {
    if a < b then a else b
  }

  /** How many characters of the text one decoded byte takes. */
  function Width(c: char): nat {
    if c == '%' then 3 else 1
  }

  /** A truncated or malformed triplet is still read, as far as the text goes. */
  function DecodedChar(v: string): char
    requires v != ""
  {
    if v[0] == '%' then ToChar(ReadHexInt(v[1..Least(3, |v|)]))
    else if v[0] == '+' then ' '
    else v[0]
  }

  function Decoded(v: string): string {
    if v == "" then "" else [DecodedChar(v)] + Decoded(v[Least(Width(v[0]), |v|)..])
  }

  method UrlEncode(value: seq<Byte>) returns (escaped: string)
    ensures escaped == Encoded(value)
  {
    escaped := "";
    assert value[0..] == value;
    for i := 0 to |value|
      invariant escaped + Encoded(value[i..]) == Encoded(value)
    {
      var c := value[i];
      EncodedStep(value, i);
      Regroup(escaped, EncodedByte(c), Encoded(value[i + 1..]));
      if IsAlnum(c) || c == '-' || c == '_' || c == '.' || c == '~' {
        escaped := escaped + [c];
      } else {
        escaped := escaped + ['%', HexDigit(c as int / 16), HexDigit(c as int % 16)];
      }
    }
  }

  lemma EncodedStep(s: seq<Byte>, i: nat)
    requires i < |s|
    ensures Encoded(s[i..]) == EncodedByte(s[i]) + Encoded(s[i + 1..])
  {
    assert s[i..][1..] == s[i + 1..];
  }

  method UrlDecode(value: string) returns (result: string)
    ensures result == Decoded(value)
  {
    result := "";
    var i := 0;
    assert value[0..] == value;
    while i < |value|
      invariant result + Decoded(value[Least(i, |value|)..]) == Decoded(value)
      decreases |value| - i
    {
      DecodedStep(value, i);
      Regroup(result, [DecodedChar(value[i..])], Decoded(value[Least(i + Width(value[i]), |value|)..]));
      if value[i] != '%' && value[i] != '+' {
        result := result + [value[i]];
      } else if value[i] == '%' {
        result := result + [ToChar(ReadHexInt(value[i + 1..Least(i + 3, |value|)]))];
        i := i + 2;
      } else {
        result := result + [' '];
      }
      i := i + 1;
    }
  }

  lemma DecodedStep(v: string, i: nat)
    requires i < |v|
    ensures DecodedChar(v[i..]) ==
            if v[i] == '%' then ToChar(ReadHexInt(v[i + 1..Least(i + 3, |v|)]))
            else if v[i] == '+' then ' ' else v[i]
    ensures Decoded(v[i..]) == [DecodedChar(v[i..])] + Decoded(v[Least(i + Width(v[i]), |v|)..])
  {
    var t := v[i..];
    assert t[1..Least(3, |t|)] == v[i + 1..Least(i + 3, |v|)];
    assert t[Least(Width(t[0]), |t|)..] == v[Least(i + Width(v[i]), |v|)..];
  }

  // ---------------------------------------------------------------- round trip

  lemma HexPair(c: Byte)
    ensures ReadHexInt([HexDigit(c as int / 16), HexDigit(c as int % 16)]) == c as int
    ensures IsUpperHex(HexDigit(c as int / 16)) && IsUpperHex(HexDigit(c as int % 16))
  {
    var h, l := c as int / 16, c as int % 16;
    var t := [HexDigit(h), HexDigit(l)];
    assert HexValue(t[0]) == h && HexValue(t[1]) == l;
    assert t[1..] == [t[1]] && t[1..][1..] == "";
    assert ReadDigits(t, 0) == ReadDigits(t[1..], h) == ReadDigits(t[1..][1..], h * 16 + l) == c as int;
  }

  lemma DecodeByte(c: Byte, rest: string)
    ensures Decoded(EncodedByte(c) + rest) == [c] + Decoded(rest)
  {
    var t := EncodedByte(c) + rest;
    if IsUnreserved(c) {
      assert t[1..] == rest;
    } else {
      HexPair(c);
      assert t[3..] == rest;
      assert t[1..3] == [HexDigit(c as int / 16), HexDigit(c as int % 16)];
    }
  }

  /** Decoding takes an encoded prefix off and leaves the rest to be decoded on its own. */
  lemma {:induction false} DecodeEncoded(s: seq<Byte>, v: string)
    ensures Decoded(Encoded(s) + v) == s + Decoded(v)
  {
    if s == [] {
      assert Encoded(s) + v == v;
    } else {
      Regroup(EncodedByte(s[0]), Encoded(s[1..]), v);
      DecodeByte(s[0], Encoded(s[1..]) + v);
      DecodeEncoded(s[1..], v);
      Regroup([s[0]], s[1..], Decoded(v));
      assert [s[0]] + s[1..] == s;
    }
  }

  /** `urlDecode(urlEncode(s))` is `s`, for every byte string. */
  lemma UrlRoundTrip(s: seq<Byte>)
    ensures Decoded(Encoded(s)) == s
  {
    DecodeEncoded(s, "");
    assert Encoded(s) + "" == Encoded(s) && s + Decoded("") == s;
  }

  /** Decoding distributes over concatenated encodings. */
  lemma DecodeConcat(a: seq<Byte>, b: seq<Byte>)
    ensures Decoded(Encoded(a) + Encoded(b)) == Decoded(Encoded(a)) + Decoded(Encoded(b)) == a + b
  {
    DecodeEncoded(a, Encoded(b));
    UrlRoundTrip(a);
    UrlRoundTrip(b);
  }

  lemma {:induction false} EncodeConcat(a: seq<Byte>, b: seq<Byte>)
    ensures Encoded(a + b) == Encoded(a) + Encoded(b)
  {
    if a == [] {
      assert a + b == b;
    } else {
      assert (a + b)[1..] == a[1..] + b;
      EncodeConcat(a[1..], b);
      Regroup(EncodedByte(a[0]), Encoded(a[1..]), Encoded(b));
    }
  }

  // ---------------------------------------------------------------- what is encoded, and what is read

  /** A text is its own encoding exactly when all of it is unreserved; anything else makes it longer. */
  lemma {:induction false} UnreservedStays(s: seq<Byte>)
    ensures |Encoded(s)| >= |s|
    ensures |Encoded(s)| == |s| <==> forall i :: 0 <= i < |s| ==> IsUnreserved(s[i])
    ensures Encoded(s) == s <==> forall i :: 0 <= i < |s| ==> IsUnreserved(s[i])
  {
    if s != [] {
      UnreservedStays(s[1..]);
      assert s == [s[0]] + s[1..];
      assert forall i :: 0 < i < |s| ==> s[i] == s[1..][i - 1];
      assert forall i :: 0 <= i < |s| - 1 ==> s[1..][i] == s[i + 1];
    }
  }

  /** The hexadecimal digits, and their values in either case. */
  lemma HexDigits(n: nat)
    requires n < 16
    ensures HexDigit(n) == "0123456789ABCDEF"[n]
    ensures HexValue("0123456789ABCDEF"[n]) == HexValue("0123456789abcdef"[n]) == n
  {
  }

  /** A triplet is read with digits of either case. */
  lemma DecodeTriplet(c: char, d: char, rest: string)
    requires HexValue(c) >= 0 && HexValue(d) >= 0
    ensures Decoded(['%', c, d] + rest) == [(HexValue(c) * 16 + HexValue(d)) as char] + Decoded(rest)
  {
    var v := ['%', c, d] + rest;
    ReadPair(c, d);
    Triplet(v);
    assert v[1..3] == [c, d] && v[3..] == rest;
  }

  lemma ReadPair(c: char, d: char)
    requires HexValue(c) >= 0 && HexValue(d) >= 0
    ensures ReadHexInt([c, d]) == HexValue(c) * 16 + HexValue(d)
  {
    var t := [c, d];
    assert t[1..] == [d] && t[1..][1..] == "";
    assert ReadDigits(t, 0) == ReadDigits(t[1..], HexValue(c)) == ReadDigits(t[1..][1..], HexValue(c) * 16 + HexValue(d));
  }

  /** `+` is read as a blank, and any other character but `%` as itself. */
  lemma DecodePlain(c: char, rest: string)
    requires c != '%'
    ensures Decoded([c] + rest) == [if c == '+' then ' ' else c] + Decoded(rest)
  {
    assert ([c] + rest)[1..] == rest;
  }

  /** A triplet that is none is still read as far as it goes, and skipped. */
  lemma MalformedTriplets(rest: string)
    ensures Decoded("%zz" + rest) == [0 as char] + Decoded(rest)
    ensures Decoded("%4z" + rest) == [4 as char] + Decoded(rest)
    ensures Decoded("%-1" + rest) == [255 as char] + Decoded(rest)
  {
    ReadMalformed();
    var v1, v2, v3 := "%zz" + rest, "%4z" + rest, "%-1" + rest;
    Triplet(v1);
    Triplet(v2);
    Triplet(v3);
    assert v1[1..3] == "zz" && v2[1..3] == "4z" && v3[1..3] == "-1";
    assert v1[3..] == v2[3..] == v3[3..] == rest;
  }

  lemma ReadMalformed()
    ensures ReadHexInt("zz") == 0 && ReadHexInt("4z") == 4 && ReadHexInt("-1") == -1
  {
    assert "4z"[1..] == "z" && ReadDigits("z", 4) == 4;
    assert "-1"[1..] == "1" && ReadDigits("1", 0) == ReadDigits("1"[1..], 1) == 1;
  }

  /** So is one that the text ends in. */
  lemma TruncatedTriplets()
    ensures Decoded("%") == [0 as char] && Decoded("%4") == [4 as char]
  {
    assert "%"[1..1] == "" && "%"[1..] == "" && "%4"[1..2] == "4" && "%4"[2..] == "";
    OneDigit('4');
  }

  lemma OneDigit(c: char)
    requires HexValue(c) >= 0
    ensures ReadHexInt([c]) == HexValue(c)
  {
    var t := [c];
    assert t[1..] == "" && t[0] == c;
    assert ReadDigits(t, 0) == ReadDigits(t[1..], HexValue(c)) == HexValue(c);
  }

  lemma Triplet(v: string)
    requires |v| >= 3 && v[0] == '%'
    ensures Decoded(v) == [(ReadHexInt(v[1..3]) % 256) as char] + Decoded(v[3..])
  {
    assert Least(Width(v[0]), |v|) == 3 && Least(3, |v|) == 3;
  }

  /** Unreserved characters and upper-case triplets only (sections 2.1 and 2.3 of RFC 3986). */
  predicate Canonical(v: string) {
    v == ""
    || (IsUnreserved(v[0]) && Canonical(v[1..]))
    || (v[0] == '%' && |v| >= 3 && IsUpperHex(v[1]) && IsUpperHex(v[2]) && Canonical(v[3..]))
  }

  lemma {:induction false} EncodedIsCanonical(s: seq<Byte>)
    ensures Canonical(Encoded(s))
  {
    if s != [] {
      EncodedIsCanonical(s[1..]);
      var t := Encoded(s);
      if IsUnreserved(s[0]) {
        assert t[1..] == Encoded(s[1..]);
      } else {
        HexPair(s[0]);
        assert t[3..] == Encoded(s[1..]);
      }
    }
  }
}
