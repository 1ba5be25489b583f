/** Base64url text (section 5 of RFC 4648) as the service token prints and reads it: padding stripped and restored. */
module Base64Url {
  import opened Common
  import Texts

  type byte = b: int | 0 <= b < 256
  type sextet = d: int | 0 <= d < 64

  // ---- groups of six bits ----

  function ToSextets(b: seq<byte>): seq<sextet> {
    if |b| == 0 then []
    else if |b| == 1 then [Sextet0(b[0]), Sextet1(b[0], 0)]
    else if |b| == 2 then [Sextet0(b[0]), Sextet1(b[0], b[1]), Sextet2(b[1], 0)]
    else [Sextet0(b[0]), Sextet1(b[0], b[1]), Sextet2(b[1], b[2]), Sextet3(b[2])] + ToSextets(b[3..])
  }

  /** Whole bytes only: bits left over at the end are dropped. */
  function FromSextets(s: seq<sextet>): seq<byte> {
    if |s| < 2 then []
    else if |s| == 2 then [Byte0(s[0], s[1])]
    else if |s| == 3 then [Byte0(s[0], s[1]), Byte1(s[1], s[2])]
    else [Byte0(s[0], s[1]), Byte1(s[1], s[2]), Byte2(s[2], s[3])] + FromSextets(s[4..])
  }

  function Sextet0(x: byte): sextet { x as int / 4 }

  function Sextet1(x: byte, y: byte): sextet { x as int % 4 * 16 + y as int / 16 }

  function Sextet2(y: byte, z: byte): sextet { y as int % 16 * 4 + z as int / 64 }

  function Sextet3(z: byte): sextet { z as int % 64 }

  function Byte0(p: sextet, q: sextet): byte { p as int * 4 + q as int / 16 }

  function Byte1(q: sextet, r: sextet): byte { q as int % 16 * 16 + r as int / 4 }

  function Byte2(r: sextet, t: sextet): byte { r as int % 4 * 64 + t as int }

  /**
   The sextets of a whole number of bytes: no lone sextet at the end, and the unused bits of the last one are zero.
   */
  predicate Canonical(s: seq<sextet>) {
    && |s| % 4 != 1
    && (|s| % 4 == 2 ==> s[|s| - 1] % 16 == 0)
    && (|s| % 4 == 3 ==> s[|s| - 1] % 4 == 0)
  }

  lemma ToSextetsGroup(x: byte, y: byte, z: byte, rest: seq<byte>)
    ensures ToSextets([x, y, z] + rest) == [Sextet0(x), Sextet1(x, y), Sextet2(y, z), Sextet3(z)] + ToSextets(rest)
  {
    hide Sextet0, Sextet1, Sextet2, Sextet3;
    assert ([x, y, z] + rest)[3..] == rest;
  }

  lemma FromSextetsGroup(p: sextet, q: sextet, r: sextet, t: sextet, rest: seq<sextet>)
    ensures FromSextets([p, q, r, t] + rest) == [Byte0(p, q), Byte1(q, r), Byte2(r, t)] + FromSextets(rest)
  {
    hide Byte0, Byte1, Byte2;
    assert ([p, q, r, t] + rest)[4..] == rest;
  }

  lemma BytesOfGroup(x: byte, y: byte, z: byte)
    ensures Byte0(Sextet0(x), Sextet1(x, y)) == x
    ensures Byte1(Sextet1(x, y), Sextet2(y, z)) == y
    ensures Byte2(Sextet2(y, z), Sextet3(z)) == z
  {
  }

  lemma SextetsOfGroup(p: sextet, q: sextet, r: sextet, t: sextet)
    ensures Sextet0(Byte0(p, q)) == p
    ensures Sextet1(Byte0(p, q), Byte1(q, r)) == q
    ensures Sextet2(Byte1(q, r), Byte2(r, t)) == r
    ensures Sextet3(Byte2(r, t)) == t
  {
  }

  lemma {:induction false} FromToSextets(b: seq<byte>)
    ensures FromSextets(ToSextets(b)) == b
  {
    if |b| < 3 {
      ShortBytes(b);
    } else {
      hide Sextet0, Sextet1, Sextet2, Sextet3, Byte0, Byte1, Byte2, ToSextets, FromSextets;
      var x, y, z, rest := b[0], b[1], b[2], b[3..];
      assert b == [x, y, z] + rest;
      FromToSextets(rest);
      ToSextetsGroup(x, y, z, rest);
      FromSextetsGroup(Sextet0(x), Sextet1(x, y), Sextet2(y, z), Sextet3(z), ToSextets(rest));
      BytesOfGroup(x, y, z);
    }
  }

  lemma ShortBytes(b: seq<byte>)
    requires |b| < 3
    ensures FromSextets(ToSextets(b)) == b
  {
    hide Sextet0, Sextet1, Sextet2, Byte0, Byte1;
    if |b| == 1 {
      BytesOfGroup(b[0], 0, 0);
    } else if |b| == 2 {
      BytesOfGroup(b[0], b[1], 0);
    }
  }

  lemma {:induction false} ToSextetsShape(b: seq<byte>)
    ensures Canonical(ToSextets(b))
    ensures |ToSextets(b)| == (4 * |b| + 2) / 3
  {
    if |b| >= 3 {
      hide Sextet0, Sextet1, Sextet2, Sextet3;
      ToSextetsShape(b[3..]);
      assert b == [b[0], b[1], b[2]] + b[3..];
      ToSextetsGroup(b[0], b[1], b[2], b[3..]);
      hide ToSextets, Canonical;
      GroupKeepsCanonical([Sextet0(b[0]), Sextet1(b[0], b[1]), Sextet2(b[1], b[2]), Sextet3(b[2])], ToSextets(b[3..]));
    }
  }

  lemma GroupKeepsCanonical(group: seq<sextet>, rest: seq<sextet>)
    requires |group| == 4
    ensures Canonical(group + rest) <==> Canonical(rest)
  {
    var s := group + rest;
    assert rest != [] ==> s[|s| - 1] == rest[|rest| - 1];
  }

  lemma {:induction false} ToFromSextets(s: seq<sextet>)
    requires Canonical(s)
    ensures ToSextets(FromSextets(s)) == s
  {
    if |s| < 4 {
      ShortSextets(s);
    } else {
      hide Sextet0, Sextet1, Sextet2, Sextet3, Byte0, Byte1, Byte2, ToSextets, FromSextets, Canonical;
      var p, q, r, t, rest := s[0], s[1], s[2], s[3], s[4..];
      assert s == [p, q, r, t] + rest;
      GroupKeepsCanonical([p, q, r, t], rest);
      ToFromSextets(rest);
      FromSextetsGroup(p, q, r, t, rest);
      ToSextetsGroup(Byte0(p, q), Byte1(q, r), Byte2(r, t), FromSextets(rest));
      SextetsOfGroup(p, q, r, t);
    }
  }

  lemma ShortSextets(s: seq<sextet>)
    requires |s| < 4 && Canonical(s)
    ensures ToSextets(FromSextets(s)) == s
  {
    hide Sextet0, Sextet1, Sextet2, Byte0, Byte1, Byte2;
    if |s| == 2 {
      SextetsOfGroup(s[0], s[1], 0, 0);
      NothingLeft(s[1], 0);
    } else if |s| == 3 {
      SextetsOfGroup(s[0], s[1], s[2], 0);
      NothingLeft(0, s[2]);
    }
  }

  lemma NothingLeft(q: sextet, r: sextet)
    ensures q % 16 == 0 ==> Byte1(q, 0) == 0
    ensures r % 4 == 0 ==> Byte2(r, 0) == 0
  {
  }

  // ---- the alphabet ----

  /** The digits of standard Base64. */
  function Digit(d: sextet): char {
    if d < 26 then 'A' + d as char
    else if d < 52 then 'a' + (d - 26) as char
    else if d < 62 then '0' + (d - 52) as char
    else if d == 62 then '+' else '/'
  }

  predicate IsDigit(c: char) {
    'A' <= c <= 'Z' || 'a' <= c <= 'z' || '0' <= c <= '9' || c == '+' || c == '/'
  }

  function DigitValue(c: char): sextet
    requires IsDigit(c)
  {
    if 'A' <= c <= 'Z' then (c - 'A') as int
    else if 'a' <= c <= 'z' then (c - 'a') as int + 26
    else if '0' <= c <= '9' then (c - '0') as int + 52
    else if c == '+' then 62 else 63
  }

  /** The letters, digits, `-` and `_` that may appear in a token. */
  predicate UrlSafe(c: char) {
    'A' <= c <= 'Z' || 'a' <= c <= 'z' || '0' <= c <= '9' || c == '-' || c == '_'
  }

  lemma DigitsInvert(d: sextet)
    ensures IsDigit(Digit(d)) && DigitValue(Digit(d)) == d && Digit(d) != '='
  {
  }

  lemma ValuesInvert(c: char)
    requires IsDigit(c)
    ensures Digit(DigitValue(c)) == c && c != '='
  {
  }

  function Digits(s: seq<sextet>): string {
    seq(|s|, i requires 0 <= i < |s| => Digit(s[i]))
  }

  function Values(text: string): seq<sextet>
    requires forall c | c in text :: IsDigit(c)
  {
    seq(|text|, i requires 0 <= i < |text| => DigitValue(text[i]))
  }

  // ---- printing and reading ----

  function Padding(length: nat): string {
    if length % 4 == 0 then "" else Texts.Repeat('=', 4 - length % 4)
  }

  /** Standard Base64 with padding. */
  function Base64(b: seq<byte>): string {
    Digits(ToSextets(b)) + Texts.Repeat('=', (3 - |b| % 3) % 3)
  }

  function Encode(b: seq<byte>): string {
    Texts.Replaced(Texts.Replaced(Texts.Without(Base64(b), '='), '+', '-'), '/', '_')
  }

  function Normalized(text: string): string {
    Texts.Replaced(Texts.Replaced(text, '-', '+'), '_', '/')
  }

  /** Reads standard Base64 whose digits are all in the alphabet; other text is not covered here. */
  function Base64Decode(text: string): Option<seq<byte>> {
    var digits := Texts.WithoutTail(text, '=');
    if forall c | c in digits :: IsDigit(c) then Some(FromSextets(Values(digits))) else None
  }

  function Decode(text: string): Option<seq<byte>> {
    if Texts.Trim(text) == "" then Some([])
    else Base64Decode(Normalized(text) + Padding(|Normalized(text)|))
  }

  // ---- the round trip ----

  lemma EncodedDigits(b: seq<byte>)
    ensures Texts.Without(Base64(b), '=') == Digits(ToSextets(b))
  {
    var digits := Digits(ToSextets(b));
    forall c | c in digits ensures c != '=' {
      var i :| 0 <= i < |digits| && digits[i] == c;
      DigitsInvert(ToSextets(b)[i]);
    }
    Texts.WithoutPadding(digits, '=', (3 - |b| % 3) % 3);
  }

  lemma NormalizedEncode(b: seq<byte>)
    ensures Normalized(Encode(b)) == Digits(ToSextets(b))
  {
    EncodedDigits(b);
    var digits := Digits(ToSextets(b));
    forall i | 0 <= i < |digits| ensures digits[i] != '-' && digits[i] != '_' {
      DigitsInvert(ToSextets(b)[i]);
    }
  }

  /** Reading restores exactly the padding that printing stripped. */
  lemma PaddingRestored(b: seq<byte>)
    ensures Normalized(Encode(b)) + Padding(|Normalized(Encode(b))|) == Base64(b)
  {
    NormalizedEncode(b);
    ToSextetsShape(b);
    PaddingLength(|b|);
  }

  lemma PaddingLength(n: nat)
    ensures Padding((4 * n + 2) / 3) == Texts.Repeat('=', (3 - n % 3) % 3)
  {
    var k, r := n / 3, n % 3;
    assert (4 * n + 2) / 3 == 4 * k + (4 * r + 2) / 3;
  }

  lemma ValuesOfDigits(s: seq<sextet>)
    ensures forall c | c in Digits(s) :: IsDigit(c) && c != '='
    ensures Values(Digits(s)) == s
  {
    forall i | 0 <= i < |s| ensures IsDigit(Digits(s)[i]) && Digits(s)[i] != '=' && DigitValue(Digits(s)[i]) == s[i] {
      DigitsInvert(s[i]);
    }
  }

  lemma Base64RoundTrip(b: seq<byte>)
    ensures Base64Decode(Base64(b)) == Some(b)
  {
    var s := ToSextets(b);
    ValuesOfDigits(s);
    Texts.TailOnly(Digits(s), '=', (3 - |b| % 3) % 3);
    FromToSextets(b);
  }

  lemma EncodedIsUrlSafe(b: seq<byte>)
    ensures forall c | c in Encode(b) :: UrlSafe(c)
    ensures |Encode(b)| == |ToSextets(b)|
  {
    EncodedDigits(b);
    var digits := Digits(ToSextets(b));
    forall i | 0 <= i < |digits| ensures UrlSafe(Encode(b)[i]) {
      DigitsInvert(ToSextets(b)[i]);
    }
  }

  /** Every byte string, of whatever length, is read back from its text. */
  lemma DecodeEncode(b: seq<byte>)
    ensures Decode(Encode(b)) == Some(b)
  {
    EncodedIsUrlSafe(b);
    ToSextetsShape(b);
    if b == [] {
      assert Encode(b) == [];
    } else {
      assert Encode(b) != [] && UrlSafe(Encode(b)[0]);
      Texts.TrimKeepsText(Encode(b));
      PaddingRestored(b);
      Base64RoundTrip(b);
    }
  }

  // ---- which texts are printed ----

  /** A text is canonical when it is url-safe and its digits are those of a whole number of bytes. */
  predicate CanonicalText(text: string) {
    && (forall c | c in text :: UrlSafe(c))
    && (forall c | c in Normalized(text) :: IsDigit(c))
    && Canonical(Values(Normalized(text)))
  }

  lemma SafeTextNormalizes(text: string)
    requires forall c | c in text :: UrlSafe(c)
    ensures forall c | c in Normalized(text) :: IsDigit(c)
    ensures |Normalized(text)| == |text|
    ensures Texts.Replaced(Texts.Replaced(Normalized(text), '+', '-'), '/', '_') == text
  {
    forall i | 0 <= i < |text| ensures UrlSafe(text[i]) && IsDigit(Normalized(text)[i]) {
      assert text[i] in text;
    }
  }

  /**
   Two texts may be read as the same bytes; printing gives back the one it was read from exactly when it is canonical.
   */
  lemma EncodeDecode(text: string)
    requires Decode(text).Some?
    ensures Encode(Decode(text).value) == text <==> CanonicalText(text)
  {
    var b := Decode(text).value;
    if Encode(b) == text {
      EncodedIsUrlSafe(b);
      SafeTextNormalizes(text);
      NormalizedEncode(b);
      ValuesOfDigits(ToSextets(b));
      ToSextetsShape(b);
    }
    if CanonicalText(text) {
      CanonicalIsPrinted(text);
    }
  }

  /** Unused bits are not looked at: two texts are read as the same byte. */
  lemma UnusedBitsAreIgnored()
    ensures Decode(['A', 'A']) == Some([0]) && Decode(['A', 'B']) == Some([0])
  {
    hide Decode;
    ReadTwoLetters('A', 'A');
    ReadTwoLetters('A', 'B');
  }

  lemma ReadTwoLetters(c: char, d: char)
    requires 'A' <= c <= 'Z' && 'A' <= d <= 'Z'
    ensures Decode([c, d]) == Some([Byte0((c - 'A') as int, (d - 'A') as int)])
  {
    var text := [c, d];
    Texts.TrimKeepsText(text);
    SafeTextNormalizes(text);
    assert Normalized(text) == text;
    PaddingIsTail(text);
    assert Values(text) == [DigitValue(c), DigitValue(d)];
  }

  lemma CanonicalIsPrinted(text: string)
    requires CanonicalText(text) && Decode(text).Some?
    ensures Encode(Decode(text).value) == text
  {
    SafeTextNormalizes(text);
    var digits := Normalized(text);
    if text == "" {
      assert Texts.Trim(text) == "";
      EncodedDigits([]);
      assert Encode([]) == [];
    } else {
      assert UrlSafe(text[0]);
      Texts.TrimKeepsText(text);
      forall c | c in digits ensures c != '=' {
        ValuesInvert(c);
      }
      PaddingIsTail(digits);
      var b := FromSextets(Values(digits));
      assert Decode(text) == Some(b);
      ToFromSextets(Values(digits));
      EncodedDigits(b);
      forall i | 0 <= i < |digits| ensures Digits(Values(digits))[i] == digits[i] {
        ValuesInvert(digits[i]);
      }
      assert Digits(Values(digits)) == digits;
    }
  }

  lemma PaddingIsTail(digits: string)
    requires forall c | c in digits :: c != '='
    ensures Texts.WithoutTail(digits + Padding(|digits|), '=') == digits
  {
    if |digits| % 4 == 0 {
      Texts.TailOnly(digits, '=', 0);
      assert digits + Padding(|digits|) == digits + Texts.Repeat('=', 0);
    } else {
      Texts.TailOnly(digits, '=', 4 - |digits| % 4);
    }
  }
}
