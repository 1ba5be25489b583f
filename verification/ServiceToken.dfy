/** The service token of a dedicated server: printed, signed, parsed and checked against the clock. */
module ServiceToken {
  import opened Common
  import Base64Url
  import Texts

  const VERSION := "mgst1"
  const DEFAULT_PURPOSE := "game_server_control"

  type Bytes = seq<Base64Url.byte>

  /** What a token says. A text field that is missing or no string is blank; `metadata` is its JSON text. */
  datatype Payload = Payload(serverId: string, purpose: string, issuedAt: Raw, expiresAt: Raw, nonce: string,
    metadata: Bytes)

  /** A parsed JSON value: one that counts as false (or no JSON at all), a bare value, or an object. */
  datatype Json = Falsy | Scalar | Object(payload: Payload)

  /** The text of the empty JSON object. */
  const EMPTY_OBJECT: Bytes := [123, 125]

  /**
   The platform's JSON, which texts it prints for objects, the keyed hash, and the reading of Base64 text that has
   characters outside the alphabet.
   */
  datatype Platform = Platform(
    stringify: Payload -> Bytes, parse: Bytes -> Json, isObjectText: Bytes -> bool, sign: string -> string,
    lenientBase64: string -> Bytes)

  /** JSON reads back a payload that it printed with the text of an object in it; a signature is hexadecimal text. */
  ghost predicate Lawful(pf: Platform) {
    && pf.isObjectText(EMPTY_OBJECT)
    && (forall p: Payload | pf.isObjectText(p.metadata) ::
         pf.stringify(p) != [] && pf.parse(pf.stringify(p)) == Object(p))
    && (forall e :: pf.sign(e) != "" && forall c | c in pf.sign(e) :: IsHex(c))
  }

  predicate IsHex(c: char) {
    '0' <= c <= '9' || 'a' <= c <= 'f'
  }

  // ---- configuration ----

  /** The constructor's options; `secretAccepted` says whether the configured secret passes the secret checks. */
  datatype Config = Config(
    secretAccepted: bool, maxTtlSeconds: Raw, defaultTtlSeconds: Raw, clockSkewSeconds: Raw, purpose: string,
    maxMetadataJsonBytes: Raw)

  datatype Service = Service(
    secretAccepted: bool, maxTtlSeconds: int, defaultTtlSeconds: int, clockSkewSeconds: int, purpose: string,
    maxMetadataJsonBytes: int)

  function CleanString(s: string, fallback: string): string {
    if Texts.Trim(s) == "" then fallback else Texts.Trim(s)
  }

  function Configured(config: Config): Service {
    var maxTtl := ClampInteger(config.maxTtlSeconds, 300, 5, 86400);
    Service(
      config.secretAccepted,
      maxTtl,
      ClampInteger(config.defaultTtlSeconds, 60, 5, maxTtl),
      ClampInteger(config.clockSkewSeconds, 5, 0, 60),
      CleanString(config.purpose, DEFAULT_PURPOSE),
      ClampInteger(config.maxMetadataJsonBytes, 2048, 128, 65536))
  }

  // ---- creating ----

  datatype TokenOptions = TokenOptions(serverId: string, ttlSeconds: Raw, purpose: string, metadata: Bytes)

  datatype Created = Token(text: string) | Threw(error: string)

  function TtlSeconds(sv: Service, options: TokenOptions): int {
    ClampInteger(options.ttlSeconds, sv.defaultTtlSeconds, 5, sv.maxTtlSeconds)
  }

  function NewPayload(sv: Service, options: TokenOptions, issuedAt: int, nonce: string): Payload {
    Payload(
      Texts.Trim(options.serverId),
      CleanString(options.purpose, sv.purpose),
      Num(issuedAt),
      Num(issuedAt + TtlSeconds(sv, options) * 1000),
      nonce,
      options.metadata)
  }

  function Printed(encodedPayload: string, signature: string): string {
    VERSION + ['.'] + encodedPayload + ['.'] + signature
  }

  function CreateToken(pf: Platform, sv: Service, options: TokenOptions, issuedAt: int, nonce: string): Created {
    if !sv.secretAccepted then Threw("serviceSecret")
    else if Texts.Trim(options.serverId) == "" then Threw("serverId is required")
    else if |options.metadata| > sv.maxMetadataJsonBytes then Threw("metadata is too large")
    else
      var encoded := Base64Url.Encode(pf.stringify(NewPayload(sv, options, issuedAt, nonce)));
      Token(Printed(encoded, pf.sign(encoded)))
  }

  // ---- parsing ----

  datatype Parsed = ParseFailed(reason: string) | Parsed(encodedPayload: string, signature: string, json: Json)

  function DecodePayload(pf: Platform, encodedPayload: string): Json {
    var bytes := match Base64Url.Decode(encodedPayload)
      case Some(bytes) => bytes
      case None => pf.lenientBase64(encodedPayload);
    if bytes == [] then Falsy else pf.parse(bytes)
  }

  function ParseServiceToken(pf: Platform, token: string): Parsed {
    if Texts.Trim(token) == "" then ParseFailed("token_required")
    else
      var parts := Texts.Split(Texts.Trim(token), '.');
      if |parts| != 3 then ParseFailed("token_format_invalid")
      else if parts[0] != VERSION then ParseFailed("token_version_invalid")
      else
        var json := DecodePayload(pf, parts[1]);
        if json == Falsy then ParseFailed("token_payload_invalid") else Parsed(parts[1], parts[2], json)
  }

  // ---- checking ----

  datatype Verdict = SecretRefused | Rejected(reason: string) | Accepted(payload: Payload)

  /** What the caller expects of the token; a blank field is not checked. */
  datatype Expected = Expected(serverId: string, purpose: string)

  predicate SafeStringEquals(a: string, b: string) {
    Texts.Trim(a) != "" && Texts.Trim(b) != "" && a == b
  }

  predicate IdText(s: string) {
    forall c | c in s :: 'a' <= c <= 'z' || 'A' <= c <= 'Z' || '0' <= c <= '9' || c == '_' || c == '-'
  }

  function ValidatePayloadShape(sv: Service, p: Payload): Option<string> {
    if Texts.Trim(p.serverId) == "" then Some("token_server_id_required")
    else if |p.serverId| > 180 || !IdText(p.serverId) then Some("token_server_id_invalid")
    else if Texts.Trim(p.purpose) == "" then Some("token_purpose_required")
    else if Texts.Trim(p.nonce) == "" || |p.nonce| < 16 || |p.nonce| > 128 then Some("token_nonce_invalid")
    else if |p.metadata| > sv.maxMetadataJsonBytes then Some("token_metadata_too_large")
    else None
  }

  function CeilSeconds(ms: int): int {
    (ms + 999) / 1000
  }

  function ValidateTokenTime(sv: Service, p: Payload, now: int): Option<string> {
    var skewMs := sv.clockSkewSeconds * 1000;
    if !p.issuedAt.Num? then Some("token_issued_at_invalid")
    else if !p.expiresAt.Num? then Some("token_expires_at_invalid")
    else if p.issuedAt.n > now + skewMs then Some("token_not_yet_valid")
    else if p.expiresAt.n <= now - skewMs then Some("token_expired")
    else if p.expiresAt.n <= p.issuedAt.n then Some("token_time_range_invalid")
    else if CeilSeconds(p.expiresAt.n - p.issuedAt.n) > sv.maxTtlSeconds + sv.clockSkewSeconds
      then Some("token_ttl_too_long")
    else None
  }

  function ValidateExpected(p: Payload, expected: Expected): Option<string> {
    if Texts.Trim(expected.serverId) != "" && p.serverId != Texts.Trim(expected.serverId)
      then Some("token_server_mismatch")
    else if Texts.Trim(expected.purpose) != "" && p.purpose != Texts.Trim(expected.purpose)
      then Some("token_purpose_mismatch")
    else None
  }

  function CheckPayload(sv: Service, p: Payload, now: int, expected: Expected): Verdict {
    var shape, time, asked := ValidatePayloadShape(sv, p), ValidateTokenTime(sv, p, now), ValidateExpected(p, expected);
    if shape.Some? then Rejected(shape.value)
    else if time.Some? then Rejected(time.value)
    else if asked.Some? then Rejected(asked.value)
    else Accepted(p)
  }

  function VerifyToken(pf: Platform, sv: Service, token: string, now: int, expected: Expected): Verdict {
    if !sv.secretAccepted then SecretRefused
    else
      match ParseServiceToken(pf, token)
      case ParseFailed(reason) => Rejected(reason)
      case Parsed(encoded, signature, json) =>
        if !SafeStringEquals(pf.sign(encoded), signature) then Rejected("token_signature_invalid")
        else if !json.Object? then Rejected("token_payload_shape_invalid")
        else CheckPayload(sv, json.payload, now, expected)
  }

  // ---- printer and parser undo each other ----

  lemma SplitPrinted(encoded: string, signature: string)
    requires '.' !in encoded && '.' !in signature
    ensures Texts.Split(Printed(encoded, signature), '.') == [VERSION, encoded, signature]
  {
    hide Texts.Split;
    Texts.SplitLast(VERSION + ['.'] + encoded, '.', signature);
    Texts.SplitLast(VERSION, '.', encoded);
    Texts.SplitWhole(VERSION, '.');
  }

  /** What is printed from a payload and a signature is parsed back into the same payload and signature. */
  lemma ParsePrinted(pf: Platform, p: Payload, signature: string)
    requires Lawful(pf) && pf.isObjectText(p.metadata)
    requires signature != "" && '.' !in signature && !Texts.IsSpace(signature[|signature| - 1])
    ensures var encoded := Base64Url.Encode(pf.stringify(p));
            ParseServiceToken(pf, Printed(encoded, signature)) == Parsed(encoded, signature, Object(p))
  {
    var bytes := pf.stringify(p);
    var encoded := Base64Url.Encode(bytes);
    Base64Url.EncodedIsUrlSafe(bytes);
    Base64Url.DecodeEncode(bytes);
    hide Base64Url.Encode, Base64Url.Decode;
    var text := Printed(encoded, signature);
    assert text[0] == 'm' && text[|text| - 1] == signature[|signature| - 1];
    Texts.TrimWhole(text);
    SplitPrinted(encoded, signature);
  }

  /** Whatever is parsed, apart from white space around it, is what printing its parts gives. */
  lemma PrintParsed(pf: Platform, token: string)
    requires ParseServiceToken(pf, token).Parsed?
    ensures var parsed := ParseServiceToken(pf, token);
            && Texts.Trim(token) == Printed(parsed.encodedPayload, parsed.signature)
            && '.' !in parsed.encodedPayload && '.' !in parsed.signature
            && parsed.json == DecodePayload(pf, parsed.encodedPayload)
  {
    hide Texts.Trim, DecodePayload;
    var text := Texts.Trim(token);
    var parts := Texts.Split(text, '.');
    Texts.JoinSplit(text, '.');
    assert parts[1] in parts && parts[2] in parts;
    assert parts[..2][..1] == [parts[0]];
    assert Texts.Joined(parts[..2], '.') == parts[0] + ['.'] + parts[1];
  }

  // ---- validity ----

  /** The random nonce: sixteen bytes in hexadecimal. */
  predicate IsNonce(nonce: string) {
    |nonce| == 32 && forall c | c in nonce :: IsHex(c)
  }

  lemma HexIsText(s: string)
    requires s != "" && forall c | c in s :: IsHex(c)
    ensures Texts.Trim(s) == s && '.' !in s && !Texts.IsSpace(s[|s| - 1])
  {
    assert s[0] in s && s[|s| - 1] in s;
    Texts.TrimWhole(s);
  }

  lemma TrimIsTrimmed(s: string)
    ensures Texts.Trim(Texts.Trim(s)) == Texts.Trim(s)
  {
    Texts.TrimTwice(s);
  }

  /**
   A parsable lifetime, or a usable default, always fits the limit on lifetimes; otherwise sixty seconds must fit it.
   */
  predicate LifetimeFits(config: Config, options: TokenOptions) {
    || options.ttlSeconds.Num? || config.defaultTtlSeconds.Num?
    || 60 <= Configured(config).maxTtlSeconds + Configured(config).clockSkewSeconds
  }

  lemma LifetimeWithinLimit(config: Config, options: TokenOptions)
    ensures var sv := Configured(config);
            TtlSeconds(sv, options) <= sv.maxTtlSeconds + sv.clockSkewSeconds <==> LifetimeFits(config, options)
    ensures TtlSeconds(Configured(config), options) >= 5
  {
  }

  /** The clock check on a new payload is the half-open interval widened by the skew, given that its lifetime fits. */
  lemma NewPayloadTime(config: Config, options: TokenOptions, issuedAt: int, nonce: string, now: int)
    ensures var sv := Configured(config);
            var skewMs, expiresAt := sv.clockSkewSeconds * 1000, issuedAt + TtlSeconds(sv, options) * 1000;
            ValidateTokenTime(sv, NewPayload(sv, options, issuedAt, nonce), now) == None
            <==> LifetimeFits(config, options) && issuedAt - skewMs <= now < expiresAt + skewMs
  {
    LifetimeWithinLimit(config, options);
    var sv := Configured(config);
    var ttl := TtlSeconds(sv, options);
    assert CeilSeconds(ttl * 1000) == ttl;
  }

  predicate WellFormedServerId(id: string) {
    |id| <= 180 && IdText(id)
  }

  lemma NewPayloadShape(config: Config, options: TokenOptions, issuedAt: int, nonce: string)
    requires IsNonce(nonce) && Texts.Trim(options.serverId) != ""
    requires |options.metadata| <= Configured(config).maxMetadataJsonBytes
    ensures var sv := Configured(config);
            ValidatePayloadShape(sv, NewPayload(sv, options, issuedAt, nonce)) == None
            <==> WellFormedServerId(Texts.Trim(options.serverId))
  {
    HexIsText(nonce);
    TrimIsTrimmed(options.serverId);
    TrimIsTrimmed(options.purpose);
    TrimIsTrimmed(config.purpose);
    Texts.TrimWhole(DEFAULT_PURPOSE);
  }

  /**
   * A created token is accepted exactly when its server id is well formed, its lifetime fits the limit, the clock is
   * within the skewed interval, and it is for the expected server and purpose; what is accepted is what was put in.
   */
  lemma CreatedTokenAcceptedExactly(
    pf: Platform, config: Config, options: TokenOptions, issuedAt: int, nonce: string, now: int, expected: Expected)
    requires Lawful(pf) && IsNonce(nonce) && pf.isObjectText(options.metadata)
    requires CreateToken(pf, Configured(config), options, issuedAt, nonce).Token?
    ensures var sv := Configured(config);
            var p := NewPayload(sv, options, issuedAt, nonce);
            var skewMs, expiresAt := sv.clockSkewSeconds * 1000, issuedAt + TtlSeconds(sv, options) * 1000;
            var verdict := VerifyToken(pf, sv, CreateToken(pf, sv, options, issuedAt, nonce).text, now, expected);
            && (verdict.Accepted? <==>
                  && WellFormedServerId(Texts.Trim(options.serverId)) && LifetimeFits(config, options)
                  && issuedAt - skewMs <= now < expiresAt + skewMs
                  && ValidateExpected(p, expected) == None)
            && (verdict.Accepted? ==> verdict.payload == p)
  {
    var sv := Configured(config);
    var p := NewPayload(sv, options, issuedAt, nonce);
    NewPayloadTime(config, options, issuedAt, nonce, now);
    NewPayloadShape(config, options, issuedAt, nonce);
    CreatedIsChecked(pf, sv, options, issuedAt, nonce, now, expected);
    hide Configured, NewPayload, TtlSeconds, ValidatePayloadShape, ValidateTokenTime, ValidateExpected, CreateToken,
      VerifyToken,
         LifetimeFits, WellFormedServerId, IsNonce, Lawful;
    assert CheckPayload(sv, p, now, expected).Accepted? <==>
           ValidatePayloadShape(sv, p) == None && ValidateTokenTime(sv, p, now) == None
             && ValidateExpected(p, expected) == None;
  }

  /** Verifying a created token comes down to checking the payload that went into it. */
  lemma CreatedIsChecked(
    pf: Platform, sv: Service, options: TokenOptions, issuedAt: int, nonce: string, now: int, expected: Expected)
    requires Lawful(pf) && pf.isObjectText(options.metadata) && CreateToken(pf, sv, options, issuedAt, nonce).Token?
    ensures VerifyToken(pf, sv, CreateToken(pf, sv, options, issuedAt, nonce).text, now, expected)
         == CheckPayload(sv, NewPayload(sv, options, issuedAt, nonce), now, expected)
  {
    assert NewPayload(sv, options, issuedAt, nonce).metadata == options.metadata;
    hide NewPayload, CheckPayload, ParseServiceToken;
    var p := NewPayload(sv, options, issuedAt, nonce);
    var encoded := Base64Url.Encode(pf.stringify(p));
    HexIsText(pf.sign(encoded));
    ParsePrinted(pf, p, pf.sign(encoded));
  }

  /** With a lifetime that parses, a well-formed token is valid for exactly its interval, skew included. */
  lemma ParsableTtlIsValidForItsInterval(
    pf: Platform, config: Config, options: TokenOptions, issuedAt: int, nonce: string, now: int)
    requires Lawful(pf) && IsNonce(nonce) && pf.isObjectText(options.metadata) && options.ttlSeconds.Num?
    requires WellFormedServerId(Texts.Trim(options.serverId))
    requires CreateToken(pf, Configured(config), options, issuedAt, nonce).Token?
    ensures var sv := Configured(config);
            var ttl := Max(5, Min(options.ttlSeconds.n, sv.maxTtlSeconds));
            VerifyToken(pf, sv, CreateToken(pf, sv, options, issuedAt, nonce).text, now, Expected("", "")).Accepted?
            <==> issuedAt - sv.clockSkewSeconds * 1000 <= now < issuedAt + (ttl + sv.clockSkewSeconds) * 1000
  {
    hide VerifyToken, CreateToken, Lawful, IsNonce, WellFormedServerId, Texts.Trim;
    CreatedTokenAcceptedExactly(pf, config, options, issuedAt, nonce, now, Expected("", ""));
    assert Texts.Trim("") == "" by { BlankIsBlank(); }
  }

  lemma BlankIsBlank()
    ensures Texts.Trim("") == ""
  {
  }

  /** A service with a five-second limit and no usable default creates tokens that it never accepts. */
  lemma FallbackLifetimeCanExceedTheLimit(pf: Platform, issuedAt: int, nonce: string, now: int)
    requires Lawful(pf) && IsNonce(nonce)
    ensures var config := Config(true, Num(5), Absent, Num(0), "", Absent);
            var options := TokenOptions("a", Absent, "", EMPTY_OBJECT);
            && CreateToken(pf, Configured(config), options, issuedAt, nonce).Token?
            && !VerifyToken(pf, Configured(config),
                            CreateToken(pf, Configured(config), options, issuedAt, nonce).text, now,
                              Expected("", "")).Accepted?
  {
    var config := Config(true, Num(5), Absent, Num(0), "", Absent);
    var options := TokenOptions("a", Absent, "", EMPTY_OBJECT);
    Texts.TrimWhole("a");
    CreatedTokenAcceptedExactly(pf, config, options, issuedAt, nonce, now, Expected("", ""));
  }

  /** A payload is accepted if and only if it is acceptable, and comes out as it went in. */
  lemma CheckedExactly(sv: Service, p: Payload, now: int, expected: Expected)
    ensures CheckPayload(sv, p, now, expected).Accepted? <==> Acceptable(sv, p, now, expected)
    ensures CheckPayload(sv, p, now, expected).Accepted? ==> CheckPayload(sv, p, now, expected).payload == p
  {
    hide Texts.Trim, IdText;
  }

  lemma AcceptedIsChecked(
    pf: Platform, sv: Service, token: string, now: int, expected: Expected) returns (encoded: string, p: Payload)
    ensures VerifyToken(pf, sv, token, now, expected).Accepted? ==>
              && Texts.Trim(token) == Printed(encoded, pf.sign(encoded)) && DecodePayload(pf, encoded) == Object(p)
              && VerifyToken(pf, sv, token, now, expected) == CheckPayload(sv, p, now, expected)
  {
    hide ParseServiceToken, DecodePayload, Texts.Trim, Printed, CheckPayload;
    encoded, p := *, *;
    if VerifyToken(pf, sv, token, now, expected).Accepted? {
      PrintParsed(pf, token);
      var parsed := ParseServiceToken(pf, token);
      encoded, p := parsed.encodedPayload, parsed.json.payload;
    }
  }

  /** A payload that may be accepted now: well formed, in its interval, of a lifetime within the limit, as expected. */
  predicate Acceptable(sv: Service, p: Payload, now: int, expected: Expected) {
    && Texts.Trim(p.serverId) != "" && WellFormedServerId(p.serverId)
    && Texts.Trim(p.purpose) != ""
    && Texts.Trim(p.nonce) != "" && 16 <= |p.nonce| <= 128 && |p.metadata| <= sv.maxMetadataJsonBytes
    && p.issuedAt.Num? && p.expiresAt.Num?
    && p.issuedAt.n - sv.clockSkewSeconds * 1000 <= now < p.expiresAt.n + sv.clockSkewSeconds * 1000
    && p.issuedAt.n < p.expiresAt.n <= p.issuedAt.n + (sv.maxTtlSeconds + sv.clockSkewSeconds) * 1000
    && (Texts.Trim(expected.serverId) != "" ==> p.serverId == Texts.Trim(expected.serverId))
    && (Texts.Trim(expected.purpose) != "" ==> p.purpose == Texts.Trim(expected.purpose))
  }

  /** The characters of a server id by their ASCII codes: small and capital letters, digits, underscore and hyphen. */
  lemma IdCharactersExactly(s: string)
    ensures IdText(s) <==>
              forall c | c in s ::
                var code := c as int;
                97 <= code <= 122 || 65 <= code <= 90 || 48 <= code <= 57 || code == 95 || code == 45
  {
  }

  /** The setting in force: what was asked for cut to its range, or the default when it is missing or no number. */
  predicate InForceAs(asked: Raw, fallback: int, lo: int, hi: int, used: int) {
    used == if asked.Num? then Max(lo, Min(asked.n, hi)) else fallback
  }

  /**
   The limits a service works with: lifetimes of 5 seconds to a day (300), the default lifetime within them (60),
   a skew of up to a minute (5), 128 to 65536 bytes of metadata (2048), and the purpose, trimmed.
   */
  lemma SettingsExactly(config: Config)
    ensures var sv := Configured(config);
            && sv.secretAccepted == config.secretAccepted
            && InForceAs(config.maxTtlSeconds, 300, 5, 24 * 60 * 60, sv.maxTtlSeconds)
            && InForceAs(config.defaultTtlSeconds, 60, 5, sv.maxTtlSeconds, sv.defaultTtlSeconds)
            && InForceAs(config.clockSkewSeconds, 5, 0, 60, sv.clockSkewSeconds)
            && InForceAs(config.maxMetadataJsonBytes, 2048, 128, 65536, sv.maxMetadataJsonBytes)
            && sv.purpose == (if Texts.Trim(config.purpose) == "" then "game_server_control"
                              else Texts.Trim(config.purpose))
  {
  }

  /** What a new token says: the ids and the purpose trimmed, the lifetime in milliseconds, the rest as given. */
  lemma NewPayloadExactly(config: Config, options: TokenOptions, issuedAt: int, nonce: string)
    ensures var sv := Configured(config);
            var p := NewPayload(sv, options, issuedAt, nonce);
            && p.serverId == Texts.Trim(options.serverId) && p.nonce == nonce && p.metadata == options.metadata
            && p.purpose == (if Texts.Trim(options.purpose) == "" then sv.purpose else Texts.Trim(options.purpose))
            && p.issuedAt == Num(issuedAt)
            && p.expiresAt == Num(issuedAt + 1000 *
                 if options.ttlSeconds.Num? then Max(5, Min(options.ttlSeconds.n, sv.maxTtlSeconds))
                 else sv.defaultTtlSeconds)
  {
    hide Texts.Trim;
  }

  /** A token is created if and only if the secret is accepted, a server is named and the metadata is not too large. */
  lemma CreatedExactlyWhen(pf: Platform, sv: Service, options: TokenOptions, issuedAt: int, nonce: string)
    ensures CreateToken(pf, sv, options, issuedAt, nonce).Token? <==>
              sv.secretAccepted && Texts.Trim(options.serverId) != "" && |options.metadata| <= sv.maxMetadataJsonBytes
  {
    hide Texts.Trim;
  }

  /**
   A token is accepted if and only if the secret is, and the token is, apart from white space around it, a printed
   payload with the signature of just that payload, which is acceptable now.
   */
  lemma AcceptedExactlyWhen(pf: Platform, sv: Service, token: string, now: int, expected: Expected, p: Payload)
    requires Lawful(pf)
    ensures VerifyToken(pf, sv, token, now, expected) == Accepted(p) <==>
              && sv.secretAccepted && Acceptable(sv, p, now, expected)
              && exists encoded :: SignedAs(pf, token, encoded, p)
  {
    hide VerifyToken, CheckPayload, Acceptable, SignedAs;
    CheckedExactly(sv, p, now, expected);
    var text := AcceptedIsSigned(pf, sv, token, now, expected, p);
    if encoded :| SignedAs(pf, token, encoded, p) {
      SignedIsChecked(pf, sv, token, now, expected, encoded, p);
    }
  }

  /** Apart from white space around it, the token is the printed text with its signature, and the text reads as `p`. */
  predicate SignedAs(pf: Platform, token: string, encoded: string, p: Payload) {
    && Texts.Trim(token) == Printed(encoded, pf.sign(encoded)) && '.' !in encoded
    && DecodePayload(pf, encoded) == Object(p)
  }

  lemma AcceptedIsSigned(
    pf: Platform, sv: Service, token: string, now: int, expected: Expected, p: Payload) returns (encoded: string)
    ensures VerifyToken(pf, sv, token, now, expected) == Accepted(p) ==>
              SignedAs(pf, token, encoded, p) && sv.secretAccepted && CheckPayload(sv, p, now, expected) == Accepted(p)
  {
    hide ParseServiceToken, DecodePayload, Texts.Trim, Printed, CheckPayload;
    encoded := "";
    if VerifyToken(pf, sv, token, now, expected) == Accepted(p) {
      PrintParsed(pf, token);
      var parsed := ParseServiceToken(pf, token);
      encoded := parsed.encodedPayload;
      CheckedExactly(sv, parsed.json.payload, now, expected);
    }
  }

  lemma SignedIsChecked(
    pf: Platform, sv: Service, token: string, now: int, expected: Expected, encoded: string, p: Payload)
    requires Lawful(pf) && SignedAs(pf, token, encoded, p)
    ensures VerifyToken(pf, sv, token, now, expected)
         == if sv.secretAccepted then CheckPayload(sv, p, now, expected) else SecretRefused
  {
    hide Texts.Trim, CheckPayload, DecodePayload, Texts.Split;
    HexIsText(pf.sign(encoded));
    SplitPrinted(encoded, pf.sign(encoded));
  }

  /** Whatever token is accepted carries the signature of its own payload, which is acceptable now. */
  lemma AcceptedTokenIsSigned(pf: Platform, sv: Service, token: string, now: int, expected: Expected)
    ensures var verdict := VerifyToken(pf, sv, token, now, expected);
            verdict.Accepted? ==>
              && Acceptable(sv, verdict.payload, now, expected)
              && exists encoded :: && Texts.Trim(token) == Printed(encoded, pf.sign(encoded))
                                   && DecodePayload(pf, encoded) == Object(verdict.payload)
  {
    hide VerifyToken, CheckPayload, DecodePayload, Texts.Trim, Printed, WellFormedServerId;
    var encoded, p := AcceptedIsChecked(pf, sv, token, now, expected);
    if VerifyToken(pf, sv, token, now, expected).Accepted? {
      CheckedExactly(sv, p, now, expected);
    }
  }
}
