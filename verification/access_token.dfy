/** Signed access tokens and password hashes. The MAC, the key derivation and the JSON codec are parameters. */
module AccessToken {
  import opened Options
  import opened Bytes
  import opened Base64Url

  /** A claim by what Python's `int` makes of it: an integer, a value it converts to `n` such as 1.5, "9999999999" or
      true, or a value it refuses such as null, "soon" or an infinite number. */
  datatype Claim = Integer(n: int) | Converted(json: string, n: int) | Refused(json: string)
  type Payload = map<string, Claim>

  /** What a JSON text loads as. */
  datatype Loaded = Claims(payload: Payload) | NotAnObject

  datatype Crypto = Crypto(dumps: Payload -> seq<Byte>, loads: seq<Byte> -> Option<Loaded>,
        mac: (string, string) -> seq<Byte>)

  /** `json.loads` inverts `json.dumps` on payloads. */
  ghost predicate JsonRoundTrips(crypto: Crypto) { forall p :: crypto.loads(crypto.dumps(p)) == Some(Claims(p)) }

  const ALGORITHM := "HS256"

  /** An authentication error, or an exception the function does not turn into one. */
  datatype Decoded = Ok(payload: Payload) | AuthError | Unhandled

  datatype Created = Token(text: string) | UnsupportedAlgorithm

  function BuildPayload(subject: Claim, now: int, expiresMinutes: int, extra: Payload): Payload {
    map["sub" := subject, "iat" := Integer(now), "exp" := Integer(now + 60 * expiresMinutes)] + extra
  }

  function CreateAccessToken(crypto: Crypto, subject: Claim, secret: string, algorithm: string, now: int,
        expiresMinutes: int, extra: Payload): Created
  {
    if algorithm != ALGORITHM then UnsupportedAlgorithm
    else
      var payloadToken := Encode(crypto.dumps(BuildPayload(subject, now, expiresMinutes, extra)));
      Token(payloadToken + "." + Encode(crypto.mac(secret, payloadToken)))
  }

  /** `split(separator, 1)`: the parts around the first separator. */
  function SplitFirst(s: string, separator: char): Option<(string, string)> {
    if s == "" then None
    else if s[0] == separator then Some(("", s[1..]))
    else
      match SplitFirst(s[1..], separator)
      case None => None
      case Some(parts) => Some(([s[0]] + parts.0, parts.1))
  }

  function Expiry(payload: Payload): Claim { if "exp" in payload then payload["exp"] else Integer(0) }

  function DecodeAccessToken(crypto: Crypto, token: string, secret: string, algorithm: string, now: int): Decoded {
    if algorithm != ALGORITHM then Unhandled
    else
      match SplitFirst(token, '.')
      case None => AuthError
      case Some((payloadToken, signatureToken)) =>
        match Decode(signatureToken)
        case None => Unhandled
        case Some(signature) =>
          if crypto.mac(secret, payloadToken) != signature then AuthError
          else
            match Decode(payloadToken)
            case None => AuthError
            case Some(text) =>
              match crypto.loads(text)
              case None => AuthError
              case Some(NotAnObject) => Unhandled
              case Some(Claims(payload)) =>
                match Expiry(payload)
                case Refused(_) => Unhandled
                case exp => if exp.n < now then AuthError else Ok(payload)
  }

  lemma {:induction false} SplitsAtSeparator(front: string, separator: char, back: string)
    requires forall c | c in front :: c != separator
    ensures SplitFirst(front + [separator] + back, separator) == Some((front, back))
  {
    var s := front + [separator] + back;
    if front == "" {
      assert s[1..] == back;
    } else {
      assert front[0] in front && forall c | c in front[1..] :: c in front;
      assert s[1..] == front[1..] + [separator] + back;
      SplitsAtSeparator(front[1..], separator, back);
      assert [front[0]] + front[1..] == front;
    }
  }

  /** The subject, the time of issue and an expiry that many minutes later, each unless an extra claim replaces it, and
      the other extra claims. */
  ghost predicate IsPayload(payload: Payload, subject: Claim, issued: int, expiresMinutes: int, extra: Payload) {
    && payload.Keys == {"sub", "iat", "exp"} + extra.Keys
    && (forall k | k in extra :: payload[k] == extra[k])
    && ("sub" !in extra ==> payload["sub"] == subject)
    && ("iat" !in extra ==> payload["iat"] == Integer(issued))
    && ("exp" !in extra ==> payload["exp"] == Integer(issued + 60 * expiresMinutes))
  }

  /** The token theorem: a created token, read with any secret at any time, gives back exactly the payload it was
      built from if the secrets agree on its MAC and its expiry has not passed. The expiry is the one in the final
      payload, which extra claims may replace. */
  lemma TokenRoundTrip(crypto: Crypto, subject: Claim, secret: string, secret': string, issued: int,
        expiresMinutes: int, extra: Payload, now: int)
    requires JsonRoundTrips(crypto)
    ensures var created := CreateAccessToken(crypto, subject, secret, "HS256", issued, expiresMinutes, extra);
            var expiry := if "exp" in extra then extra["exp"] else Integer(issued + 60 * expiresMinutes);
            && created.Token?
            && exists payload ::
                 && IsPayload(payload, subject, issued, expiresMinutes, extra)
                 && var signed := Encode(crypto.dumps(payload));
                    DecodeAccessToken(crypto, created.text, secret', "HS256", now) ==
                      if crypto.mac(secret, signed) != crypto.mac(secret', signed) then AuthError
                      else if expiry.Refused? then Unhandled
                      else if expiry.n >= now then Ok(payload) else AuthError
  {
    hide Encode, Decode;
    var payload := BuildPayload(subject, issued, expiresMinutes, extra);
    var signed := Encode(crypto.dumps(payload));
    var signature := crypto.mac(secret, signed);
    RoundTrip(crypto.dumps(payload));
    RoundTrip(signature);
    SplitsAtSeparator(signed, '.', Encode(signature));
    assert signed + "." + Encode(signature) == signed + ['.'] + Encode(signature);
    assert IsPayload(payload, subject, issued, expiresMinutes, extra);
  }

  // ----- every token, whoever built it

  /** The text is these two parts around its first separator. */
  ghost predicate HasParts(s: string, separator: char, front: string, back: string) {
    s == front + [separator] + back && forall c | c in front :: c != separator
  }

  lemma {:induction false} SplitsIffParts(s: string, separator: char, front: string, back: string)
    ensures SplitFirst(s, separator) == Some((front, back)) <==> HasParts(s, separator, front, back)
  {
    if HasParts(s, separator, front, back) {
      SplitsAtSeparator(front, separator, back);
    }
    if s != "" && s[0] != separator && SplitFirst(s[1..], separator).Some? {
      var (front', back') := SplitFirst(s[1..], separator).value;
      SplitsIffParts(s[1..], separator, front', back');
      assert s == [s[0]] + front' + [separator] + back';
    } else if s != "" && s[0] == separator {
      assert s == "" + [separator] + s[1..];
    }
  }

  /** A text that raises a decoding error. */
  ghost predicate Undecodable(s: string) {
    (exists c :: c in s && c as int >= 128) || LeavesGroupOpen(Repadded(s))
  }

  /** The second part decodes to the MAC of the first. */
  predicate IsSigned(crypto: Crypto, secret: string, front: string, back: string) {
    Decode(back) == Some(crypto.mac(secret, front))
  }

  function LoadedFrom(crypto: Crypto, front: string): Option<Loaded> {
    match Decode(front)
    case None => None
    case Some(text) => crypto.loads(text)
  }

  /** Not an object, or one with an expiry that `int` refuses. */
  predicate IsMalformed(loaded: Loaded) {
    loaded.NotAnObject? || ("exp" in loaded.payload && loaded.payload["exp"].Refused?)
  }

  /** The expiry in the payload has not passed; a missing one counts as the beginning of 1970. */
  predicate IsCurrent(payload: Payload, now: int) {
    if "exp" in payload then !payload["exp"].Refused? && now <= payload["exp"].n else now <= 0
  }

  /** The answer for every token. With another algorithm than HS256 the exception is not the authentication error.
      Otherwise something else than that error escapes exactly when the second part does not decode, or the token is
      correctly signed and its payload is not an object or has an expiry that `int` refuses. A payload is returned
      exactly when the token is correctly signed and the expiry has not passed. */
  lemma AnswerForEveryToken(crypto: Crypto, token: string, secret: string, algorithm: string, now: int)
    ensures var answer := DecodeAccessToken(crypto, token, secret, algorithm, now);
            && (algorithm != "HS256" ==> answer.Unhandled?)
            && (algorithm == "HS256" ==>
                  && (answer.Unhandled? <==>
                        exists front, back :: HasParts(token, '.', front, back) &&
                          (Undecodable(back) ||
                           (IsSigned(crypto, secret, front, back) && LoadedFrom(crypto, front).Some?
                               && IsMalformed(LoadedFrom(crypto, front).value))))
                  && (forall p :: answer == Ok(p) <==>
                        exists front, back :: HasParts(token, '.', front, back) && IsSigned(crypto, secret, front, back)
                          && LoadedFrom(crypto, front) == Some(Claims(p)) && IsCurrent(p, now)))
  {
    hide Decode, LeavesGroupOpen, SplitFirst, HasParts, Repadded;
    forall front, back ensures SplitFirst(token, '.') == Some((front, back)) <==> HasParts(token, '.', front, back) {
      SplitsIffParts(token, '.', front, back);
    }
    if SplitFirst(token, '.').Some? {
      var (front, back) := SplitFirst(token, '.').value;
      assert HasParts(token, '.', front, back);
      UndecodableExactlyWhen(back);
    }
  }

  /** A part of one character does not decode, so any token that ends in one escapes the authentication error. */
  lemma LoneCharacterIsUnhandled(crypto: Crypto, front: string, secret: string, now: int)
    requires forall c | c in front :: c != '.'
    ensures DecodeAccessToken(crypto, front + ".A", secret, ALGORITHM, now) == Unhandled
  {
    hide Decode;
    SplitsAtSeparator(front, '.', "A");
    assert front + ".A" == front + ['.'] + "A";
    AlphabetFailsExactlyWhen("A");
  }

  /** So does a correctly signed token whose creator gave it an expiry that `int` refuses. */
  lemma TextExpiryIsUnhandled(crypto: Crypto, subject: Claim, secret: string, issued: int, expiresMinutes: int,
        now: int)
    requires JsonRoundTrips(crypto)
    ensures var created := CreateAccessToken(crypto, subject, secret, ALGORITHM, issued, expiresMinutes,
        map["exp" := Refused("\"soon\"")]);
            created.Token? && DecodeAccessToken(crypto, created.text, secret, ALGORITHM, now) == Unhandled
  {
    hide DecodeAccessToken, BuildPayload;
    TokenRoundTrip(crypto, subject, secret, secret, issued, expiresMinutes, map["exp" := Refused("\"soon\"")], now);
  }

  // ----- passwords

  const SCHEME := "pbkdf2_sha256"
  const ITERATIONS := 390000

  type Kdf = (string, seq<Byte>, int) -> seq<Byte>

  /** A decimal numeral as Python's `int` reads it. */
  function ParseDecimal(s: string): Option<int> {
    if s == "" || exists c :: c in s && !('0' <= c <= '9') then None else Some(DecimalValue(s))
  }

  function DecimalValue(s: string): int {
    if s == "" then 0 else 10 * DecimalValue(s[..|s| - 1]) + (s[|s| - 1] as int - '0' as int)
  }

  function HashPassword(kdf: Kdf, password: string, salt: seq<Byte>): string {
    SCHEME + "$" + ("390000" + "$" + (Encode(salt) + "$" + Encode(kdf(password, salt, ITERATIONS))))
  }

  /** Any malformed hash verifies as false. */
  function VerifyPassword(kdf: Kdf, password: string, passwordHash: string): bool {
    match SplitFirst(passwordHash, '$')
    case None => false
    case Some((scheme, rest)) =>
      match SplitFirst(rest, '$')
      case None => false
      case Some((iterations, rest')) =>
        match SplitFirst(rest', '$')
        case None => false
        case Some((saltToken, digestToken)) =>
          scheme == SCHEME && ParseDecimal(iterations).Some? &&
          Decode(saltToken).Some? && Decode(digestToken).Some? &&
          kdf(password, Decode(saltToken).value, ParseDecimal(iterations).value) == Decode(digestToken).value
  }

  lemma IterationsReadBack()
    ensures ParseDecimal("390000") == Some(ITERATIONS)
  {
    assert DecimalValue("3") == 3 by { assert "3"[..0] == ""; }
    assert DecimalValue("39") == 39 by { assert "39"[..1] == "3"; }
    assert DecimalValue("390") == 390 by { assert "390"[..2] == "39"; }
    assert DecimalValue("3900") == 3900 by { assert "3900"[..3] == "390"; }
    assert DecimalValue("39000") == 39000 by { assert "39000"[..4] == "3900"; }
    assert DecimalValue("390000") == 390000 by { assert "390000"[..5] == "39000"; }
  }

  /** The stored hash is these four parts between its first three dollar signs. */
  ghost predicate HasFields(hash: string, scheme: string, iterations: string, salt: string, digest: string) {
    var rest := iterations + ['$'] + (salt + ['$'] + digest);
    HasParts(hash, '$', scheme, rest) && HasParts(rest, '$', iterations, salt + ['$'] + digest)
      && HasParts(salt + ['$'] + digest, '$', salt, digest)
  }

  /** For every stored hash, whoever wrote it: a password verifies exactly when the hash has four parts, the scheme is
      the one known, the second part is a numeral, the others decode, and the password derives the stored key. */
  lemma VerifiesExactlyWhen(kdf: Kdf, password: string, hash: string)
    ensures VerifyPassword(kdf, password, hash) <==>
              exists n: string, salt: string, digest: string ::
                && HasFields(hash, "pbkdf2_sha256", n, salt, digest)
                && n != "" && (forall c | c in n :: c in "0123456789")
                && Decode(salt).Some? && Decode(digest).Some?
                && kdf(password, Decode(salt).value, DecimalValue(n)) == Decode(digest).value
  {
    hide Decode, SplitFirst, DecimalValue, HasParts;
    if SplitsInFour(hash) {
      var (scheme, rest) := SplitFirst(hash, '$').value;
      var (n, rest') := SplitFirst(rest, '$').value;
      var (salt, digest) := SplitFirst(rest', '$').value;
      FieldsOf(hash, scheme, rest, n, rest', salt, digest);
      NumeralExactlyWhen(n);
    }
    forall n: string, salt: string, digest: string | HasFields(hash, "pbkdf2_sha256", n, salt, digest)
      ensures SplitsInFour(hash) && SplitFirst(hash, '$').value.0 == "pbkdf2_sha256"
      ensures var rest := SplitFirst(hash, '$').value.1;
              var rest' := SplitFirst(rest, '$').value.1;
              SplitFirst(rest, '$').value.0 == n && SplitFirst(rest', '$').value == (salt, digest)
    {
      SplitsIffParts(hash, '$', "pbkdf2_sha256", n + ['$'] + (salt + ['$'] + digest));
      SplitsIffParts(n + ['$'] + (salt + ['$'] + digest), '$', n, salt + ['$'] + digest);
      SplitsIffParts(salt + ['$'] + digest, '$', salt, digest);
    }
  }

  predicate SplitsInFour(hash: string) {
    && SplitFirst(hash, '$').Some? && SplitFirst(SplitFirst(hash, '$').value.1, '$').Some?
    && SplitFirst(SplitFirst(SplitFirst(hash, '$').value.1, '$').value.1, '$').Some?
  }

  lemma FieldsOf(hash: string, scheme: string, rest: string, n: string, rest': string, salt: string, digest: string)
    requires SplitFirst(hash, '$') == Some((scheme, rest)) && SplitFirst(rest, '$') == Some((n, rest'))
    requires SplitFirst(rest', '$') == Some((salt, digest))
    ensures HasFields(hash, scheme, n, salt, digest)
  {
    hide SplitFirst;
    SplitsIffParts(hash, '$', scheme, rest);
    SplitsIffParts(rest, '$', n, rest');
    SplitsIffParts(rest', '$', salt, digest);
  }

  lemma NumeralExactlyWhen(n: string)
    ensures ParseDecimal(n) ==
              if n != "" && forall c | c in n :: c in "0123456789" then Some(DecimalValue(n)) else None
  {
    hide DecimalValue;
  }

  /** A password verifies against a stored hash exactly when it derives the same key, so the original always does. */
  lemma PasswordRoundTrip(kdf: Kdf, password: string, salt: seq<Byte>, attempt: string)
    ensures VerifyPassword(kdf, attempt, HashPassword(kdf, password, salt)) <==>
              kdf(attempt, salt, ITERATIONS) == kdf(password, salt, ITERATIONS)
  {
    hide Encode, Decode, ParseDecimal;
    var digest := kdf(password, salt, ITERATIONS);
    RoundTrip(salt);
    RoundTrip(digest);
    IterationsReadBack();
    var tail := Encode(salt) + "$" + Encode(digest);
    SplitsAtSeparator(SCHEME, '$', "390000" + "$" + tail);
    SplitsAtSeparator("390000", '$', tail);
    SplitsAtSeparator(Encode(salt), '$', Encode(digest));
    assert SCHEME + "$" + ("390000" + "$" + tail) == SCHEME + ['$'] + ("390000" + "$" + tail);
    assert "390000" + "$" + tail == "390000" + ['$'] + tail;
    assert tail == Encode(salt) + ['$'] + Encode(digest);
  }
}
