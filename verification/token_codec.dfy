/**
 * A stand-in for the signing library's `encode` and `decode` (pyjwt).
 *
 * A token is a string of three length-prefixed segments: the algorithm name
 * (the header), the claims (the payload) and the signature. The signature
 * segment is the signing key itself: the model records WHICH key and
 * algorithm signed a token, not how hard it is to forge one. The rest of the
 * model uses two facts about it: `DecodeIff` (a decode succeeds with claims
 * `c` exactly on the token that encodes `c` under that key and algorithm)
 * and `ForeignTokenFails` (a token signed with one key or algorithm does not
 * decode under another, because encoding keeps the key and algorithm apart).
 * `None` stands for every decode failure, including errors the library would
 * raise past `decode_jwt` instead of a `DecodeError`, such as a disallowed
 * algorithm.
 */
module TokenCodec {
  import opened Wrappers
  import opened Decimal

  /** The claims of a payload dictionary that the model looks at; both may be missing from a token signed elsewhere. */
  datatype Claims = Claims(username: Option<string>, expires: Option<int>)

  /** A segment: its length in decimal, a colon, then the text itself. */
  function Field(x: string): string {
    Digits(|x|) + ":" + x
  }

  /** Splits one segment off the front of `s`; rejects non-canonical length prefixes. */
  function ParseField(s: string): Option<(string, string)> {
    var k := DigitRun(s);
    if k == 0 || k == |s| || s[k] != ':' then None
    else
      var n := Value(s[..k]);
      if Digits(n) != s[..k] || k + 1 + n > |s| then None
      else Some((s[k + 1..k + 1 + n], s[k + 1 + n..]))
  }

  lemma ParseFieldOfField(x: string, rest: string)
    ensures ParseField(Field(x) + rest) == Some((x, rest))
  {
    var p := Digits(|x|);
    var s := Field(x) + rest;
    assert s == p + (":" + x + rest);
    DigitRunOfPrefix(p, ":" + x + rest);
    assert s[..|p|] == p;
    ValueOfDigits(|x|);
    assert s[|p| + 1..|p| + 1 + |x|] == x;
    assert s[|p| + 1 + |x|..] == rest;
  }

  lemma FieldOfParseField(s: string)
    requires ParseField(s).Some?
    ensures s == Field(ParseField(s).value.0) + ParseField(s).value.1
  {
    var k := DigitRun(s);
    var n := Value(s[..k]);
    assert s == s[..k] + [s[k]] + s[k + 1..k + 1 + n] + s[k + 1 + n..];
  }

  function EncodeOptString(o: Option<string>): string {
    match o
    case None => "n"
    case Some(x) => "s" + Field(x)
  }

  function ParseOptString(s: string): Option<(Option<string>, string)> {
    if |s| == 0 then None
    else if s[0] == 'n' then Some((None, s[1..]))
    else if s[0] == 's' then
      match ParseField(s[1..])
      case None => None
      case Some((x, rest)) => Some((Some(x), rest))
    else None
  }

  /** The present-string tag followed by a segment parses back to the string. */
  lemma ParsePresentStringOfEncode(x: string, rest: string)
    ensures ParseOptString(['s'] + Field(x) + rest) == Some((Some(x), rest))
  {
    var s := ['s'] + Field(x) + rest;
    assert s[0] == 's';
    assert s[1..] == Field(x) + rest;
    ParseFieldOfField(x, rest);
  }

  lemma ParseOptStringOfEncode(o: Option<string>, rest: string)
    ensures ParseOptString(EncodeOptString(o) + rest) == Some((o, rest))
  {
    match o
    case None =>
      assert (EncodeOptString(o) + rest)[1..] == rest;
    case Some(x) =>
      ParsePresentStringOfEncode(x, rest);
  }

  lemma EncodeOfParseOptString(s: string)
    requires ParseOptString(s).Some?
    ensures s == EncodeOptString(ParseOptString(s).value.0) + ParseOptString(s).value.1
  {
    assert s == [s[0]] + s[1..];
    if s[0] == 's' {
      FieldOfParseField(s[1..]);
    }
  }

  /** A magnitude: its canonical decimal spelling as a segment. */
  function EncodeMagnitude(m: nat): string {
    Field(Digits(m))
  }

  /** Rejects a segment that is not a canonical digit string. */
  function ParseMagnitude(s: string): Option<(nat, string)> {
    match ParseField(s)
    case None => None
    case Some((d, rest)) =>
      if !AllDigits(d) || Digits(Value(d)) != d then None else Some((Value(d), rest))
  }

  lemma ParseMagnitudeOfEncode(m: nat, rest: string)
    ensures ParseMagnitude(EncodeMagnitude(m) + rest) == Some((m, rest))
  {
    ParseFieldOfField(Digits(m), rest);
    ValueOfDigits(m);
  }

  lemma EncodeOfParseMagnitude(s: string)
    requires ParseMagnitude(s).Some?
    ensures s == EncodeMagnitude(ParseMagnitude(s).value.0) + ParseMagnitude(s).value.1
  {
    FieldOfParseField(s);
  }

  /** An optional integer: `n` when absent, else the sign (`p` or `m`) and the magnitude. */
  function EncodeOptInt(o: Option<int>): string {
    match o
    case None => "n"
    case Some(i) => if i >= 0 then "p" + EncodeMagnitude(i) else "m" + EncodeMagnitude(-i)
  }

  /** Rejects a negative zero, so that every integer has one spelling. */
  function ParseOptInt(s: string): Option<(Option<int>, string)> {
    if |s| == 0 then None
    else if s[0] == 'n' then Some((None, s[1..]))
    else if s[0] == 'p' || s[0] == 'm' then
      match ParseMagnitude(s[1..])
      case None => None
      case Some((m, rest)) =>
        if s[0] == 'm' && m == 0 then None
        else
          var v: int := m;
          Some((Some(if s[0] == 'p' then v else -v), rest))
    else None
  }

  /** A sign tag followed by an encoded magnitude parses back to the signed value. */
  lemma ParseSignedOfEncode(sign: char, m: nat, rest: string)
    requires sign == 'p' || (sign == 'm' && m > 0)
    ensures ParseOptInt([sign] + EncodeMagnitude(m) + rest) == Some((Some(if sign == 'p' then m as int else -(m as int)), rest))
  {
    var s := [sign] + EncodeMagnitude(m) + rest;
    assert s[0] == sign;
    assert s[1..] == EncodeMagnitude(m) + rest;
    ParseMagnitudeOfEncode(m, rest);
  }

  lemma ParseOptIntOfEncode(o: Option<int>, rest: string)
    ensures ParseOptInt(EncodeOptInt(o) + rest) == Some((o, rest))
  {
    match o
    case None =>
      assert (EncodeOptInt(o) + rest)[1..] == rest;
    case Some(i) =>
      if i >= 0 {
        ParseSignedOfEncode('p', i, rest);
      } else {
        ParseSignedOfEncode('m', -i, rest);
      }
  }

  lemma EncodeOfParseOptInt(s: string)
    requires ParseOptInt(s).Some?
    ensures s == EncodeOptInt(ParseOptInt(s).value.0) + ParseOptInt(s).value.1
  {
    assert s == [s[0]] + s[1..];
    if s[0] != 'n' {
      EncodeOfParseMagnitude(s[1..]);
    }
  }

  function EncodeClaims(c: Claims): string {
    EncodeOptString(c.username) + EncodeOptInt(c.expires)
  }

  function DecodeClaims(s: string): Option<Claims> {
    match ParseOptString(s)
    case None => None
    case Some((u, r1)) =>
      match ParseOptInt(r1)
      case None => None
      case Some((e, r2)) => if r2 == [] then Some(Claims(u, e)) else None
  }

  lemma {:induction false} DecodeClaimsIff(s: string, c: Claims)
    ensures DecodeClaims(s) == Some(c) <==> s == EncodeClaims(c)
  {
    if s == EncodeClaims(c) {
      var tail := EncodeOptInt(c.expires);
      ParseOptStringOfEncode(c.username, tail);
      assert EncodeOptInt(c.expires) + [] == tail;
      ParseOptIntOfEncode(c.expires, []);
    }
    if DecodeClaims(s) == Some(c) {
      EncodeOfParseOptString(s);
      EncodeOfParseOptInt(ParseOptString(s).value.1);
    }
  }

  /** `jwt.encode(claims, key, algorithm)`. */
  function Encode(c: Claims, key: string, algorithm: string): string {
    Field(algorithm) + Field(EncodeClaims(c)) + Field(key)
  }

  /** `jwt.decode(token, key, algorithms=[algorithm])`; `None` stands for every decode failure. */
  function Decode(token: string, key: string, algorithm: string): Option<Claims> {
    match ParseField(token)
    case None => None
    case Some((header, r1)) =>
      match ParseField(r1)
      case None => None
      case Some((body, r2)) =>
        match ParseField(r2)
        case None => None
        case Some((signature, r3)) =>
          if r3 != [] || header != algorithm || signature != key then None
          else DecodeClaims(body)
  }

  /** The signing library's contract: a decode succeeds exactly on the tokens signed with that key and algorithm. */
  lemma {:induction false} DecodeIff(token: string, key: string, algorithm: string, c: Claims)
    ensures Decode(token, key, algorithm) == Some(c) <==> token == Encode(c, key, algorithm)
  {
    if token == Encode(c, key, algorithm) {
      var body := EncodeClaims(c);
      assert token == Field(algorithm) + (Field(body) + Field(key));
      ParseFieldOfField(algorithm, Field(body) + Field(key));
      ParseFieldOfField(body, Field(key));
      assert Field(key) + [] == Field(key);
      ParseFieldOfField(key, []);
      DecodeClaimsIff(body, c);
    }
    if Decode(token, key, algorithm) == Some(c) {
      var (header, r1) := ParseField(token).value;
      var (body, r2) := ParseField(r1).value;
      var (signature, r3) := ParseField(r2).value;
      FieldOfParseField(token);
      FieldOfParseField(r1);
      FieldOfParseField(r2);
      assert r3 == [] && header == algorithm && signature == key;
      DecodeClaimsIff(body, c);
      assert token == Field(header) + (Field(body) + (Field(signature) + r3));
    }
  }

  /** Decoding a token with the key and algorithm that signed it gives back its claims. */
  lemma DecodeEncode(c: Claims, key: string, algorithm: string)
    ensures Decode(Encode(c, key, algorithm), key, algorithm) == Some(c)
  {
    DecodeIff(Encode(c, key, algorithm), key, algorithm, c);
  }

  /** A token signed with one key or algorithm does not decode under another. */
  lemma ForeignTokenFails(c: Claims, key: string, algorithm: string, key': string, algorithm': string)
    requires key != key' || algorithm != algorithm'
    ensures Decode(Encode(c, key, algorithm), key', algorithm') == None
  {
    var body := EncodeClaims(c);
    var token := Encode(c, key, algorithm);
    assert token == Field(algorithm) + (Field(body) + Field(key));
    ParseFieldOfField(algorithm, Field(body) + Field(key));
    ParseFieldOfField(body, Field(key));
    assert Field(key) + [] == Field(key);
    ParseFieldOfField(key, []);
  }
}
