/** CSRF tokens (`src/web/security.rs`): `v1.<expiry>.<nonce>.<signature>`. */
module Csrf {
  import opened Options
  import opened Text
  import opened Base64Url

  const TTL: int := 24 * 60 * 60 * 1000

  /** HMAC-SHA256 (RFC 2104) of a UTF-8 text under a key; any function will do. */
  type Mac = (seq<Byte>, string) -> seq<Byte>

  function Payload(expiry: string, nonce: string): string {
    "v1." + expiry + "." + nonce
  }

  /** The token for a given clock reading and given random bytes. */
  function Token(mac: Mac, key: seq<Byte>, now: int, nonce: seq<Byte>): string {
    var payload := Payload(PrintInt(now + TTL), Encode(nonce));
    payload + "." + Encode(mac(key, payload))
  }

  function VerifySignature(mac: Mac, key: seq<Byte>, payload: string, sig: string): bool {
    Decode(sig) == Some(mac(key, payload))
  }

  /** `verify_csrf_token`. */
  function Verify(mac: Mac, key: seq<Byte>, token: string, now: int): bool {
    var parts := Split(token, '.');
    if |parts| != 4 || parts[0] != "v1" then false
    else
      match ParseI64(parts[1])
      case None => false
      case Some(expiry) =>
        if expiry <= now then false
        else if parts[2] == [] || parts[3] == [] then false
        else VerifySignature(mac, key, Payload(parts[1], parts[2]), parts[3])
  }

  /** `validate_csrf_pair`. */
  function ValidatePair(mac: Mac, key: seq<Byte>, cookie: Option<string>, form: Option<string>, now: int): bool {
    match (cookie, form)
    case (Some(c), Some(f)) => Verify(mac, key, c, now) && Verify(mac, key, f, now) && c == f
    case _ => false
  }

  // ---------------------------------------------------------------- properties

  function Assembled(mac: Mac, key: seq<Byte>, expiry: string, nonce: string): string {
    Payload(expiry, nonce) + "." + Encode(mac(key, Payload(expiry, nonce)))
  }

  lemma EncodedHasNoDot(b: seq<Byte>)
    ensures '.' !in Encode(b) && ';' !in Encode(b) && '=' !in Encode(b)
    ensures forall c :: c in Encode(b) ==> !IsSpace(c) && 33 <= c as int < 127
  {
    EncodeAlphabet(b);
  }

  lemma {:induction false} PrintedInt(n: int)
    ensures '.' !in PrintInt(n) && ';' !in PrintInt(n)
    ensures forall c :: c in PrintInt(n) ==> c == '-' || IsDigit(c)
  {
    assert forall c :: c in PrintInt(n) ==> c == '-' || IsDigit(c);
  }

  lemma FourJoined(a: string, b: string, c: string, d: string)
    ensures Join([a, b, c, d], '.') == a + "." + b + "." + c + "." + d
  {
    assert [a, b, c, d][1..] == [b, c, d];
    assert [b, c, d][1..] == [c, d];
    assert [c, d][1..] == [d];
    assert Join([d], '.') == d;
    assert Join([c, d], '.') == c + "." + d;
    assert Join([b, c, d], '.') == b + "." + (c + "." + d);
    assert Join([a, b, c, d], '.') == a + "." + (b + "." + (c + "." + d));
  }

  /** An assembled token splits into exactly the four parts it was printed from. */
  lemma AssembledParts(mac: Mac, key: seq<Byte>, expiry: string, nonce: string)
    requires '.' !in expiry && '.' !in nonce
    ensures Split(Assembled(mac, key, expiry, nonce), '.')
            == ["v1", expiry, nonce, Encode(mac(key, Payload(expiry, nonce)))]
  {
    hide Split, Encode;
    var sig := Encode(mac(key, Payload(expiry, nonce)));
    EncodedHasNoDot(mac(key, Payload(expiry, nonce)));
    var parts := ["v1", expiry, nonce, sig];
    SplitJoin(parts, '.');
    FourJoined("v1", expiry, nonce, sig);
    assert "v1" + "." + expiry + "." + nonce + "." + sig == Assembled(mac, key, expiry, nonce);
  }

  /** A minted token verifies at `now` exactly while less than 24 hours have passed. */
  lemma MintedVerifies(mac: Mac, key: seq<Byte>, mint: int, nonce: seq<Byte>, now: int)
    requires I64_MIN <= mint && mint + 86_400_000 <= I64_MAX
    requires |nonce| == 32
    requires forall text :: |mac(key, text)| == 32
    ensures Verify(mac, key, Token(mac, key, mint, nonce), now) <==> now < mint + 86_400_000
  {
    hide Split, Encode, Decode, PrintInt, ParseI64;
    var e, n := PrintInt(mint + TTL), Encode(nonce);
    PrintedInt(mint + TTL);
    EncodedHasNoDot(nonce);
    AssembledParts(mac, key, e, n);
    ParsePrinted(mint + TTL);
    EncodeAlphabet(nonce);
    EncodeAlphabet(mac(key, Payload(e, n)));
    DecodeEncode(mac(key, Payload(e, n)));
  }

  /** `token` is what signing some unexpired expiry text and nonce text produces. */
  ghost predicate Genuine(mac: Mac, key: seq<Byte>, token: string, now: int) {
    exists expiry: string, nonce: string ::
      && '.' !in expiry && '.' !in nonce && nonce != []
      && ParseI64(expiry).Some? && ParseI64(expiry).value > now
      && token == Assembled(mac, key, expiry, nonce)
  }

  /** Verification accepts nothing but genuine tokens: each payload has exactly one accepted token. */
  lemma VerifyIsGenuine(mac: Mac, key: seq<Byte>, token: string, now: int)
    requires forall text :: |mac(key, text)| == 32
    ensures Verify(mac, key, token, now) <==> Genuine(mac, key, token, now)
  {
    hide Encode, Decode, ParseI64, Split;
    var parts := Split(token, '.');
    JoinSplit(token, '.');
    if Verify(mac, key, token, now) {
      EncodeDecode(parts[3]);
      FourJoined(parts[0], parts[1], parts[2], parts[3]);
      assert parts == [parts[0], parts[1], parts[2], parts[3]];
      assert token == Assembled(mac, key, parts[1], parts[2]);
    }
    if Genuine(mac, key, token, now) {
      var expiry: string, nonce: string :|
        && '.' !in expiry && '.' !in nonce && nonce != []
        && ParseI64(expiry).Some? && ParseI64(expiry).value > now
        && token == Assembled(mac, key, expiry, nonce);
      AssembledParts(mac, key, expiry, nonce);
      var sig := mac(key, Payload(expiry, nonce));
      DecodeEncode(sig);
      EncodeAlphabet(sig);
    }
  }

  /** The pair check holds exactly when both sides are present, equal and verified. */
  lemma PairIsEqualAndValid(mac: Mac, key: seq<Byte>, cookie: Option<string>, form: Option<string>, now: int)
    requires forall text :: |mac(key, text)| == 32
    ensures ValidatePair(mac, key, cookie, form, now)
            <==> cookie.Some? && cookie == form && Genuine(mac, key, cookie.value, now)
  {
    if cookie.Some? {
      VerifyIsGenuine(mac, key, cookie.value, now);
    }
    if form.Some? {
      VerifyIsGenuine(mac, key, form.value, now);
    }
  }

  /** Characters of a minted token: none that a cookie would split or strip at. */
  lemma TokenCharacters(mac: Mac, key: seq<Byte>, mint: int, nonce: seq<Byte>)
    ensures var t := Token(mac, key, mint, nonce);
            && ';' !in t && (forall c :: c in t ==> 33 <= c as int < 127 && !IsSpace(c)) && Trimmed(t) && t != []
  {
    hide Encode, PrintInt;
    var e, n := PrintInt(mint + TTL), Encode(nonce);
    PrintedInt(mint + TTL);
    EncodedHasNoDot(nonce);
    EncodedHasNoDot(mac(key, Payload(e, n)));
    var t := Token(mac, key, mint, nonce);
    assert t[0] in t && t[|t| - 1] in t;
  }

  // ---------------------------------------------------------------- minting

  /**
    `generate_csrf_token`: fill a 32-byte buffer from the random source, then
    print and sign. The token has exactly the four parts it should, fits a cookie
    and a form as it stands, and is accepted from both, alone or as a pair, until
    24 hours have passed and not after.
   */
  method GenerateToken(mac: Mac, key: seq<Byte>, now: int, random: seq<Byte>) returns (token: string)
    requires |random| == 32
    ensures token == Token(mac, key, now, random)
    ensures var expiry, nonce := PrintInt(now + 86_400_000), Encode(random);
            Split(token, '.') == ["v1", expiry, nonce, Encode(mac(key, Payload(expiry, nonce)))]
    ensures ';' !in token && Trimmed(token) && forall c :: c in token ==> 33 <= c as int < 127
    ensures I64_MIN <= now && now + 86_400_000 <= I64_MAX && (forall text :: |mac(key, text)| == 32) ==>
              forall t :: (Verify(mac, key, token, t) <==> t < now + 86_400_000)
                          && (ValidatePair(mac, key, Some(token), Some(token), t) <==> t < now + 86_400_000)
  {
    hide Split, Encode, PrintInt, Verify;
    var nonce := new Byte[32];
    for i := 0 to 32
      invariant nonce[..i] == random[..i]
    {
      nonce[i] := random[i];
    }
    assert nonce[..] == nonce[..32] && random[..32] == random;
    var payload := Payload(PrintInt(now + TTL), Encode(nonce[..]));
    token := payload + "." + Encode(mac(key, payload));
    PrintedInt(now + TTL);
    EncodedHasNoDot(random);
    AssembledParts(mac, key, PrintInt(now + TTL), Encode(random));
    TokenCharacters(mac, key, now, random);
    if I64_MIN <= now && now + TTL <= I64_MAX && forall text :: |mac(key, text)| == 32 {
      forall t
        ensures Verify(mac, key, token, t) <==> t < now + 86_400_000
      {
        MintedVerifies(mac, key, now, random, t);
      }
    }
  }
}
