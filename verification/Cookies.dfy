/** Cookie headers (`src/web/security.rs`) and what a CSRF token goes through inside them. */
module Cookies {
  import opened Options
  import opened Text
  import opened Sequences
  import opened Base64Url
  import opened Csrf

  const COOKIE_NAME: string := "csrf_token"

  /** `str::split_once`. */
  function SplitOnce(s: string, c: char): Option<(string, string)> {
    if s == [] then None
    else if s[0] == c then Some(([], s[1..]))
    else
      match SplitOnce(s[1..], c)
      case None => None
      case Some((a, b)) => Some(([s[0]] + a, b))
  }

  /** Name and value of one `;`-separated part. */
  function CookieOf(part: string): Option<(string, string)> {
    match SplitOnce(Trim(part), '=')
    case None => None
    case Some((k, v)) => Some((Trim(k), Trim(v)))
  }

  /** The value of the first part named `name`. */
  function FindCookie(parts: seq<string>, name: string): Option<string> {
    if parts == [] then None
    else
      match CookieOf(parts[0])
      case Some((k, v)) => if k == name then Some(v) else FindCookie(parts[1..], name)
      case None => FindCookie(parts[1..], name)
  }

  /** `HeaderValue::to_str`: only visible ASCII and tabs. */
  predicate VisibleAscii(s: string) {
    forall i :: 0 <= i < |s| ==> s[i] == '\t' || 32 <= s[i] as int < 127
  }

  /** The token the `Cookie` header carries, as a value. */
  function Extracted(header: Option<string>, name: string): Option<string> {
    if header == None || !VisibleAscii(header.value) then None
    else FindCookie(Split(header.value, ';'), name)
  }

  /** `extract_cookie_token`: scan the parts and return at the first match. */
  method ExtractCookieToken(header: Option<string>, name: string) returns (token: Option<string>)
    ensures token == Extracted(header, name)
    ensures header == None || !VisibleAscii(header.value) ==> token == None
  {
    if header == None || !VisibleAscii(header.value) {
      return None;
    }
    var parts := Split(header.value, ';');
    for i := 0 to |parts|
      invariant FindCookie(parts, name) == FindCookie(parts[i..], name)
    {
      assert parts[i..][1..] == parts[i + 1..];
      match CookieOf(parts[i])
      case Some((k, v)) =>
        if k == name {
          return Some(v);
        }
      case None =>
    }
    return None;
  }

  /** What a user agent keeps of a `Set-Cookie` value (section 5.2 of RFC 6265). */
  function StoredPair(setCookie: string): Option<(string, string)> {
    CookieOf(Split(setCookie, ';')[0])
  }

  const ATTRIBUTES: string := " Path=/; HttpOnly; SameSite=Strict; Max-Age=86400"

  lemma NameTrimmed()
    ensures Trimmed(COOKIE_NAME) && '=' !in COOKIE_NAME && ';' !in COOKIE_NAME
  {
  }

  lemma {:induction false} SplitOnceAt(k: string, v: string)
    requires '=' !in k
    ensures SplitOnce(k + "=" + v, '=') == Some((k, v))
  {
    var s := k + "=" + v;
    if k == [] {
      assert s[1..] == v;
    } else {
      SplitOnceAt(k[1..], v);
      assert s[1..] == k[1..] + "=" + v;
      assert k[0] in k;
      assert [k[0]] + k[1..] == k;
    }
  }

  lemma TrimLead(s: string)
    requires Trimmed(s)
    ensures Trim(" " + s) == s
  {
    assert (" " + s)[1..] == s;
    assert IsSpace(' ');
    assert TrimStart(" " + s) == TrimStart(s);
    TrimIdentity(s);
    TrimStartShape(s);
    assert TrimStart(s) == s;
  }

  lemma PartReadBack(lead: string, k: string, v: string)
    requires lead == "" || lead == " "
    requires Trimmed(k) && Trimmed(v) && '=' !in k
    ensures CookieOf(lead + k + "=" + v) == Some((k, v))
  {
    hide TrimStart, TrimEnd, Trim;
    var s := k + "=" + v;
    assert !IsSpace('=');
    assert s[0] == (if k == [] then '=' else k[0]) && s[|s| - 1] == (if v == [] then '=' else v[|v| - 1]);
    TrimIdentity(s);
    TrimLead(s);
    assert lead + k + "=" + v == lead + s;
    assert "" + s == s;
    SplitOnceAt(k, v);
    TrimIdentity(k);
    TrimIdentity(v);
  }

  lemma TrimsRest(s: string, inner: string, i: nat)
    requires TrimsTo(s, inner) && i <= |s| && forall x :: 0 <= x < i ==> IsSpace(s[x])
    ensures TrimsTo(s[i..], inner)
  {
    var a, b :| Bounds(s, a, b) && s[a..b] == inner && Trimmed(inner);
    var rest := s[i..];
    if inner == [] {
      assert Blank(s) by {
        TrimMeaning(s, inner);
        BlankMeaning(s);
      }
      assert Bounds(rest, 0, 0) && rest[0..0] == inner;
    } else {
      assert s[a] == inner[0];
      assert i <= a;
      assert rest[a - i..b - i] == inner;
      assert Bounds(rest, a - i, b - i);
    }
  }

  lemma TrimsFront(s: string, inner: string, j: nat)
    requires TrimsTo(s, inner) && j <= |s| && forall x :: j <= x < |s| ==> IsSpace(s[x])
    ensures TrimsTo(s[..j], inner)
  {
    var a, b :| Bounds(s, a, b) && s[a..b] == inner && Trimmed(inner);
    var front := s[..j];
    if inner == [] {
      assert Blank(s) by {
        TrimMeaning(s, inner);
        BlankMeaning(s);
      }
      assert Bounds(front, 0, 0) && front[0..0] == inner;
    } else {
      assert s[b - 1] == inner[b - a - 1];
      assert b <= j;
      assert front[a..b] == inner;
      assert Bounds(front, a, b);
    }
  }

  /** Name and value are the two sides of the first `=`, each without the whitespace around it. */
  lemma CookieMeaning(left: string, right: string, k: string, v: string)
    requires '=' !in left && TrimsTo(left, k) && TrimsTo(right, v)
    ensures CookieOf(left + "=" + right) == Some((k, v))
  {
    var s, p := left + "=" + right, |left|;
    assert s[p] == '=' && !IsSpace('=');
    var i, j := TrimBounds(s);
    assert i <= p < j;
    var m := j - p - 1;
    assert s[i..j] == left[i..] + "=" + right[..m];
    assert forall x :: 0 <= x < i ==> left[x] == s[x];
    assert forall x :: m <= x < |right| ==> right[x] == s[p + 1 + x];
    TrimsRest(left, k, i);
    TrimsFront(right, v, m);
    TrimMeaning(left[i..], k);
    TrimMeaning(right[..m], v);
    hide Trim, TrimsTo, Bounds;
    SplitOnceAt(left[i..], right[..m]);
  }

  lemma {:induction false} NoSplit(s: string)
    requires '=' !in s
    ensures SplitOnce(s, '=') == None
  {
    if s != [] {
      NoSplit(s[1..]);
    }
  }

  /** Without `=` it is no cookie. */
  lemma NoCookie(part: string)
    requires '=' !in part
    ensures CookieOf(part) == None
  {
    var i, j := TrimBounds(part);
    NoSplit(part[i..j]);
  }

  lemma StoredBack(token: string, rest: string)
    requires ';' !in token && Trimmed(token)
    ensures StoredPair(COOKIE_NAME + "=" + token + ([';'] + rest)) == Some((COOKIE_NAME, token))
  {
    hide CookieOf, Trimmed;
    var part := COOKIE_NAME + "=" + token;
    SplitAtSeparator(part, rest, ';');
    assert "" + COOKIE_NAME + "=" + token == part;
    assert Trimmed(COOKIE_NAME) by {
      NameTrimmed();
    }
    PartReadBack("", COOKIE_NAME, token);
  }

  /** `csrf_set_cookie_value`: the stored pair is the token, and `Secure` is appended on request. */
  method SetCookieValue(token: string, secure: bool) returns (s: string)
    ensures ';' !in token && Trimmed(token) ==> StoredPair(s) == Some((COOKIE_NAME, token))
    ensures s == COOKIE_NAME + "=" + token + ([';'] + ATTRIBUTES) + (if secure then "; Secure" else "")
  {
    s := COOKIE_NAME + "=" + token + ([';'] + ATTRIBUTES);
    if secure {
      s := s + "; Secure";
    }
    assert s == COOKIE_NAME + "=" + token + ([';'] + ATTRIBUTES) + (if secure then "; Secure" else "");
    if ';' !in token && Trimmed(token) {
      StoredBack(token, ATTRIBUTES + if secure then "; Secure" else "");
      assert s == COOKIE_NAME + "=" + token + ([';'] + (ATTRIBUTES + if secure then "; Secure" else ""));
    }
  }

  // ---------------------------------------------------------------- rendered headers

  /** A pair that the cookie grammar can carry: nothing to trim and nothing that splits it. */
  predicate PlainPair(p: (string, string)) {
    Trimmed(p.0) && Trimmed(p.1) && ';' !in p.0 && ';' !in p.1 && '=' !in p.0
  }

  /** `cookie-string` of section 4.2.1 of RFC 6265. */
  function RenderCookies(pairs: seq<(string, string)>): string
    requires pairs != []
  {
    var first := pairs[0].0 + "=" + pairs[0].1;
    if |pairs| == 1 then first else first + ([';'] + (" " + RenderCookies(pairs[1..])))
  }

  function FirstNamed(pairs: seq<(string, string)>, name: string): Option<string> {
    if pairs == [] then None
    else if pairs[0].0 == name then Some(pairs[0].1)
    else FirstNamed(pairs[1..], name)
  }

  function PairText(lead: string, p: (string, string)): string {
    lead + p.0 + "=" + p.1
  }

  lemma RenderedHead(lead: string, pairs: seq<(string, string)>)
    requires pairs != []
    ensures lead + RenderCookies(pairs)
            == if |pairs| == 1 then PairText(lead, pairs[0])
               else PairText(lead, pairs[0]) + ([';'] + (" " + RenderCookies(pairs[1..])))
  {
    var first := pairs[0].0 + "=" + pairs[0].1;
    Associate(lead, pairs[0].0 + "=", pairs[0].1);
    Associate(lead, pairs[0].0, "=");
    if |pairs| > 1 {
      Associate(lead, first, [';'] + (" " + RenderCookies(pairs[1..])));
    }
  }

  lemma FindStep(part: string, rest: seq<string>, p: (string, string), name: string)
    requires CookieOf(part) == Some(p)
    ensures FindCookie([part] + rest, name) == if p.0 == name then Some(p.1) else FindCookie(rest, name)
  {
    hide CookieOf;
    assert ([part] + rest)[1..] == rest;
  }

  lemma PairTextPlain(lead: string, p: (string, string))
    requires (lead == "" || lead == " ") && PlainPair(p)
    ensures ';' !in PairText(lead, p) && CookieOf(PairText(lead, p)) == Some(p)
  {
    hide CookieOf, Trimmed;
    PartReadBack(lead, p.0, p.1);
  }

  lemma FirstNamedStep(pairs: seq<(string, string)>, name: string)
    requires pairs != []
    ensures FirstNamed(pairs, name)
            == if pairs[0].0 == name then Some(pairs[0].1) else FirstNamed(pairs[1..], name)
  {
  }

  lemma FindNone(name: string)
    ensures FindCookie([], name) == None
  {
  }

  /** Splitting and scanning a rendered header finds the first pair of that name. */
  lemma {:induction false} FindRendered(lead: string, pairs: seq<(string, string)>, name: string)
    requires lead == "" || lead == " "
    requires pairs != [] && forall i :: 0 <= i < |pairs| ==> PlainPair(pairs[i])
    ensures FindCookie(Split(lead + RenderCookies(pairs), ';'), name) == FirstNamed(pairs, name)
    decreases pairs
  {
    var part := PairText(lead, pairs[0]);
    PairTextPlain(lead, pairs[0]);
    RenderedHead(lead, pairs);
    FirstNamedStep(pairs, name);
    hide CookieOf, PlainPair, PairText, FindCookie, Split, RenderCookies, FirstNamed;
    if |pairs| == 1 {
      SplitAtSeparator(part, [], ';');
      FindStep(part, [], pairs[0], name);
      assert [part] + [] == [part];
      FindNone(name);
    } else {
      var tail := " " + RenderCookies(pairs[1..]);
      SplitAtSeparator(part, tail, ';');
      FindStep(part, Split(tail, ';'), pairs[0], name);
      FindRendered(" ", pairs[1..], name);
    }
  }

  /** A visible rendered header gives back the first pair of the asked name, or nothing. */
  lemma HeaderReadBack(pairs: seq<(string, string)>, name: string)
    requires pairs != [] && forall i :: 0 <= i < |pairs| ==> PlainPair(pairs[i])
    requires VisibleAscii(RenderCookies(pairs))
    ensures Extracted(Some(RenderCookies(pairs)), name) == FirstNamed(pairs, name)
  {
    FindRendered("", pairs, name);
    assert "" + RenderCookies(pairs) == RenderCookies(pairs);
  }

  lemma {:induction false} FirstNamedAt(pairs: seq<(string, string)>, i: nat, name: string)
    requires i < |pairs| && pairs[i].0 == name
    requires forall j :: 0 <= j < i ==> pairs[j].0 != name
    ensures FirstNamed(pairs, name) == Some(pairs[i].1)
  {
    if i > 0 {
      FirstNamedAt(pairs[1..], i - 1, name);
    }
  }

  /**
    The whole trip: a token minted at `mint` and sent back at position `i` of a
    Cookie header, after cookies of other names, with the form echoing it, is
    accepted at `now` exactly while less than 24 hours have passed.
   */
  lemma DoubleSubmitTrip(mac: Mac, key: seq<Byte>, mint: int, nonce: seq<Byte>,
                         pairs: seq<(string, string)>, i: nat, now: int)
    requires I64_MIN <= mint && mint + 86_400_000 <= I64_MAX && |nonce| == 32
    requires forall text :: |mac(key, text)| == 32
    requires i < |pairs| && pairs[i] == (COOKIE_NAME, Token(mac, key, mint, nonce))
    requires forall j :: 0 <= j < i ==> pairs[j].0 != COOKIE_NAME
    requires forall j :: 0 <= j < |pairs| && j != i ==> PlainPair(pairs[j])
    requires VisibleAscii(RenderCookies(pairs))
    ensures Extracted(Some(RenderCookies(pairs)), COOKIE_NAME) == Some(Token(mac, key, mint, nonce))
    ensures var form := Some(Token(mac, key, mint, nonce));
            var cookie := Extracted(Some(RenderCookies(pairs)), COOKIE_NAME);
            ValidatePair(mac, key, cookie, form, now) <==> now < mint + 86_400_000
  {
    hide Token, Verify, Extracted, FirstNamed, VisibleAscii, RenderCookies;
    TokenCharacters(mac, key, mint, nonce);
    assert PlainPair(pairs[i]);
    HeaderReadBack(pairs, COOKIE_NAME);
    FirstNamedAt(pairs, i, COOKIE_NAME);
    MintedVerifies(mac, key, mint, nonce, now);
  }
}
