/** Unpadded base64url (section 5 of RFC 4648), as `URL_SAFE_NO_PAD` encodes and decodes it. */
module Base64Url {
  import opened Options

  type Byte = b: int | 0 <= b < 256

  function CharOf(v: int): (c: char)
    requires 0 <= v < 64
  {
    if v < 26 then (v + 65) as char
    else if v < 52 then (v + 71) as char
    else if v < 62 then (v - 4) as char
    else if v == 62 then '-'
    else '_'
  }

  function ValOf(c: char): (v: Option<int>)
    ensures v.Some? ==> 0 <= v.value < 64 && CharOf(v.value) == c
  {
    if 'A' <= c <= 'Z' then Some(c as int - 65)
    else if 'a' <= c <= 'z' then Some(c as int - 71)
    else if '0' <= c <= '9' then Some(c as int + 4)
    else if c == '-' then Some(62)
    else if c == '_' then Some(63)
    else None
  }

  datatype Sextets = Sextets(v0: int, v1: int, v2: int, v3: int) {
    predicate Valid() {
      0 <= v0 < 64 && 0 <= v1 < 64 && 0 <= v2 < 64 && 0 <= v3 < 64
    }
  }

  datatype Triple = Triple(b0: Byte, b1: Byte, b2: Byte)

  /** Three bytes as four sextets. */
  function Cut(t: Triple): (x: Sextets)
    ensures x.Valid()
  {
    Sextets(t.b0 / 4, t.b0 % 4 * 16 + t.b1 / 16, t.b1 % 16 * 4 + t.b2 / 64, t.b2 % 64)
  }

  function Paste(x: Sextets): Triple
    requires x.Valid()
  {
    Triple(x.v0 * 4 + x.v1 / 16, x.v1 % 16 * 16 + x.v2 / 4, x.v2 % 4 * 64 + x.v3)
  }

  lemma PasteCut(t: Triple)
    ensures Paste(Cut(t)) == t
    ensures t.b1 == 0 && t.b2 == 0 ==> Cut(t).v2 == 0 && Cut(t).v3 == 0
    ensures t.b2 == 0 ==> Cut(t).v3 == 0
  {
    var x := Cut(t);
    assert x.v1 / 16 == t.b0 % 4 && x.v1 % 16 == t.b1 / 16;
    assert x.v2 / 4 == t.b1 % 16 && x.v2 % 4 == t.b2 / 64;
  }

  lemma CutPaste(x: Sextets)
    requires x.Valid()
    ensures Cut(Paste(x)) == x
    ensures x.v2 == 0 && x.v3 == 0 ==> Paste(x).b2 == 0
  {
    var t := Paste(x);
    assert t.b0 / 4 == x.v0 && t.b0 % 4 == x.v1 / 16;
    assert t.b1 / 16 == x.v1 % 16 && t.b1 % 16 == x.v2 / 4;
    assert t.b2 / 64 == x.v2 % 4 && t.b2 % 64 == x.v3;
  }

  function Encode(b: seq<Byte>): string {
    if b == [] then []
    else
      var x := Cut(Triple(b[0], if |b| > 1 then b[1] else 0, if |b| > 2 then b[2] else 0));
      if |b| == 1 then [CharOf(x.v0), CharOf(x.v1)]
      else if |b| == 2 then [CharOf(x.v0), CharOf(x.v1), CharOf(x.v2)]
      else [CharOf(x.v0), CharOf(x.v1), CharOf(x.v2), CharOf(x.v3)] + Encode(b[3..])
  }

  /** The first group of `s`, missing characters read as zero bits. */
  function Group(s: string): (x: Option<Sextets>)
    requires |s| >= 2
    ensures x.Some? ==> x.value.Valid()
  {
    match (ValOf(s[0]), ValOf(s[1]), if |s| > 2 then ValOf(s[2]) else Some(0), if |s| > 3 then ValOf(s[3]) else Some(0))
    case (Some(v0), Some(v1), Some(v2), Some(v3)) => Some(Sextets(v0, v1, v2, v3))
    case _ => None
  }

  /** Left-over bits of a short last group must be zero, and one lone character is no group. */
  function Decode(s: string): Option<seq<Byte>> {
    if s == [] then Some([])
    else if |s| == 1 then None
    else
      match Group(s)
      case None => None
      case Some(x) =>
        var t := Paste(x);
        if |s| == 2 then (if t.b1 == 0 then Some([t.b0]) else None)
        else if |s| == 3 then (if t.b2 == 0 then Some([t.b0, t.b1]) else None)
        else
          match Decode(s[4..])
          case None => None
          case Some(rest) => Some([t.b0, t.b1, t.b2] + rest)
  }

  lemma CharVal(v: int)
    requires 0 <= v < 64
    ensures ValOf(CharOf(v)) == Some(v)
  {
  }

  lemma GroupChars(s: string)
    requires |s| >= 2 && Group(s).Some?
    ensures var x := Group(s).value;
            && s[0] == CharOf(x.v0) && s[1] == CharOf(x.v1)
            && (if |s| > 2 then s[2] == CharOf(x.v2) else x.v2 == 0)
            && (if |s| > 3 then s[3] == CharOf(x.v3) else x.v3 == 0)
  {
    hide CharOf;
  }

  lemma CharsGroup(s: string, x: Sextets)
    requires |s| >= 2 && x.Valid() && s[0] == CharOf(x.v0) && s[1] == CharOf(x.v1)
    requires if |s| > 2 then s[2] == CharOf(x.v2) else x.v2 == 0
    requires if |s| > 3 then s[3] == CharOf(x.v3) else x.v3 == 0
    ensures Group(s) == Some(x)
  {
    hide CharOf, ValOf;
    CharVal(x.v0);
    CharVal(x.v1);
    CharVal(x.v2);
    CharVal(x.v3);
  }

  lemma {:induction false} DecodeEncode(b: seq<Byte>)
    ensures Decode(Encode(b)) == Some(b)
  {
    if b != [] {
      hide CharOf, ValOf, Cut, Paste, Group;
      var t := Triple(b[0], if |b| > 1 then b[1] else 0, if |b| > 2 then b[2] else 0);
      PasteCut(t);
      var s := Encode(b);
      CharsGroup(s, Cut(t));
      if |b| <= 2 {
        assert b == if |b| == 1 then [b[0]] else [b[0], b[1]];
      } else {
        DecodeEncode(b[3..]);
        assert s[4..] == Encode(b[3..]);
        assert [b[0], b[1], b[2]] + b[3..] == b;
      }
    }
  }

  lemma EncodeShort(t: Triple, n: int)
    requires n == 1 || n == 2
    requires t.b2 == 0 && (n == 1 ==> t.b1 == 0)
    ensures Encode([t.b0, t.b1][..n]) == [CharOf(Cut(t).v0), CharOf(Cut(t).v1), CharOf(Cut(t).v2)][..n + 1]
  {
    hide CharOf, Cut;
    var b := [t.b0, t.b1][..n];
    assert Triple(b[0], if |b| > 1 then b[1] else 0, 0) == t;
  }

  lemma EncodeLong(t: Triple, rest: seq<Byte>)
    ensures Encode([t.b0, t.b1, t.b2] + rest)
            == [CharOf(Cut(t).v0), CharOf(Cut(t).v1), CharOf(Cut(t).v2), CharOf(Cut(t).v3)] + Encode(rest)
  {
    hide CharOf, Cut;
    var b := [t.b0, t.b1, t.b2] + rest;
    assert b[3..] == rest;
  }

  lemma EncodeGlued(s: string, x: Sextets, rest: seq<Byte>)
    requires |s| >= 4 && x.Valid()
    requires s[0] == CharOf(x.v0) && s[1] == CharOf(x.v1) && s[2] == CharOf(x.v2) && s[3] == CharOf(x.v3)
    requires Encode(rest) == s[4..]
    ensures var t := Paste(x); Encode([t.b0, t.b1, t.b2] + rest) == s
  {
    CutPaste(x);
    hide Encode, CharOf, Cut, Paste;
    EncodeLong(Paste(x), rest);
    assert s[..4] == [s[0], s[1], s[2], s[3]];
    assert s == s[..4] + s[4..];
  }

  /** Decoding is canonical: only the encoder's own output is accepted. */
  lemma {:induction false} EncodeDecode(s: string)
    ensures Decode(s).Some? ==> Encode(Decode(s).value) == s
  {
    if s != [] && Decode(s).Some? {
      var x := Group(s).value;
      var t := Paste(x);
      GroupChars(s);
      CutPaste(x);
      hide Encode, CharOf, Group, Cut, Paste;
      if |s| == 2 {
        EncodeShort(t, 1);
        assert Decode(s).value == [t.b0, t.b1][..1];
      } else if |s| == 3 {
        EncodeShort(t, 2);
        assert Decode(s).value == [t.b0, t.b1][..2];
      } else {
        EncodeDecode(s[4..]);
        EncodeGlued(s, x, Decode(s[4..]).value);
      }
    }
  }

  lemma {:induction false} EncodeAlphabet(b: seq<Byte>)
    ensures forall c :: c in Encode(b) ==> ValOf(c).Some?
    ensures b != [] ==> Encode(b) != []
  {
    if |b| > 2 {
      EncodeAlphabet(b[3..]);
    }
  }
}
