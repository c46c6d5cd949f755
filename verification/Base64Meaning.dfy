/** What unpadded base64url text means (sections 4 and 5 of RFC 4648), bit by bit. */
module Base64Meaning {
  import opened Base64Url

  const UPPER: string := "ABCDEFGHIJKLMNOPQRSTUVWXYZ"

  const LOWER: string := "abcdefghijklmnopqrstuvwxyz"

  const DIGITS: string := "0123456789"

  /** Table 2 of RFC 4648. */
  function Alphabet(v: int): char
    requires 0 <= v < 64
  {
    if v < 26 then UPPER[v] else if v < 52 then LOWER[v - 26] else if v < 62 then DIGITS[v - 52]
    else "-_"[v - 62]
  }

  lemma UpperCode(v: int)
    requires 0 <= v < 26
    ensures UPPER[v] == (v + 65) as char
  {
  }

  lemma LowerCode(v: int)
    requires 0 <= v < 26
    ensures LOWER[v] == (v + 97) as char
  {
  }

  lemma CharInAlphabet(v: int)
    requires 0 <= v < 64
    ensures CharOf(v) == Alphabet(v)
  {
    if v < 26 {
      UpperCode(v);
    } else if v < 52 {
      LowerCode(v - 26);
    }
  }

  /** Three bytes as one number of 24 bits, the first byte first. */
  function Bits(b0: Byte, b1: Byte, b2: Byte): nat {
    b0 * 65_536 + b1 * 256 + b2
  }

  lemma BitsFit(b0: Byte, b1: Byte, b2: Byte)
    ensures Bits(b0, b1, b2) / 262_144 < 64
  {
  }

  lemma TopBits(n: int, q: int, rest: int)
    requires n == q * 262_144 + rest && 0 <= rest < 262_144
    ensures n / 262_144 == q
  {
  }

  lemma UpperBits(n: int, q: int, v: int, rest: int)
    requires n == q * 262_144 + v * 4096 + rest && 0 <= v < 64 && 0 <= rest < 4096
    ensures n / 4096 % 64 == v
  {
    assert n / 4096 == q * 64 + v;
  }

  lemma LowerBits(n: int, q: int, v: int, rest: int)
    requires n == q * 4096 + v * 64 + rest && 0 <= v < 64 && 0 <= rest < 64
    ensures n / 64 % 64 == v
    ensures n % 64 == rest
  {
    assert n / 64 == q * 64 + v;
  }

  lemma Recombine(t: Triple)
    ensures var x, n := Cut(t), Bits(t.b0, t.b1, t.b2);
            n == x.v0 * 262_144 + x.v1 * 4096 + x.v2 * 64 + x.v3
  {
  }

  /** Four sextets are the same bits. */
  lemma CutMeaning(t: Triple)
    ensures var x, n := Cut(t), Bits(t.b0, t.b1, t.b2);
            x.v0 == n / 262_144 && x.v1 == n / 4096 % 64 && x.v2 == n / 64 % 64 && x.v3 == n % 64
  {
    Recombine(t);
    var x, n := Cut(t), Bits(t.b0, t.b1, t.b2);
    hide Cut, Bits;
    TopBits(n, x.v0, x.v1 * 4096 + x.v2 * 64 + x.v3);
    UpperBits(n, x.v0, x.v1, x.v2 * 64 + x.v3);
    LowerBits(n, x.v0 * 64 + x.v1, x.v2, x.v3);
  }

  function ByteAt(b: seq<Byte>, i: nat): Byte {
    if i < |b| then b[i] else 0
  }

  /** Up to three bytes from `3 * k` on, as characters from `4 * k` on, six bits each, the first bits first. */
  predicate IsGroup(s: string, b: seq<Byte>, k: nat) {
    var n := Bits(ByteAt(b, 3 * k), ByteAt(b, 3 * k + 1), ByteAt(b, 3 * k + 2));
    BitsFit(ByteAt(b, 3 * k), ByteAt(b, 3 * k + 1), ByteAt(b, 3 * k + 2));
    && 4 * k + 1 < |s| && s[4 * k] == Alphabet(n / 262_144) && s[4 * k + 1] == Alphabet(n / 4096 % 64)
    && (3 * k + 1 < |b| ==> 4 * k + 2 < |s| && s[4 * k + 2] == Alphabet(n / 64 % 64))
    && (3 * k + 2 < |b| ==> 4 * k + 3 < |s| && s[4 * k + 3] == Alphabet(n % 64))
  }

  lemma FirstGroup(b: seq<Byte>)
    requires b != []
    ensures IsGroup(Encode(b), b, 0)
    ensures if |b| < 3 then |Encode(b)| == |b| + 1 else |Encode(b)| >= 4 && Encode(b)[4..] == Encode(b[3..])
  {
    var t := Triple(b[0], ByteAt(b, 1), ByteAt(b, 2));
    CutMeaning(t);
    var x := Cut(t);
    CharInAlphabet(x.v0);
    CharInAlphabet(x.v1);
    CharInAlphabet(x.v2);
    CharInAlphabet(x.v3);
    hide CharOf, Cut, Bits, Alphabet;
  }

  lemma NextGroup(s: string, b: seq<Byte>, k: nat)
    requires |s| >= 4 && |b| >= 3 && IsGroup(s[4..], b[3..], k)
    ensures IsGroup(s, b, k + 1)
  {
    hide Bits, Alphabet;
    assert forall i: nat :: ByteAt(b[3..], i) == ByteAt(b, i + 3);
    assert 3 * (k + 1) == 3 * k + 3 && 4 * (k + 1) == 4 * k + 4;
  }

  lemma GroupOfRest(b: seq<Byte>, k: nat)
    requires |b| > 3 && IsGroup(Encode(b[3..]), b[3..], k)
    ensures IsGroup(Encode(b), b, k + 1)
  {
    FirstGroup(b);
    hide Encode, IsGroup;
    NextGroup(Encode(b), b, k);
  }

  /** Every three bytes are four characters, and one or two bytes at the end two or three. */
  lemma {:induction false} EncodedLength(b: seq<Byte>)
    ensures |Encode(b)| == |b| / 3 * 4 + (if |b| % 3 == 0 then 0 else |b| % 3 + 1)
  {
    hide CharOf, Cut;
    if |b| >= 3 {
      EncodedLength(b[3..]);
    }
  }

  /** Every group of bytes is written with its bits, in characters of the alphabet. */
  lemma {:induction false} EncodedGroups(b: seq<Byte>, k: nat)
    requires 3 * k < |b|
    ensures IsGroup(Encode(b), b, k)
  {
    hide Encode, IsGroup;
    if k == 0 {
      FirstGroup(b);
    } else {
      EncodedGroups(b[3..], k - 1);
      GroupOfRest(b, k - 1);
    }
  }
}
