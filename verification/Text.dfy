/**
  Strings as the Rust code sees them: sequences of Unicode scalar values, with
  the whitespace, ASCII-case, length, splitting and decimal operations that the
  rest of the model uses.
 */
module Text {
  import opened Options

  // ---------------------------------------------------------------- characters

  /** The Unicode `White_Space` property, which `str::trim` strips. */
  predicate IsSpace(c: char) {
    var n := c as int;
    || 9 <= n <= 13 || n == 32 || n == 0x85 || n == 0xA0 || n == 0x1680
    || 0x2000 <= n <= 0x200A || n == 0x2028 || n == 0x2029 || n == 0x202F
    || n == 0x205F || n == 0x3000
  }

  /** Unicode general category Cc, which `char::is_control` tests. */
  predicate IsControl(c: char) {
    var n := c as int;
    n <= 31 || 127 <= n <= 159
  }

  function LowerChar(c: char): char {
    if 'A' <= c <= 'Z' then ((c as int) + 32) as char else c
  }

  function Lower(s: string): (r: string)
    ensures |r| == |s|
    ensures forall i :: 0 <= i < |s| ==> r[i] == LowerChar(s[i])
  {
    if s == [] then [] else [LowerChar(s[0])] + Lower(s[1..])
  }

  /** Number of UTF-8 bytes of one character. */
  function CharBytes(c: char): nat {
    var n := c as int;
    if n < 0x80 then 1 else if n < 0x800 then 2 else if n < 0x10000 then 3 else 4
  }

  /** `str::len`: the UTF-8 byte length. */
  function ByteLen(s: string): (n: nat)
    ensures n >= |s|
  {
    if s == [] then 0 else CharBytes(s[0]) + ByteLen(s[1..])
  }

  lemma {:induction false} AsciiByteLen(s: string)
    requires forall i :: 0 <= i < |s| ==> s[i] as int < 0x80
    ensures ByteLen(s) == |s|
  {
    if s != [] {
      AsciiByteLen(s[1..]);
    }
  }

  // ---------------------------------------------------------------- trimming

  function TrimStart(s: string): string {
    if s != [] && IsSpace(s[0]) then TrimStart(s[1..]) else s
  }

  function TrimEnd(s: string): string {
    if s != [] && IsSpace(s[|s| - 1]) then TrimEnd(s[..|s| - 1]) else s
  }

  function Trim(s: string): string {
    TrimEnd(TrimStart(s))
  }

  /** No whitespace at either end. */
  predicate Trimmed(s: string) {
    s == [] || (!IsSpace(s[0]) && !IsSpace(s[|s| - 1]))
  }

  lemma {:induction false} TrimEndShape(s: string)
    ensures TrimEnd(s) <= s
    ensures TrimEnd(s) == [] || !IsSpace(TrimEnd(s)[|TrimEnd(s)| - 1])
  {
    if s != [] && IsSpace(s[|s| - 1]) {
      TrimEndShape(s[..|s| - 1]);
    }
  }

  lemma {:induction false} TrimStartShape(s: string)
    ensures TrimStart(s) == [] || !IsSpace(TrimStart(s)[0])
    ensures exists k :: 0 <= k <= |s| && TrimStart(s) == s[k..]
  {
    if s != [] && IsSpace(s[0]) {
      TrimStartShape(s[1..]);
      var k :| 0 <= k <= |s[1..]| && TrimStart(s[1..]) == s[1..][k..];
      assert s[1..][k..] == s[k + 1..];
    } else {
      assert s[0..] == s;
    }
  }

  /** Trimming leaves exactly the strings without outer whitespace alone. */
  lemma TrimIdentity(s: string)
    ensures Trim(s) == s <==> Trimmed(s)
    ensures Trimmed(Trim(s))
  {
    TrimStartShape(s);
    TrimEndShape(TrimStart(s));
    var t := TrimStart(s);
    if Trim(s) != [] {
      assert Trim(s)[0] == t[0];
    }
  }

  /** Everything before `i` and from `j` on is whitespace. */
  predicate Bounds(s: string, i: int, j: int) {
    && 0 <= i <= j <= |s|
    && (forall k :: 0 <= k < i ==> IsSpace(s[k]))
    && (forall k :: j <= k < |s| ==> IsSpace(s[k]))
  }

  /** `inner` is `s` without the whitespace around it. */
  ghost predicate TrimsTo(s: string, inner: string) {
    exists i, j :: Bounds(s, i, j) && s[i..j] == inner && Trimmed(inner)
  }

  lemma {:induction false} TrimStartBounds(s: string) returns (i: nat)
    ensures i <= |s| && TrimStart(s) == s[i..] && Bounds(s, i, |s|)
  {
    if s != [] && IsSpace(s[0]) {
      var k := TrimStartBounds(s[1..]);
      i := k + 1;
      assert s[1..][k..] == s[i..];
      assert forall x :: 1 <= x < i ==> s[x] == s[1..][x - 1];
    } else {
      i := 0;
      assert s[0..] == s;
    }
  }

  lemma {:induction false} TrimEndBounds(s: string) returns (j: nat)
    ensures j <= |s| && TrimEnd(s) == s[..j] && Bounds(s, 0, j)
  {
    j := |s|;
    if s != [] && IsSpace(s[|s| - 1]) {
      var shorter := s[..|s| - 1];
      j := TrimEndBounds(shorter);
      assert shorter[..j] == s[..j];
      assert forall x :: j <= x < |shorter| ==> s[x] == shorter[x];
    } else {
      assert s[..j] == s;
    }
  }

  lemma TrimBounds(s: string) returns (i: nat, j: nat)
    ensures Bounds(s, i, j) && Trim(s) == s[i..j] && Trimmed(Trim(s))
  {
    TrimIdentity(s);
    i := TrimStartBounds(s);
    var k := TrimEndBounds(s[i..]);
    j := i + k;
    assert s[i..][..k] == s[i..j];
    assert forall x :: j <= x < |s| ==> s[x] == s[i..][x - i];
  }

  /** What has no outer whitespace lies inside any bounds that cut whitespace only. */
  lemma Inside(s: string, i: nat, j: nat, a: nat, b: nat)
    requires Bounds(s, i, j) && i < j && Trimmed(s[i..j]) && Bounds(s, a, b)
    ensures a <= i && j <= b
  {
    assert s[i] == s[i..j][0] && s[j - 1] == s[i..j][j - i - 1];
  }

  /** Two ways to drop outer whitespace leave the same text. */
  lemma BoundsAgree(s: string, i: nat, j: nat, a: nat, b: nat)
    requires Bounds(s, i, j) && Trimmed(s[i..j]) && Bounds(s, a, b) && Trimmed(s[a..b])
    ensures s[i..j] == s[a..b]
  {
    hide Trimmed;
    if i < j {
      Inside(s, i, j, a, b);
    }
    if a < b {
      Inside(s, a, b, i, j);
    }
  }

  predicate Blank(s: string) {
    forall i :: 0 <= i < |s| ==> IsSpace(s[i])
  }

  lemma BlankMeaning(s: string)
    ensures Trim(s) == [] <==> Blank(s)
  {
    var i, j := TrimBounds(s);
    if Trim(s) != [] {
      assert Trim(s)[0] == s[i];
    }
  }

  /** Trimming drops the whitespace around a text and nothing else. */
  lemma TrimMeaning(s: string, inner: string)
    ensures Trim(s) == inner <==> TrimsTo(s, inner)
  {
    var i, j := TrimBounds(s);
    if a, b :| Bounds(s, a, b) && s[a..b] == inner && Trimmed(inner) {
      hide Bounds, Trimmed, Trim;
      BoundsAgree(s, i, j, a, b);
    }
  }

  // ---------------------------------------------------------------- splitting

  /** `str::split(sep)`: always at least one part. */
  function Split(s: string, sep: char): (parts: seq<string>)
    ensures |parts| >= 1
  {
    if s == [] then [[]]
    else
      var rest := Split(s[1..], sep);
      if s[0] == sep then [[]] + rest else [[s[0]] + rest[0]] + rest[1..]
  }

  function Join(parts: seq<string>, sep: char): string
    requires |parts| >= 1
  {
    if |parts| == 1 then parts[0] else parts[0] + [sep] + Join(parts[1..], sep)
  }

  lemma {:induction false} JoinSplit(s: string, sep: char)
    ensures Join(Split(s, sep), sep) == s
    ensures forall p :: p in Split(s, sep) ==> sep !in p
  {
    if s != [] {
      var rest := Split(s[1..], sep);
      JoinSplit(s[1..], sep);
      if s[0] == sep {
        assert ([[]] + rest)[1..] == rest;
      } else {
        var parts := [[s[0]] + rest[0]] + rest[1..];
        assert parts[1..] == rest[1..];
        if |rest| > 1 {
          assert Join(parts, sep) == [s[0]] + (rest[0] + [sep] + Join(rest[1..], sep));
        }
      }
    }
  }

  lemma {:induction false} SplitPrefix(p: string, s: string, sep: char)
    requires sep !in p
    ensures Split(p + s, sep) == [p + Split(s, sep)[0]] + Split(s, sep)[1..]
  {
    if p == [] {
      assert p + s == s;
      assert p + Split(s, sep)[0] == Split(s, sep)[0];
    } else {
      SplitPrefix(p[1..], s, sep);
      assert (p + s)[1..] == p[1..] + s;
      assert p[0] in p;
      assert [p[0]] + (p[1..] + Split(s, sep)[0]) == p + Split(s, sep)[0];
    }
  }

  lemma SplitAtSeparator(p: string, tail: string, sep: char)
    requires sep !in p
    ensures Split(p + ([sep] + tail), sep) == [p] + Split(tail, sep)
    ensures Split(p, sep) == [p]
  {
    SplitPrefix(p, [sep] + tail, sep);
    SplitPrefix(p, [], sep);
    assert ([sep] + tail)[1..] == tail;
    assert p + [] == p;
  }

  lemma {:induction false} SplitJoin(parts: seq<string>, sep: char)
    requires |parts| >= 1
    requires forall p :: p in parts ==> sep !in p
    ensures Split(Join(parts, sep), sep) == parts
  {
    if |parts| == 1 {
      SplitPrefix(parts[0], [], sep);
      assert parts[0] + [] == parts[0];
    } else {
      var tail := Join(parts[1..], sep);
      SplitJoin(parts[1..], sep);
      SplitPrefix(parts[0], [sep] + tail, sep);
      assert ([sep] + tail)[1..] == tail;
      assert parts[0] + [sep] + tail == parts[0] + ([sep] + tail);
      assert parts[0] + [] == parts[0];
    }
  }

  // ---------------------------------------------------------------- decimals

  predicate IsDigit(c: char) {
    '0' <= c <= '9'
  }

  predicate AllDigits(s: string) {
    forall i :: 0 <= i < |s| ==> IsDigit(s[i])
  }

  function DigitChar(n: int): (c: char)
    requires 0 <= n < 10
    ensures IsDigit(c)
  {
    (n + '0' as int) as char
  }

  function DigitVal(c: char): (n: nat)
    requires IsDigit(c)
    ensures n < 10 && DigitChar(n) == c
  {
    c as int - '0' as int
  }

  /** Value of a string of digits, most significant first. */
  function DigitsVal(s: string): nat
    requires AllDigits(s)
  {
    if s == [] then 0 else DigitsVal(s[..|s| - 1]) * 10 + DigitVal(s[|s| - 1])
  }

  function Pow10(k: nat): (p: nat)
    ensures p >= 1
  {
    if k == 0 then 1 else 10 * Pow10(k - 1)
  }

  /** `n` in exactly `width` digits, as a zero-padding formatter prints it. */
  function Pad(n: nat, width: nat): (s: string)
    ensures |s| == width && AllDigits(s)
  {
    if width == 0 then [] else Pad(n / 10, width - 1) + [DigitChar(n % 10)]
  }

  lemma DigitsSnoc(s: string, d: int)
    requires AllDigits(s) && 0 <= d < 10
    ensures AllDigits(s + [DigitChar(d)])
    ensures DigitsVal(s + [DigitChar(d)]) == DigitsVal(s) * 10 + d
  {
    assert (s + [DigitChar(d)])[..|s|] == s;
  }

  lemma TensBelow(n: nat, p: nat)
    requires n < 10 * p
    ensures n / 10 < p
  {
  }

  lemma {:induction false} PadVal(n: nat, width: nat)
    requires n < Pow10(width)
    ensures DigitsVal(Pad(n, width)) == n
  {
    if width > 0 {
      TensBelow(n, Pow10(width - 1));
      hide DigitsVal, Pow10;
      PadVal(n / 10, width - 1);
      DigitsSnoc(Pad(n / 10, width - 1), n % 10);
    }
  }

  /** Decimal digits of `n` without leading zeros. */
  function Decimal(n: nat): (s: string)
    ensures |s| >= 1 && AllDigits(s)
  {
    if n < 10 then [DigitChar(n)] else Decimal(n / 10) + [DigitChar(n % 10)]
  }

  lemma {:induction false} DecimalVal(n: nat)
    ensures DigitsVal(Decimal(n)) == n
  {
    if n >= 10 {
      DecimalVal(n / 10);
      DigitsSnoc(Decimal(n / 10), n % 10);
    } else {
      DigitsSnoc([], n);
    }
  }

  const I64_MAX: int := 0x7FFF_FFFF_FFFF_FFFF

  const I64_MIN: int := -0x8000_0000_0000_0000

  /** `i64` as `Display` prints it. */
  function PrintInt(n: int): string {
    if n < 0 then "-" + Decimal(-n) else Decimal(n)
  }

  /** `str::parse::<i64>`: optional sign, at least one digit, in range. */
  function ParseI64(s: string): Option<int> {
    var neg := s != [] && s[0] == '-';
    var body := if s != [] && (s[0] == '-' || s[0] == '+') then s[1..] else s;
    if body == [] || !AllDigits(body) then None
    else
      var v: int := DigitsVal(body);
      var n := if neg then -v else v;
      if I64_MIN <= n <= I64_MAX then Some(n) else None
  }

  lemma ParsePrinted(n: int)
    requires I64_MIN <= n <= I64_MAX
    ensures ParseI64(PrintInt(n)) == Some(n)
  {
    hide DigitsVal, Decimal;
    if n < 0 {
      DecimalVal(-n);
      assert PrintInt(n)[1..] == Decimal(-n);
    } else {
      DecimalVal(n);
      assert IsDigit(Decimal(n)[0]);
    }
  }

  /** A character that is neither a digit nor a leading sign makes the text no integer. */
  lemma NotAnInteger(s: string, i: nat)
    requires 1 <= i < |s| && !IsDigit(s[i])
    ensures ParseI64(s) == None
  {
    if s[0] == '-' || s[0] == '+' {
      assert s[1..][i - 1] == s[i];
    }
  }

  // ---------------------------------------------------------------- ordering

  /** Lexicographic order on strings (SQLite's BINARY collation on ASCII keys). */
  predicate Less(a: string, b: string) {
    if b == [] then false
    else if a == [] then true
    else a[0] < b[0] || (a[0] == b[0] && Less(a[1..], b[1..]))
  }

  lemma {:induction false} LessTotal(a: string, b: string)
    ensures Less(a, b) || a == b || Less(b, a)
    ensures !(Less(a, b) && Less(b, a))
    ensures a == b ==> !Less(a, b)
  {
    if a != [] && b != [] {
      LessTotal(a[1..], b[1..]);
      if a[1..] == b[1..] && a[0] == b[0] {
        assert a == [a[0]] + a[1..];
        assert b == [b[0]] + b[1..];
      }
    }
  }

  lemma {:induction false} LessTransitive(a: string, b: string, c: string)
    requires Less(a, b) && Less(b, c)
    ensures Less(a, c)
  {
    if a != [] && a[0] == b[0] && b[0] == c[0] {
      LessTransitive(a[1..], b[1..], c[1..]);
    }
  }
}
