/** Base64 with the standard alphabet and '=' padding (section 4 of RFC 4648).
    The encoder and decoder are the bit-accumulator loops of the source: the encoder
    shifts bytes into a 32-bit unsigned accumulator and emits a digit whenever six
    bits are available; the decoder shifts digits into an int accumulator and emits
    a byte whenever eight bits are available. Both accumulators are modelled modulo
    2^32; only their low twelve bits ever reach the output.

    The reference definitions work on digit values (sextets); Spell turns values into
    characters and Values turns characters back into values. */
module Base64 {
  import opened Bytes

  /** base64_chars, spelled as the source spells it: upper-case letters, lower-case
      letters, then the decimal digits with '+' and '/'. */
  const Alphabet: string := "ABCDEFGHIJKLMNOPQRSTUVWXYZ" + "abcdefghijklmnopqrstuvwxyz" + "0123456789+/"

  const Pad: char := '='

  /** The accumulators are 32 bits wide. */
  const Wrap: nat := 0x1_0000_0000

  /** The value of one base64 digit. */
  type sextet = v: int | 0 <= v < 64

  /** The character of digit value v, by the ranges of the table (see DigitIsTable). */
  function Digit(v: sextet): char
  {
    if v < 26 then ('A' as int + v) as char
    else if v < 52 then ('a' as int + (v - 26)) as char
    else if v < 62 then ('0' as int + (v - 52)) as char
    else if v == 62 then '+'
    else '/'
  }

  /** is_base64 in the C locale: a letter, a decimal digit, '+' or '/'. */
  predicate IsBase64(c: char)
  {
    ('A' <= c <= 'Z') || ('a' <= c <= 'z') || ('0' <= c <= '9') || c == '+' || c == '/'
  }

  /** base64_chars.find(c) for a character of the alphabet. */
  function Index(c: char): sextet
    requires IsBase64(c)
  {
    if 'A' <= c <= 'Z' then c as int - 'A' as int
    else if 'a' <= c <= 'z' then c as int - 'a' as int + 26
    else if '0' <= c <= '9' then c as int - '0' as int + 52
    else if c == '+' then 62
    else 63
  }

  /** The alphabet is the upper-case letters, the lower-case letters, the decimal digits,
      then '+' and '/'. */
  lemma {:induction false} AlphabetLayout()
    ensures |Alphabet| == 64
    ensures forall v :: 0 <= v < 26 ==> Alphabet[v] as int == 'A' as int + v
    ensures forall v :: 26 <= v < 52 ==> Alphabet[v] as int == 'a' as int + (v - 26)
    ensures forall v :: 52 <= v < 62 ==> Alphabet[v] as int == '0' as int + (v - 52)
    ensures Alphabet[62] == '+' && Alphabet[63] == '/'
  {
    assert "ABCDEFGHIJKLMNOPQRSTUVWXYZ" == seq(26, v requires 0 <= v < 26 => ('A' as int + v) as char);
    assert "abcdefghijklmnopqrstuvwxyz" == seq(26, v requires 0 <= v < 26 => ('a' as int + v) as char);
    assert "0123456789+/"[..10] == seq(10, v requires 0 <= v < 10 => ('0' as int + v) as char);
  }

  /** Digit is base64_chars[v]. */
  lemma {:induction false} DigitIsTable(v: sextet)
    ensures Alphabet[v] == Digit(v)
  {
    AlphabetLayout();
  }

  /** Every digit is a base64 character, and find maps it back to its value. */
  lemma {:induction false} DigitIndex(v: sextet)
    ensures IsBase64(Digit(v)) && Index(Digit(v)) == v
  {
  }

  /** find returns the position of c in the table. */
  lemma {:induction false} IndexDigit(c: char)
    requires IsBase64(c)
    ensures Digit(Index(c)) == c
  {
  }

  /** is_base64 holds exactly for the characters of the table; '=' is not one of them. */
  lemma {:induction false} IsBase64Alphabet(c: char)
    ensures IsBase64(c) <==> c in Alphabet
    ensures !IsBase64(Pad)
  {
    AlphabetLayout();
    if IsBase64(c) {
      IndexDigit(c);
      DigitIsTable(Index(c));
    }
    if c in Alphabet {
      var v :| 0 <= v < 64 && Alphabet[v] == c;
      DigitIsTable(v);
      DigitIndex(v);
    }
  }

  // ---------------------------------------------------------------------------
  // Reference encoding: each group of three bytes becomes four digits.

  /** Bits 23..18 of the 24-bit group a b c: the top six bits of a. */
  function FirstSextet(a: byte): sextet
  {
    a / 4
  }

  /** Bits 17..12: the low two bits of a, then the top four of b. */
  function SecondSextet(a: byte, b: byte): sextet
  {
    (a % 4) * 16 + b / 16
  }

  /** Bits 11..6: the low four bits of b, then the top two of c. */
  function ThirdSextet(b: byte, c: byte): sextet
  {
    (b % 16) * 4 + c / 64
  }

  /** Bits 5..0: the low six bits of c. */
  function FourthSextet(c: byte): sextet
  {
    c % 64
  }

  function QuadValues(a: byte, b: byte, c: byte): seq<sextet>
  {
    [FirstSextet(a), SecondSextet(a, b), ThirdSextet(b, c), FourthSextet(c)]
  }

  function GroupValues(d: seq<byte>): (r: seq<sextet>)
    requires |d| % 3 == 0
    ensures |r| * 3 == |d| * 4
    decreases |d|
  {
    if d == [] then []
    else GroupValues(d[..|d| - 3]) + QuadValues(d[|d| - 3], d[|d| - 2], d[|d| - 1])
  }

  /** Of a group of one or two bytes, the digits whose six bits all come from those bytes. */
  function PartialValues(t: seq<byte>): (r: seq<sextet>)
    requires |t| < 3
    ensures |r| == |t|
  {
    if |t| == 0 then []
    else if |t| == 1 then [FirstSextet(t[0])]
    else [FirstSextet(t[0]), SecondSextet(t[0], t[1])]
  }

  /** The closing digit of a short group: its remaining bits followed by zero bits,
      as if the group were completed with zero bytes. */
  function ClosingValue(t: seq<byte>): sextet
    requires 1 <= |t| <= 2
  {
    if |t| == 1 then SecondSextet(t[0], 0) else ThirdSextet(t[1], 0)
  }

  function TailValues(t: seq<byte>): (r: seq<sextet>)
    requires |t| < 3
    ensures |r| == if t == [] then 0 else |t| + 1
  {
    if t == [] then [] else PartialValues(t) + [ClosingValue(t)]
  }

  /** The digit values of the encoding of d, before padding. */
  function Sextets(d: seq<byte>): seq<sextet>
  {
    var q := |d| - |d| % 3;
    GroupValues(d[..q]) + TailValues(d[q..])
  }

  /** The characters of digit values vs. */
  function Spell(vs: seq<sextet>): (r: string)
    ensures |r| == |vs|
  {
    if vs == [] then [] else Spell(vs[..|vs| - 1]) + [Digit(vs[|vs| - 1])]
  }

  /** The i-th character spells the i-th value. */
  lemma {:induction false} SpellAt(vs: seq<sextet>)
    ensures forall i :: 0 <= i < |vs| ==> Spell(vs)[i] == Digit(vs[i])
    decreases |vs|
  {
    if vs != [] {
      var front := vs[..|vs| - 1];
      SpellAt(front);
      assert Spell(vs) == Spell(front) + [Digit(vs[|vs| - 1])];
    }
  }

  /** How many '=' close an encoding of n bytes. */
  function Padding(n: nat): nat
  {
    if n % 3 == 0 then 0 else 3 - n % 3
  }

  function Pads(p: nat): (r: string)
    ensures |r| == p
  {
    if p == 0 then [] else Pads(p - 1) + [Pad]
  }

  lemma {:induction false} PadsAt(p: nat)
    ensures forall i :: 0 <= i < p ==> Pads(p)[i] == Pad
  {
    if p > 0 {
      PadsAt(p - 1);
      assert Pads(p) == Pads(p - 1) + [Pad];
    }
  }

  /** The RFC 4648 encoding of d. */
  function Encoding(d: seq<byte>): string
  {
    Spell(Sextets(d)) + Pads(Padding(|d|))
  }

  lemma {:induction false} SextetsLength(d: seq<byte>)
    ensures |Sextets(d)| == 4 * (|d| / 3) + (if |d| % 3 == 0 then 0 else |d| % 3 + 1)
  {
    var n := |d|;
    var k, r := n / 3, n % 3;
    assert n == 3 * k + r;
    assert |GroupValues(d[..n - r])| == 4 * k;
  }

  /** The encoded length is 4 * ceil(n / 3), a multiple of four. */
  lemma {:induction false} EncodingLength(d: seq<byte>)
    ensures |Encoding(d)| == 4 * ((|d| + 2) / 3)
    ensures |Encoding(d)| % 4 == 0
  {
    var n := |d|;
    SextetsLength(d);
    CeilThird(n);
    assert |Encoding(d)| == |Sextets(d)| + Padding(n);
  }

  /** Rounding n / 3 up: 4 * ceil(n / 3) in terms of floor and remainder. */
  lemma {:induction false} CeilThird(n: nat)
    ensures 4 * ((n + 2) / 3) == 4 * (n / 3) + (if n % 3 == 0 then 0 else 4)
    ensures (4 * ((n + 2) / 3)) % 4 == 0
  {
    var k, r := n / 3, n % 3;
    assert n + 2 == 3 * k + (r + 2);
    if r == 0 {
      assert (n + 2) / 3 == k;
    } else {
      assert (n + 2) / 3 == k + 1;
    }
  }

  /** The output is characters of the table followed by zero to two '=' and nothing else. */
  lemma {:induction false} EncodingShape(d: seq<byte>)
    ensures Padding(|d|) <= 2
    ensures forall i :: 0 <= i < |Encoding(d)| - Padding(|d|) ==> Encoding(d)[i] in Alphabet
    ensures forall i :: |Encoding(d)| - Padding(|d|) <= i < |Encoding(d)| ==> Encoding(d)[i] == Pad
  {
    AlphabetLayout();
    var e := Encoding(d);
    var s := Spell(Sextets(d));
    SpellAt(Sextets(d));
    PadsAt(Padding(|d|));
    forall i | 0 <= i < |e| - Padding(|d|)
      ensures e[i] in Alphabet
    {
      DigitIsTable(Sextets(d)[i]);
      assert e[i] == s[i] == Alphabet[Sextets(d)[i]];
    }
    forall i | |e| - Padding(|d|) <= i < |e|
      ensures e[i] == Pad
    {
      assert e[i] == Pads(Padding(|d|))[i - |s|];
    }
  }

  // ---------------------------------------------------------------------------
  // Reference decoding: each group of four digits becomes three bytes.

  predicate AllBase64(t: string)
  {
    forall i :: 0 <= i < |t| ==> IsBase64(t[i])
  }

  /** The digit values of base64 characters. */
  function Values(t: string): (r: seq<sextet>)
    requires AllBase64(t)
    ensures |r| == |t| && forall i :: 0 <= i < |t| ==> r[i] == Index(t[i])
  {
    if t == [] then [] else Values(t[..|t| - 1]) + [Index(t[|t| - 1])]
  }

  /** The three bytes held by the 24 bits of digit values w x y z. */
  function TripleBytes(w: sextet, x: sextet, y: sextet, z: sextet): seq<byte>
  {
    [FirstByte(w, x), SecondByte(x, y), ThirdByte(y, z)]
  }

  /** The first byte of a group: the six bits of w, then the top two of x. */
  function FirstByte(w: sextet, x: sextet): byte
  {
    w * 4 + x / 16
  }

  /** The second byte: the low four bits of x, then the top four of y. */
  function SecondByte(x: sextet, y: sextet): byte
  {
    (x % 16) * 16 + y / 4
  }

  /** The third byte: the low two bits of y, then the six bits of z. */
  function ThirdByte(y: sextet, z: sextet): byte
  {
    (y % 4) * 64 + z
  }

  function UngroupValues(vs: seq<sextet>): (r: seq<byte>)
    requires |vs| % 4 == 0
    ensures |r| * 4 == |vs| * 3
    decreases |vs|
  {
    if vs == [] then []
    else
      var n := |vs|;
      UngroupValues(vs[..n - 4]) + TripleBytes(vs[n - 4], vs[n - 3], vs[n - 2], vs[n - 1])
  }

  /** The whole bytes held by a final one to three digits; leftover bits are dropped. */
  function PartialBytes(vs: seq<sextet>): (r: seq<byte>)
    requires |vs| < 4
    ensures |r| == if |vs| <= 1 then 0 else |vs| - 1
  {
    if |vs| <= 1 then []
    else if |vs| == 2 then [FirstByte(vs[0], vs[1])]
    else [FirstByte(vs[0], vs[1]), SecondByte(vs[1], vs[2])]
  }

  /** The bytes held by digit values vs. */
  function BytesOf(vs: seq<sextet>): seq<byte>
  {
    var q := |vs| - |vs| % 4;
    UngroupValues(vs[..q]) + PartialBytes(vs[q..])
  }

  /** The length of the longest prefix of base64 characters. */
  function ValidPrefix(s: string): (k: nat)
    ensures k <= |s| && AllBase64(s[..k])
    ensures k < |s| ==> !IsBase64(s[k])
  {
    if s == [] || !IsBase64(s[0]) then 0
    else
      var k := 1 + ValidPrefix(s[1..]);
      assert s[..k] == [s[0]] + s[1..][..k - 1];
      k
  }

  /** What base64_decode returns: the bytes of the digits before the first '=' or the
      first character outside the alphabet, whichever comes first. */
  function Decoding(s: string): seq<byte>
  {
    BytesOf(Values(s[..ValidPrefix(s)]))
  }

  /** ValidPrefix is characterised by its two postconditions. */
  lemma {:induction false} ValidPrefixAt(s: string, k: nat)
    requires k <= |s| && AllBase64(s[..k]) && (k < |s| ==> !IsBase64(s[k]))
    ensures ValidPrefix(s) == k
    decreases |s|
  {
    if k > 0 {
      assert s[..k][0] == s[0];
      var t := s[1..];
      assert t[..k - 1] == s[..k][1..];
      assert k - 1 < |t| ==> t[k - 1] == s[k];
      ValidPrefixAt(t, k - 1);
    }
  }

  /** Decoding stops at the first '=' and at the first character outside the alphabet:
      only the digits before it count. */
  lemma {:induction false} DecodingStopsAt(s: string, k: nat)
    requires k < |s| && AllBase64(s[..k]) && (s[k] == Pad || !IsBase64(s[k]))
    ensures Decoding(s) == BytesOf(Values(s[..k]))
    ensures Decoding(s) == Decoding(s[..k])
  {
    IsBase64Alphabet(Pad);
    ValidPrefixAt(s, k);
    ValidPrefixAt(s[..k], k);
    assert s[..k][..k] == s[..k];
  }

  /** k digits decode to floor(6k / 8) bytes. */
  lemma {:induction false} DecodedLength(s: string)
    ensures |Decoding(s)| == 6 * ValidPrefix(s) / 8
  {
    var n := ValidPrefix(s);
    var k, r := n / 4, n % 4;
    assert n == 4 * k + r;
    var vs := Values(s[..n]);
    assert |UngroupValues(vs[..n - r])| == 3 * k;
    assert 6 * n / 8 == 3 * k + 6 * r / 8;
  }

  // ---------------------------------------------------------------------------
  // The round trip.

  lemma {:induction false} TripleOfQuad(a: byte, b: byte, c: byte)
    ensures var q := QuadValues(a, b, c);
            TripleBytes(q[0], q[1], q[2], q[3]) == [a, b, c]
  {
    FirstOfQuad(a, b);
    SecondOfQuad(a, b, c);
    ThirdOfQuad(b, c);
  }

  lemma {:induction false} FirstOfQuad(a: byte, b: byte)
    ensures FirstByte(FirstSextet(a), SecondSextet(a, b)) == a
  {
    assert SecondSextet(a, b) / 16 == a % 4;
  }

  lemma {:induction false} SecondOfQuad(a: byte, b: byte, c: byte)
    ensures SecondByte(SecondSextet(a, b), ThirdSextet(b, c)) == b
  {
    assert SecondSextet(a, b) % 16 == b / 16;
    assert ThirdSextet(b, c) / 4 == b % 16;
  }

  lemma {:induction false} ThirdOfQuad(b: byte, c: byte)
    ensures ThirdByte(ThirdSextet(b, c), FourthSextet(c)) == c
  {
    assert ThirdSextet(b, c) % 4 == c / 64;
  }

  lemma {:induction false} UngroupGroups(d: seq<byte>)
    requires |d| % 3 == 0
    ensures |GroupValues(d)| % 4 == 0 && UngroupValues(GroupValues(d)) == d
    decreases |d|
  {
    if d != [] {
      var n := |d|;
      var front, a, b, c := d[..n - 3], d[n - 3], d[n - 2], d[n - 1];
      var gf, q := GroupValues(front), QuadValues(a, b, c);
      UngroupGroups(front);
      Mod4(|gf|, 4);
      AppendSlices(gf, q);
      TripleOfQuad(a, b, c);
      LastThree(d);
    }
  }

  /** A sequence of at least three elements is its front followed by its last three. */
  lemma {:induction false} LastThree<T>(d: seq<T>)
    requires |d| >= 3
    ensures d[..|d| - 3] + [d[|d| - 3], d[|d| - 2], d[|d| - 1]] == d
  {
    var n := |d|;
    var e := d[..n - 3] + [d[n - 3], d[n - 2], d[n - 1]];
    assert |e| == n;
    forall k | 0 <= k < n
      ensures e[k] == d[k]
    {
      if k < n - 3 {
        assert e[k] == d[..n - 3][k];
      }
    }
  }

  lemma {:induction false} PartialOfTail(t: seq<byte>)
    requires |t| < 3
    ensures PartialBytes(TailValues(t)) == t
  {
    if |t| == 1 {
      FirstOfQuad(t[0], 0);
    } else if |t| == 2 {
      FirstOfQuad(t[0], t[1]);
      SecondOfQuad(t[0], t[1], 0);
    }
  }

  /** The digit values of an encoding decode to the bytes encoded. */
  lemma {:induction false} BytesOfSextets(d: seq<byte>)
    ensures BytesOf(Sextets(d)) == d
  {
    var q := |d| - |d| % 3;
    assert d[..q] + d[q..] == d;
    var g, t := GroupValues(d[..q]), TailValues(d[q..]);
    assert Sextets(d) == g + t;
    UngroupGroups(d[..q]);
    PartialOfTail(d[q..]);
    BytesOfSplit(g, t);
  }

  /** Whole groups followed by a short tail decode group by group, then the tail. */
  lemma {:induction false} BytesOfSplit(g: seq<sextet>, tail: seq<sextet>)
    requires |g| % 4 == 0 && |tail| < 4
    ensures BytesOf(g + tail) == UngroupValues(g) + PartialBytes(tail)
  {
    Mod4(|g|, |tail|);
    AppendSlices(g, tail);
  }

  /** Whole groups alone decode group by group. */
  lemma {:induction false} BytesOfWhole(g: seq<sextet>)
    requires |g| % 4 == 0
    ensures BytesOf(g) == UngroupValues(g)
  {
    assert g[..|g|] == g;
  }

  /** The two halves of a concatenation. */
  lemma {:induction false} AppendSlices<T>(a: seq<T>, b: seq<T>)
    ensures (a + b)[..|a|] == a && (a + b)[|a|..] == b
  {
  }

  /** Appending one element after g + t extends the tail t. */
  lemma {:induction false} SnocAfter<T>(g: seq<T>, t: seq<T>, x: T)
    ensures (g + t) + [x] == g + (t + [x])
  {
  }

  /** Adding b to a multiple of four leaves the remainder of b. */
  lemma {:induction false} Mod4(a: nat, b: nat)
    requires a % 4 == 0
    ensures (a + b) % 4 == b % 4 && (a + b) - (a + b) % 4 == a + (b - b % 4)
  {
    var k := a / 4;
    assert a == 4 * k;
    assert a + b == 4 * (k + b / 4) + b % 4;
  }

  /** Characters spelled from digit values are base64 characters with those values. */
  lemma {:induction false} ValuesOfSpell(vs: seq<sextet>)
    ensures AllBase64(Spell(vs)) && Values(Spell(vs)) == vs
  {
    var s := Spell(vs);
    SpellAt(vs);
    forall i | 0 <= i < |vs|
      ensures IsBase64(s[i]) && Index(s[i]) == vs[i]
    {
      DigitIndex(vs[i]);
    }
  }

  /** Decoding an encoding gives back the bytes: base64_decode(base64_encode(d)) == d. */
  lemma {:induction false} RoundTrip(d: seq<byte>)
    ensures Decoding(Encoding(d)) == d
  {
    var vs := Sextets(d);
    var s := Spell(vs);
    var e := Encoding(d);
    ValuesOfSpell(vs);
    assert e[..|s|] == s;
    PadsAt(Padding(|d|));
    assert |s| < |e| ==> e[|s|] == Pads(Padding(|d|))[0] == Pad;
    IsBase64Alphabet(Pad);
    ValidPrefixAt(e, |s|);
    BytesOfSextets(d);
  }

  // ---------------------------------------------------------------------------
  // Accumulator arithmetic.

  /** v >> k, one bit at a time. */
  function Shr(v: nat, k: nat): nat
  {
    if k == 0 then v else Shr(v / 2, k - 1)
  }

  /** The right shifts the two loops use. */
  lemma {:induction false} ShrSmall(v: nat)
    ensures Shr(v, 0) == v && Shr(v, 2) == v / 4 && Shr(v, 4) == v / 16 && Shr(v, 6) == v / 64
  {
    ShrTwo(v, 2);
    ShrTwo(v, 4);
    ShrTwo(v / 4, 2);
    ShrTwo(v, 6);
    ShrTwo(v / 4, 4);
    ShrTwo(v / 16, 2);
    assert v / 4 / 4 == v / 16 && v / 16 / 4 == v / 64;
  }

  /** Shifting by two bits is dividing by four. */
  lemma {:induction false} ShrTwo(v: nat, k: nat)
    requires k >= 2
    ensures Shr(v, k) == Shr(v / 4, k - 2)
  {
    assert Shr(v, k) == Shr(v / 2, k - 1) == Shr(v / 2 / 2, k - 2);
    assert v / 2 / 2 == v / 4;
  }

  /** Low bits of the 32-bit accumulator after (val << 8) + c: the byte c, with the low
      bits of val above it. */
  lemma {:induction false} ShiftByteLow256(val: nat, c: nat)
    requires c < 256
    ensures (val * 256 + c) % Wrap % 256 == c
  {
    var x := val * 256 + c;
    var v, w := x % Wrap, x / Wrap;
    assert x == Wrap * w + v;
    assert v == 256 * (val - 16777216 * w) + c;
  }

  lemma {:induction false} ShiftByteLow1024(val: nat, c: nat)
    requires c < 256
    ensures (val * 256 + c) % Wrap % 1024 == (val % 4) * 256 + c
  {
    var x := val * 256 + c;
    var v, w := x % Wrap, x / Wrap;
    assert x == Wrap * w + v;
    assert v == 1024 * (val / 4 - 4194304 * w) + ((val % 4) * 256 + c);
  }

  lemma {:induction false} ShiftByteLow4096(val: nat, c: nat)
    requires c < 256
    ensures (val * 256 + c) % Wrap % 4096 == (val % 16) * 256 + c
  {
    var x := val * 256 + c;
    var v, w := x % Wrap, x / Wrap;
    assert x == Wrap * w + v;
    assert v == 4096 * (val / 16 - 1048576 * w) + ((val % 16) * 256 + c);
  }

  /** Low bits of the 32-bit accumulator after (val << 6) + c: the digit c, with the low
      bits of val above it. */
  lemma {:induction false} ShiftDigitLow64(val: nat, c: nat)
    requires c < 64
    ensures (val * 64 + c) % Wrap % 64 == c
  {
    var x := val * 64 + c;
    var v, w := x % Wrap, x / Wrap;
    assert x == Wrap * w + v;
    assert v == 64 * (val - 67108864 * w) + c;
  }

  lemma {:induction false} ShiftDigitLow256(val: nat, c: nat)
    requires c < 64
    ensures (val * 64 + c) % Wrap % 256 == (val % 4) * 64 + c
  {
    var x := val * 64 + c;
    var v, w := x % Wrap, x / Wrap;
    assert x == Wrap * w + v;
    assert v == 256 * (val / 4 - 16777216 * w) + ((val % 4) * 64 + c);
  }

  lemma {:induction false} ShiftDigitLow1024(val: nat, c: nat)
    requires c < 64
    ensures (val * 64 + c) % Wrap % 1024 == (val % 16) * 64 + c
  {
    var x := val * 64 + c;
    var v, w := x % Wrap, x / Wrap;
    assert x == Wrap * w + v;
    assert v == 1024 * (val / 16 - 4194304 * w) + ((val % 16) * 64 + c);
  }

  lemma {:induction false} ShiftDigitLow4096(val: nat, c: nat)
    requires c < 64
    ensures (val * 64 + c) % Wrap % 4096 == (val % 64) * 64 + c
  {
    var x := val * 64 + c;
    var v, w := x % Wrap, x / Wrap;
    assert x == Wrap * w + v;
    assert v == 4096 * (val / 64 - 1048576 * w) + ((val % 64) * 64 + c);
  }

  /** Once the low bits of v are known to be L, the field above bit log2(D) and the bits
      below it are those of L. */
  lemma {:induction false} Split256By4(v: nat, L: nat)
    requires L < 256 && v % 256 == L
    ensures v / 4 % 64 == L / 4 && v % 4 == L % 4
  {
    var s := v / 256;
    assert v == 256 * s + L;
    assert v / 4 == 64 * s + L / 4;
    assert v == 4 * (64 * s + L / 4) + L % 4;
  }

  lemma {:induction false} Split1024By16(v: nat, L: nat)
    requires L < 1024 && v % 1024 == L
    ensures v / 16 % 64 == L / 16 && v % 16 == L % 16
  {
    var s := v / 1024;
    assert v == 1024 * s + L;
    assert v / 16 == 64 * s + L / 16;
    assert v == 16 * (64 * s + L / 16) + L % 16;
  }

  lemma {:induction false} Split4096By64(v: nat, L: nat)
    requires L < 4096 && v % 4096 == L
    ensures v / 64 % 64 == L / 64 && v % 64 == L % 64
  {
    var s := v / 4096;
    assert v == 4096 * s + L;
    assert v / 64 == 64 * s + L / 64;
    assert v == 64 * (64 * s + L / 64) + L % 64;
  }

  lemma {:induction false} Split4096By16(v: nat, L: nat)
    requires L < 4096 && v % 4096 == L
    ensures v / 16 % 256 == L / 16 && v % 16 == L % 16
  {
    var s := v / 4096;
    assert v == 4096 * s + L;
    assert v / 16 == 256 * s + L / 16;
    assert v == 16 * (256 * s + L / 16) + L % 16;
  }

  lemma {:induction false} Split1024By4(v: nat, L: nat)
    requires L < 1024 && v % 1024 == L
    ensures v / 4 % 256 == L / 4 && v % 4 == L % 4
  {
    var s := v / 1024;
    assert v == 1024 * s + L;
    assert v / 4 == 256 * s + L / 4;
    assert v == 4 * (256 * s + L / 4) + L % 4;
  }

  // ---------------------------------------------------------------------------
  // The encoder loop.

  /** The digit values the inner while loop emits from accumulator v starting at bit
      offset b: (v >> b) & 0x3F, then b - 6, and so on while b is not negative. */
  function DrainValues(v: nat, b: int): (r: seq<sextet>)
    decreases b + 6
  {
    if b < 0 then [] else [Shr(v, b) % 64] + DrainValues(v, b - 6)
  }

  /** The digits byte i completes: its top six bits after a group's first byte, the
      four bits left from the previous byte and its top four after the second, and the
      two left over with all six of its own after the third. */
  function Completed(d: seq<byte>, i: nat): seq<sextet>
    requires i < |d|
  {
    if i % 3 == 0 then [FirstSextet(d[i])]
    else if i % 3 == 1 then [SecondSextet(d[i - 1], d[i])]
    else [ThirdSextet(d[i - 1], d[i]), FourthSextet(d[i])]
  }

  /** The digit values the encoder has emitted after the first i bytes, read off the
      reference encoding: the complete groups and, of the group in progress, the digits
      whose six bits are all known. */
  function PrefixValues(d: seq<byte>, i: nat): seq<sextet>
    requires i <= |d|
  {
    var q := i - i % 3;
    GroupValues(d[..q]) + PartialValues(d[q..i])
  }

  /** Where i and i + 1 sit in their groups of three. */
  lemma {:induction false} Mod3Next(i: nat)
    ensures i % 3 == 0 ==> (i + 1) % 3 == 1 && (i + 1) - (i + 1) % 3 == i && i - i % 3 == i
    ensures i % 3 == 1 ==> (i + 1) % 3 == 2 && (i + 1) - (i + 1) % 3 == i - 1 && i - i % 3 == i - 1
    ensures i % 3 == 2 ==> (i + 1) % 3 == 0 && (i + 1) - (i + 1) % 3 == i + 1 && i - i % 3 == i - 2
  {
    var k := i / 3;
    assert i == 3 * k + i % 3;
  }

  lemma {:induction false} PrefixFirst(d: seq<byte>, i: nat)
    requires i < |d| && i % 3 == 0
    ensures PrefixValues(d, i + 1) == PrefixValues(d, i) + Completed(d, i)
  {
    Mod3Next(i);
    assert d[i..i + 1] == [d[i]];
  }

  lemma {:induction false} PrefixSecond(d: seq<byte>, i: nat)
    requires i < |d| && i % 3 == 1
    ensures PrefixValues(d, i + 1) == PrefixValues(d, i) + Completed(d, i)
  {
    Mod3Next(i);
    assert d[i - 1..i] == [d[i - 1]];
    assert d[i - 1..i + 1] == [d[i - 1], d[i]];
  }

  lemma {:induction false} PrefixThird(d: seq<byte>, i: nat)
    requires i < |d| && i % 3 == 2
    ensures PrefixValues(d, i + 1) == PrefixValues(d, i) + Completed(d, i)
  {
    var front := d[..i + 1];
    Mod3Next(i);
    assert d[i - 2..i] == [d[i - 2], d[i - 1]];
    assert front[..|front| - 3] == d[..i - 2];
    assert d[i + 1..i + 1] == [];
    assert PrefixValues(d, i) == GroupValues(d[..i - 2]) + PartialValues([d[i - 2], d[i - 1]]);
    assert PrefixValues(d, i + 1) == GroupValues(front) + [];
    assert GroupValues(front) == GroupValues(d[..i - 2]) + QuadValues(d[i - 2], d[i - 1], d[i]);
  }

  /** Each byte extends the reference prefix by the digits it completes. */
  lemma {:induction false} PrefixStep(d: seq<byte>, i: nat)
    requires i < |d|
    ensures PrefixValues(d, i + 1) == PrefixValues(d, i) + Completed(d, i)
  {
    if i % 3 == 0 {
      PrefixFirst(d, i);
    } else if i % 3 == 1 {
      PrefixSecond(d, i);
    } else {
      PrefixThird(d, i);
    }
  }

  /** The encoder's accumulator holds the bits of the group in progress not yet emitted:
      two after the group's first byte, four after its second. */
  ghost predicate EncoderState(d: seq<byte>, i: nat, val: nat, valb: int)
    requires i <= |d|
  {
    valb == -6 + 2 * (i % 3)
    && (i % 3 == 1 ==> val % 4 == d[i - 1] % 4)
    && (i % 3 == 2 ==> val % 16 == d[i - 1] % 16)
  }

  /** The inner loop after one byte: one digit from offset 2 or 4, two from offset 6. */
  lemma {:induction false} DrainShort(v: nat)
    ensures DrainValues(v, 2) == [Shr(v, 2) % 64]
    ensures DrainValues(v, 4) == [Shr(v, 4) % 64]
    ensures DrainValues(v, 6) == [Shr(v, 6) % 64, v % 64]
  {
    assert Shr(v, 0) == v;
    assert DrainValues(v, 0) == [v % 64];
  }

  /** The bits of the accumulator after the first byte c of a group. */
  lemma {:induction false} FirstByteBits(val: nat, c: byte)
    ensures var v := (val * 256 + c) % Wrap; Shr(v, 2) % 64 == FirstSextet(c) && v % 4 == c % 4
  {
    var v := (val * 256 + c) % Wrap;
    ShrSmall(v);
    ShiftByteLow256(val, c);
    Split256By4(v, c);
  }

  /** The bits of the accumulator after the second byte c of a group, a the first. */
  lemma {:induction false} SecondByteBits(val: nat, a: byte, c: byte)
    requires val % 4 == a % 4
    ensures var v := (val * 256 + c) % Wrap;
            Shr(v, 4) % 64 == SecondSextet(a, c) && v % 16 == c % 16
  {
    var v := (val * 256 + c) % Wrap;
    ShrSmall(v);
    ShiftByteLow1024(val, c);
    Split1024By16(v, (val % 4) * 256 + c);
  }

  /** The bits of the accumulator after the third byte c of a group, b the second. */
  lemma {:induction false} ThirdByteBits(val: nat, b: byte, c: byte)
    requires val % 16 == b % 16
    ensures var v := (val * 256 + c) % Wrap;
            Shr(v, 6) % 64 == ThirdSextet(b, c) && v % 64 == FourthSextet(c)
  {
    var v := (val * 256 + c) % Wrap;
    ShrSmall(v);
    ShiftByteLow4096(val, c);
    Split4096By64(v, (val % 16) * 256 + c);
  }

  lemma {:induction false} EncodeFirstByte(d: seq<byte>, i: nat, val: nat, valb: int)
    requires i < |d| && i % 3 == 0 && EncoderState(d, i, val, valb)
    ensures var v := (val * 256 + d[i]) % Wrap;
            DrainValues(v, valb + 8) == Completed(d, i)
            && EncoderState(d, i + 1, v, valb + 8 - 6 * |DrainValues(v, valb + 8)|)
  {
    var v := (val * 256 + d[i]) % Wrap;
    Mod3Next(i);
    DrainShort(v);
    FirstByteBits(val, d[i]);
    assert valb + 8 == 2;
  }

  lemma {:induction false} EncodeSecondByte(d: seq<byte>, i: nat, val: nat, valb: int)
    requires i < |d| && i % 3 == 1 && EncoderState(d, i, val, valb)
    ensures var v := (val * 256 + d[i]) % Wrap;
            DrainValues(v, valb + 8) == Completed(d, i)
            && EncoderState(d, i + 1, v, valb + 8 - 6 * |DrainValues(v, valb + 8)|)
  {
    var v := (val * 256 + d[i]) % Wrap;
    Mod3Next(i);
    DrainShort(v);
    SecondByteBits(val, d[i - 1], d[i]);
    assert valb + 8 == 4;
  }

  lemma {:induction false} EncodeThirdByte(d: seq<byte>, i: nat, val: nat, valb: int)
    requires i < |d| && i % 3 == 2 && EncoderState(d, i, val, valb)
    ensures var v := (val * 256 + d[i]) % Wrap;
            DrainValues(v, valb + 8) == Completed(d, i)
            && EncoderState(d, i + 1, v, valb + 8 - 6 * |DrainValues(v, valb + 8)|)
  {
    var v := (val * 256 + d[i]) % Wrap;
    Mod3Next(i);
    DrainShort(v);
    ThirdByteBits(val, d[i - 1], d[i]);
    assert valb + 8 == 6;
  }

  /** One byte of the encoder: the accumulator takes it, the inner loop emits the digits
      it completes, and the state moves on to i + 1. */
  lemma {:induction false} EncodeByte(d: seq<byte>, i: nat, val: nat, valb: int)
    requires i < |d| && EncoderState(d, i, val, valb)
    ensures var v := (val * 256 + d[i]) % Wrap;
            DrainValues(v, valb + 8) == Completed(d, i)
            && EncoderState(d, i + 1, v, valb + 8 - 6 * |DrainValues(v, valb + 8)|)
  {
    if i % 3 == 0 {
      EncodeFirstByte(d, i, val, valb);
    } else if i % 3 == 1 {
      EncodeSecondByte(d, i, val, valb);
    } else {
      EncodeThirdByte(d, i, val, valb);
    }
  }

  /** The reference digits are those of the prefix read, then the closing digit of a
      short final group. */
  lemma {:induction false} SextetsClose(d: seq<byte>)
    ensures |d| % 3 == 0 ==> Sextets(d) == PrefixValues(d, |d|)
    ensures |d| % 3 == 1 ==> Sextets(d) == PrefixValues(d, |d|) + [SecondSextet(d[|d| - 1], 0)]
    ensures |d| % 3 == 2 ==> Sextets(d) == PrefixValues(d, |d|) + [ThirdSextet(d[|d| - 1], 0)]
  {
    var n := |d|;
    var q := n - n % 3;
    var t := d[q..];
    assert d[q..n] == t;
    if n % 3 == 1 {
      assert t == [d[n - 1]];
    } else if n % 3 == 2 {
      assert t == [d[n - 2], d[n - 1]];
    }
  }

  /** The closing digit for a group of one or two bytes: ((val << 8) >> (valb + 8)) & 0x3F. */
  lemma {:induction false} EncodeFinal(d: seq<byte>, val: nat, valb: int)
    requires EncoderState(d, |d|, val, valb)
    ensures valb > -6 <==> |d| % 3 != 0
    ensures valb > -6 ==> PrefixValues(d, |d|) + [Shr(val * 256 % Wrap, valb + 8) % 64] == Sextets(d)
    ensures valb <= -6 ==> PrefixValues(d, |d|) == Sextets(d)
  {
    SextetsClose(d);
    if |d| % 3 == 1 {
      CloseAfterOne(val, d[|d| - 1]);
    } else if |d| % 3 == 2 {
      CloseAfterTwo(val, d[|d| - 1]);
    }
  }

  /** After one byte a of a group, ((val << 8) >> 4) & 0x3F is a's last two bits, padded. */
  lemma {:induction false} CloseAfterOne(val: nat, a: byte)
    requires val % 4 == a % 4
    ensures Shr(val * 256 % Wrap, 4) % 64 == SecondSextet(a, 0)
  {
    SecondByteBits(val, a, 0);
    assert val * 256 + 0 == val * 256;
  }

  /** After two bytes, b the second, ((val << 8) >> 6) & 0x3F is b's last four bits, padded. */
  lemma {:induction false} CloseAfterTwo(val: nat, b: byte)
    requires val % 16 == b % 16
    ensures Shr(val * 256 % Wrap, 6) % 64 == ThirdSextet(b, 0)
  {
    ThirdByteBits(val, b, 0);
    assert val * 256 + 0 == val * 256;
  }

  lemma {:induction false} SpellSnoc(vs: seq<sextet>, x: sextet)
    ensures Spell(vs + [x]) == Spell(vs) + [Digit(x)]
  {
    assert (vs + [x])[..|vs|] == vs;
  }

  /** The padding loop stops exactly after Padding(n) characters. */
  lemma {:induction false} PaddingFits(d: seq<byte>, m: nat)
    requires |Sextets(d)| <= m <= |Sextets(d)| + Padding(|d|)
    ensures m % 4 == 0 <==> m == |Sextets(d)| + Padding(|d|)
  {
    SextetsLength(d);
    var k := |d| / 3;
    Mod4Window(k, m - 4 * k);
  }

  /** Within one window of four above a multiple of four, only the ends are multiples. */
  lemma {:induction false} Mod4Window(k: nat, j: int)
    requires 0 <= j <= 4
    ensures (4 * k + j) % 4 == 0 <==> j == 0 || j == 4
  {
    assert (4 * k + j) % 4 == j % 4;
  }

  /** Spelling distributes over concatenation. */
  lemma {:induction false} SpellConcat(a: seq<sextet>, b: seq<sextet>)
    ensures Spell(a + b) == Spell(a) + Spell(b)
    decreases |b|
  {
    if b != [] {
      var front := b[..|b| - 1];
      SpellConcat(a, front);
      assert (a + b)[..|a + b| - 1] == a + front;
      assert Spell(b) == Spell(front) + [Digit(b[|b| - 1])];
    } else {
      assert a + b == a;
    }
  }

  /** The inner while loop of base64_encode: while valb >= 0, emit the digit
      (val >> valb) & 0x3F and lower valb by six. */
  method Drain(val: nat, valb: int) returns (digits: string, rest: int)
    ensures digits == Spell(DrainValues(val, valb))
    ensures rest == valb - 6 * |DrainValues(val, valb)| && rest < 0
  {
    digits := [];
    rest := valb;
    ghost var vs: seq<sextet> := [];
    while rest >= 0
      invariant vs + DrainValues(val, rest) == DrainValues(val, valb)
      invariant rest == valb - 6 * |vs|
      invariant digits == Spell(vs)
      decreases rest + 6
    {
      var x: sextet := Shr(val, rest) % 64;
      SpellSnoc(vs, x);
      digits := digits + [Digit(x)];
      assert DrainValues(val, rest) == [x] + DrainValues(val, rest - 6);
      vs := vs + [x];
      rest := rest - 6;
    }
    assert vs + DrainValues(val, rest) == vs;
  }

  /** The first half of base64_encode: the byte loop and the closing digit of a short
      final group, before any '='. */
  method EncodeDigits(data: seq<byte>) returns (encoded: string)
    ensures encoded == Spell(Sextets(data))
  {
    encoded := [];
    ghost var vals: seq<sextet> := [];
    var val: nat := 0;
    var valb: int := -6;
    for i := 0 to |data|
      invariant val < Wrap
      invariant EncoderState(data, i, val, valb)
      invariant vals == PrefixValues(data, i) && encoded == Spell(vals)
    {
      EncodeByte(data, i, val, valb);
      PrefixStep(data, i);
      val := (val * 256 + data[i]) % Wrap;
      valb := valb + 8;
      var digits;
      SpellConcat(vals, DrainValues(val, valb));
      digits, valb := Drain(val, valb);
      encoded := encoded + digits;
      vals := vals + Completed(data, i);
    }
    EncodeFinal(data, val, valb);
    if valb > -6 {
      var x: sextet := Shr(val * 256 % Wrap, valb + 8) % 64;
      SpellSnoc(vals, x);
      encoded := encoded + [Digit(x)];
      vals := vals + [x];
    }
  }

  /** base64_encode (both copies in the source carry the same body): the digits, then
      '=' until the length is a multiple of four. */
  method Encode(data: seq<byte>) returns (encoded: string)
    ensures encoded == Encoding(data)
  {
    encoded := EncodeDigits(data);
    ghost var digits := encoded;
    PaddingFits(data, |encoded|);
    while |encoded| % 4 != 0
      invariant |digits| <= |encoded| <= |digits| + Padding(|data|)
      invariant encoded == digits + Pads(|encoded| - |digits|)
      invariant |encoded| % 4 == 0 <==> |encoded| == |digits| + Padding(|data|)
      decreases |digits| + Padding(|data|) - |encoded|
    {
      ghost var m := |encoded| - |digits|;
      assert Pads(m + 1) == Pads(m) + [Pad];
      SnocAfter(digits, Pads(m), Pad);
      encoded := encoded + [Pad];
      PaddingFits(data, |encoded|);
    }
  }

  // ---------------------------------------------------------------------------
  // The decoder loop.

  /** The decoder's accumulator holds the bits of the group in progress not yet emitted:
      six after the group's first digit, four after its second, two after its third. */
  ghost predicate DecoderState(vs: seq<sextet>, val: nat, valb: int)
  {
    var r := |vs| % 4;
    valb == (if r == 0 then -8 else -2 * r)
    && (r == 1 ==> val % 64 == vs[|vs| - 1])
    && (r == 2 ==> val % 16 == vs[|vs| - 1] % 16)
    && (r == 3 ==> val % 4 == vs[|vs| - 1] % 4)
  }

  /** The bits of the accumulator after the second digit x of a group, w its first. */
  lemma {:induction false} SecondDigitBits(val: nat, w: sextet, x: sextet)
    requires val % 64 == w
    ensures var v := (val * 64 + x) % Wrap; Shr(v, 4) % 256 == FirstByte(w, x) && v % 16 == x % 16
  {
    var v := (val * 64 + x) % Wrap;
    ShrSmall(v);
    ShiftDigitLow4096(val, x);
    var L: nat := w * 64 + x;
    Split4096By16(v, L);
    assert L / 16 == w * 4 + x / 16 && L % 16 == x % 16;
  }

  /** The bits of the accumulator after the third digit x, y the low bits of the second. */
  lemma {:induction false} ThirdDigitBits(val: nat, y: sextet, x: sextet)
    requires val % 16 == y % 16
    ensures var v := (val * 64 + x) % Wrap; Shr(v, 2) % 256 == SecondByte(y, x) && v % 4 == x % 4
  {
    var v := (val * 64 + x) % Wrap;
    ShrSmall(v);
    ShiftDigitLow1024(val, x);
    var L: nat := (y % 16) * 64 + x;
    Split1024By4(v, L);
    assert L / 4 == (y % 16) * 16 + x / 4 && L % 4 == x % 4;
  }

  /** The bits of the accumulator after the fourth digit x, y the low bits of the third. */
  lemma {:induction false} FourthDigitBits(val: nat, y: sextet, x: sextet)
    requires val % 4 == y % 4
    ensures var v := (val * 64 + x) % Wrap; Shr(v, 0) % 256 == ThirdByte(y, x)
  {
    var v := (val * 64 + x) % Wrap;
    ShrSmall(v);
    ShiftDigitLow256(val, x);
  }

  /** The reference bytes gain one byte with each digit of a group after the first. */
  lemma {:induction false} FirstDigitBytes(vs: seq<sextet>, x: sextet)
    requires |vs| % 4 == 0
    ensures BytesOf(vs + [x]) == BytesOf(vs)
  {
    var n, u := |vs|, vs + [x];
    assert u[..n] == vs && u[n..] == [x];
    assert vs[..n] == vs;
  }

  lemma {:induction false} SecondDigitBytes(vs: seq<sextet>, x: sextet)
    requires |vs| % 4 == 1
    ensures BytesOf(vs + [x]) == BytesOf(vs) + [FirstByte(vs[|vs| - 1], x)]
  {
    var n := |vs|;
    var q := n - n % 4;
    Mod4Next(n);
    SnocSlices(vs, x, q);
    assert vs[q..] == [vs[n - 1]];
  }

  lemma {:induction false} ThirdDigitBytes(vs: seq<sextet>, x: sextet)
    requires |vs| % 4 == 2
    ensures BytesOf(vs + [x]) == BytesOf(vs) + [SecondByte(vs[|vs| - 1], x)]
  {
    var n := |vs|;
    var q := n - n % 4;
    Mod4Next(n);
    SnocSlices(vs, x, q);
    var t := vs[q..];
    assert t == [vs[n - 2], vs[n - 1]];
    var u := UngroupValues(vs[..q]);
    var a, b := FirstByte(t[0], t[1]), SecondByte(t[1], x);
    assert u + [a] + [b] == u + [a, b];
  }

  lemma {:induction false} FourthDigitBytes(vs: seq<sextet>, x: sextet)
    requires |vs| % 4 == 3
    ensures BytesOf(vs + [x]) == BytesOf(vs) + [ThirdByte(vs[|vs| - 1], x)]
  {
    var n := |vs|;
    var q := n - n % 4;
    var u := vs + [x];
    Mod4Next(n);
    SnocSlices(vs, x, q);
    assert u[..n + 1] == u && u[n + 1..] == [];
    assert vs[q..] == [vs[n - 3], vs[n - 2], vs[n - 1]];
    var g := UngroupValues(vs[..q]);
    var a, b := FirstByte(vs[n - 3], vs[n - 2]), SecondByte(vs[n - 2], vs[n - 1]);
    assert g + [a, b] + [ThirdByte(vs[n - 1], x)] == g + [a, b, ThirdByte(vs[n - 1], x)];
  }

  /** Where n and n + 1 sit in their groups of four. */
  lemma {:induction false} Mod4Next(n: nat)
    ensures n % 4 < 3 ==> (n + 1) % 4 == n % 4 + 1 && (n + 1) - (n + 1) % 4 == n - n % 4
    ensures n % 4 == 3 ==> (n + 1) % 4 == 0 && n - n % 4 == n - 3
    ensures (n - n % 4) % 4 == 0
  {
    var k := n / 4;
    assert n == 4 * k + n % 4;
  }

  /** Slicing after appending one element. */
  lemma {:induction false} SnocSlices<T>(vs: seq<T>, x: T, k: nat)
    requires k <= |vs|
    ensures (vs + [x])[..k] == vs[..k] && (vs + [x])[k..] == vs[k..] + [x]
  {
  }

  lemma {:induction false} DecodeFirstDigit(vs: seq<sextet>, x: sextet, val: nat, valb: int)
    requires |vs| % 4 == 0 && DecoderState(vs, val, valb)
    ensures var v := (val * 64 + x) % Wrap;
            valb + 6 < 0 && BytesOf(vs) == BytesOf(vs + [x]) && DecoderState(vs + [x], v, valb + 6)
  {
    Mod4Next(|vs|);
    FirstDigitBytes(vs, x);
    ShiftDigitLow64(val, x);
  }

  lemma {:induction false} DecodeSecondDigit(vs: seq<sextet>, x: sextet, val: nat, valb: int)
    requires |vs| % 4 == 1 && DecoderState(vs, val, valb)
    ensures var v := (val * 64 + x) % Wrap;
            valb + 6 >= 0
            && BytesOf(vs) + [Shr(v, valb + 6) % 256] == BytesOf(vs + [x])
            && DecoderState(vs + [x], v, valb + 6 - 8)
  {
    Mod4Next(|vs|);
    SecondDigitBytes(vs, x);
    SecondDigitBits(val, vs[|vs| - 1], x);
    assert valb + 6 == 4;
  }

  lemma {:induction false} DecodeThirdDigit(vs: seq<sextet>, x: sextet, val: nat, valb: int)
    requires |vs| % 4 == 2 && DecoderState(vs, val, valb)
    ensures var v := (val * 64 + x) % Wrap;
            valb + 6 >= 0
            && BytesOf(vs) + [Shr(v, valb + 6) % 256] == BytesOf(vs + [x])
            && DecoderState(vs + [x], v, valb + 6 - 8)
  {
    Mod4Next(|vs|);
    ThirdDigitBytes(vs, x);
    ThirdDigitBits(val, vs[|vs| - 1], x);
    assert valb + 6 == 2;
  }

  lemma {:induction false} DecodeFourthDigit(vs: seq<sextet>, x: sextet, val: nat, valb: int)
    requires |vs| % 4 == 3 && DecoderState(vs, val, valb)
    ensures var v := (val * 64 + x) % Wrap;
            valb + 6 >= 0
            && BytesOf(vs) + [Shr(v, valb + 6) % 256] == BytesOf(vs + [x])
            && DecoderState(vs + [x], v, valb + 6 - 8)
  {
    Mod4Next(|vs|);
    FourthDigitBytes(vs, x);
    FourthDigitBits(val, vs[|vs| - 1], x);
    assert valb + 6 == 0;
  }

  /** One digit of the decoder: the accumulator takes it and, once eight bits are
      available, one byte is emitted. */
  lemma {:induction false} DecodeDigit(vs: seq<sextet>, x: sextet, val: nat, valb: int)
    requires DecoderState(vs, val, valb)
    ensures var v := (val * 64 + x) % Wrap;
            var b := valb + 6;
            (b >= 0 ==> BytesOf(vs) + [Shr(v, b) % 256] == BytesOf(vs + [x])
                        && DecoderState(vs + [x], v, b - 8))
            && (b < 0 ==> BytesOf(vs) == BytesOf(vs + [x]) && DecoderState(vs + [x], v, b))
  {
    if |vs| % 4 == 0 {
      DecodeFirstDigit(vs, x, val, valb);
    } else if |vs| % 4 == 1 {
      DecodeSecondDigit(vs, x, val, valb);
    } else if |vs| % 4 == 2 {
      DecodeThirdDigit(vs, x, val, valb);
    } else {
      DecodeFourthDigit(vs, x, val, valb);
    }
  }

  lemma {:induction false} ValuesSnoc(s: string, i: nat)
    requires i < |s| && AllBase64(s[..i]) && IsBase64(s[i])
    ensures AllBase64(s[..i + 1]) && Values(s[..i + 1]) == Values(s[..i]) + [Index(s[i])]
  {
    assert s[..i + 1][..i] == s[..i];
  }

  /** base64_decode: digits are consumed until the first '=' (break) or the first
      character outside the alphabet (early return); both keep what was decoded. */
  method Decode(encoded: string) returns (decoded: seq<byte>)
    ensures decoded == Decoding(encoded)
  {
    decoded := [];
    ghost var vals: seq<sextet> := [];
    var val: nat := 0;
    var valb: int := -8;
    var i := 0;
    while i < |encoded|
      invariant i <= |encoded| && val < Wrap
      invariant AllBase64(encoded[..i]) && vals == Values(encoded[..i])
      invariant DecoderState(vals, val, valb)
      invariant decoded == BytesOf(vals)
    {
      var c := encoded[i];
      if !IsBase64(c) && c != Pad {
        ValidPrefixAt(encoded, i);
        return;
      }
      if c == Pad {
        IsBase64Alphabet(c);
        ValidPrefixAt(encoded, i);
        return;
      }
      vals, val, valb, decoded := DecodeOne(encoded, i, vals, val, valb, decoded);
      i := i + 1;
    }
    ValidPrefixAt(encoded, i);
  }

  /** One alphabet character of the decoding loop: the accumulator takes its six bits
      and, once a whole byte is available, emits it. */
  method DecodeOne(encoded: string, i: nat, ghost vals: seq<sextet>, val: nat, valb: int, decoded: seq<byte>)
    returns (ghost vals': seq<sextet>, val': nat, valb': int, decoded': seq<byte>)
    requires i < |encoded| && IsBase64(encoded[i]) && val < Wrap
    requires AllBase64(encoded[..i]) && vals == Values(encoded[..i])
    requires DecoderState(vals, val, valb) && decoded == BytesOf(vals)
    ensures val' < Wrap && AllBase64(encoded[..i + 1]) && vals' == Values(encoded[..i + 1])
    ensures DecoderState(vals', val', valb') && decoded' == BytesOf(vals')
  {
    ValuesSnoc(encoded, i);
    var x := Index(encoded[i]);
    DecodeDigit(vals, x, val, valb);
    val' := (val * 64 + x) % Wrap;
    valb' := valb + 6;
    vals' := vals + [x];
    decoded' := decoded;
    if valb' >= 0 {
      decoded' := decoded + [Shr(val', valb') % 256];
      valb' := valb' - 8;
    }
  }

  // ---------------------------------------------------------------------------
  // The test vectors of section 10 of RFC 4648.

  /** The empty input encodes to the empty string. */
  lemma {:induction false} EmptyVector()
    ensures Encoding([]) == ""
  {
  }

  /** "f" is "Zg==": a group of one byte takes two '='. */
  lemma {:induction false} OneByteVector()
    ensures Encoding([0x66]) == "Zg=="
  {
    OneByteSextets();
    SpellZg();
    assert Pads(2) == "==";
  }

  lemma {:induction false} OneByteSextets()
    ensures Sextets([0x66]) == [25, 32]
  {
    var d: seq<byte> := [0x66];
    assert d[..0] == [] && d[0..] == d;
    assert TailValues(d) == [25, 32];
  }

  lemma {:induction false} SpellZg()
    ensures Spell([25, 32]) == "Zg"
  {
    SpellSnoc([], 25);
    SpellSnoc([25], 32);
    assert [25] + [32] == [25, 32];
  }

  /** "fo" is "Zm8=": a group of two bytes takes one '='. */
  lemma {:induction false} TwoByteVector()
    ensures Encoding([0x66, 0x6f]) == "Zm8="
  {
    TwoByteSextets();
    SpellZm8();
    assert Pads(1) == "=";
  }

  lemma {:induction false} TwoByteSextets()
    ensures Sextets([0x66, 0x6f]) == [25, 38, 60]
  {
    var d: seq<byte> := [0x66, 0x6f];
    assert d[..0] == [] && d[0..] == d;
    assert TailValues(d) == [25, 38, 60];
  }

  lemma {:induction false} SpellZm8()
    ensures Spell([25, 38, 60]) == "Zm8"
  {
    SpellSnoc([], 25);
    SpellSnoc([25], 38);
    SpellSnoc([25, 38], 60);
    assert [25] + [38] == [25, 38];
    assert [25, 38] + [60] == [25, 38, 60];
  }

  /** "foo" is "Zm9v": a whole group takes no padding. */
  lemma {:induction false} ThreeByteVector()
    ensures Encoding([0x66, 0x6f, 0x6f]) == "Zm9v"
  {
    ThreeByteSextets();
    SpellFoo();
    assert Pads(Padding(3)) == [];
  }

  lemma {:induction false} ThreeByteSextets()
    ensures Sextets([0x66, 0x6f, 0x6f]) == [25, 38, 61, 47]
  {
    var d: seq<byte> := [0x66, 0x6f, 0x6f];
    assert d[..3] == d && d[3..] == [] && d[..0] == [];
    assert GroupValues(d) == [25, 38, 61, 47];
  }

  lemma {:induction false} SpellFoo()
    ensures Spell([25, 38, 61, 47]) == "Zm9v"
  {
    SpellSnoc([], 25);
    SpellSnoc([25], 38);
    SpellSnoc([25, 38], 61);
    SpellSnoc([25, 38, 61], 47);
    assert Spell([25, 38, 61]) == "Zm9";
    assert [25, 38, 61] + [47] == [25, 38, 61, 47];
  }

  /** "foob" is "Zm9vYg==": a whole group, then a group of one byte. */
  lemma {:induction false} FourByteVector()
    ensures Encoding([0x66, 0x6f, 0x6f, 0x62]) == "Zm9vYg=="
  {
    FourByteSextets();
    SpellFooThen([24, 32], "Yg");
    assert Pads(2) == "==";
  }

  lemma {:induction false} FourByteSextets()
    ensures Sextets([0x66, 0x6f, 0x6f, 0x62]) == [25, 38, 61, 47] + [24, 32]
  {
    var d: seq<byte> := [0x66, 0x6f, 0x6f, 0x62];
    assert d[..3] == [0x66, 0x6f, 0x6f] && d[3..] == [0x62];
    FooGroup();
    var t: seq<byte> := [0x62];
    assert t[..0] == [] && t[0..] == t;
    assert TailValues(t) == [24, 32];
  }

  /** "fooba" is "Zm9vYmE=": a whole group, then a group of two bytes. */
  lemma {:induction false} FiveByteVector()
    ensures Encoding([0x66, 0x6f, 0x6f, 0x62, 0x61]) == "Zm9vYmE="
  {
    FiveByteSextets();
    SpellFooThen([24, 38, 4], "YmE");
    assert Pads(1) == "=";
  }

  lemma {:induction false} FiveByteSextets()
    ensures Sextets([0x66, 0x6f, 0x6f, 0x62, 0x61]) == [25, 38, 61, 47] + [24, 38, 4]
  {
    var d: seq<byte> := [0x66, 0x6f, 0x6f, 0x62, 0x61];
    assert d[..3] == [0x66, 0x6f, 0x6f] && d[3..] == [0x62, 0x61];
    FooGroup();
    var t: seq<byte> := [0x62, 0x61];
    assert t[..0] == [] && t[0..] == t;
    assert TailValues(t) == [24, 38, 4];
  }

  /** "foobar" is "Zm9vYmFy": two whole groups and no padding. */
  lemma {:induction false} SixByteVector()
    ensures Encoding([0x66, 0x6f, 0x6f, 0x62, 0x61, 0x72]) == "Zm9vYmFy"
  {
    SixByteSextets();
    SpellFooThen([24, 38, 5, 50], "YmFy");
    assert Pads(Padding(6)) == [];
  }

  lemma {:induction false} SixByteSextets()
    ensures Sextets([0x66, 0x6f, 0x6f, 0x62, 0x61, 0x72]) == [25, 38, 61, 47] + [24, 38, 5, 50]
  {
    var d: seq<byte> := [0x66, 0x6f, 0x6f, 0x62, 0x61, 0x72];
    assert d[..6] == d && d[6..] == [] && d[..|d| - 3] == [0x66, 0x6f, 0x6f];
    FooGroup();
    assert QuadValues(0x62, 0x61, 0x72) == [24, 38, 5, 50];
  }

  /** The whole group "foo" gives the digits of "Zm9v". */
  lemma {:induction false} FooGroup()
    ensures GroupValues([0x66, 0x6f, 0x6f]) == [25, 38, 61, 47]
  {
    var d: seq<byte> := [0x66, 0x6f, 0x6f];
    assert d[..0] == [];
  }

  /** "Zm9v" followed by the spelling of the digits vs, at most four of them. */
  lemma {:induction false} SpellFooThen(vs: seq<sextet>, r: string)
    requires |vs| <= 4 && |r| == |vs|
    requires forall i :: 0 <= i < |vs| ==> r[i] == Digit(vs[i])
    ensures Spell([25, 38, 61, 47] + vs) == "Zm9v" + r
  {
    SpellConcat([25, 38, 61, 47], vs);
    SpellFoo();
    SpellAtAll(vs, r);
  }

  /** A string that spells vs character by character is its spelling. */
  lemma {:induction false} SpellAtAll(vs: seq<sextet>, r: string)
    requires |r| == |vs|
    requires forall i :: 0 <= i < |vs| ==> r[i] == Digit(vs[i])
    ensures Spell(vs) == r
  {
    SpellAt(vs);
  }
}
