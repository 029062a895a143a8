/** Fixed-width Crockford base-32 encoding and the ordering of the identifiers built from it. */
module Ulid {
  const ALPHABET := "0123456789ABCDEFGHJKMNPQRSTVWXYZ"
  const TIMESTAMP_LEN := 10
  const RANDOMNESS_LEN := 16

  function Digit(d: nat): char
    requires d < 32
  {
    ALPHABET[d]
  }

  function Pow32(n: nat): (r: nat)
    ensures r > 0
  {
    if n == 0 then 1 else 32 * Pow32(n - 1)
  }

  // The last `length` base-32 digits of a value, most significant first.
  function Digits(value: nat, length: nat): (ds: seq<nat>)
    ensures |ds| == length && forall i :: 0 <= i < length ==> ds[i] < 32
  {
    if length == 0 then [] else Digits(value / 32, length - 1) + [value % 32]
  }

  function Spell(ds: seq<nat>): (s: string)
    requires forall i :: 0 <= i < |ds| ==> ds[i] < 32
    ensures |s| == |ds| && forall i :: 0 <= i < |ds| ==> s[i] == Digit(ds[i])
  {
    seq(|ds|, i requires 0 <= i < |ds| => Digit(ds[i]))
  }

  function Encoded(value: nat, length: nat): (s: string)
    ensures |s| == length
  {
    Spell(Digits(value, length))
  }

  // Filled from the right, five bits at a time.
  method Encode(value: nat, length: nat) returns (text: string)
    ensures text == Encoded(value, length)
  {
    var chars := new char[length](_ => ' ');
    var v := value;
    var i := length;
    ghost var ds := Digits(value, length);
    while i > 0
      invariant 0 <= i <= length
      invariant ds[..i] == Digits(v, i)
      invariant forall k :: i <= k < length ==> chars[k] == Digit(ds[k])
    {
      i := i - 1;
      chars[i] := ALPHABET[v % 32];
      assert ds[..i + 1][i] == v % 32 && ds[..i] == ds[..i + 1][..i] == Digits(v / 32, i);
      v := v / 32;
    }
    text := chars[..];
  }

  newtype Byte = x: int | 0 <= x < 256

  function FromBytes(bytes: seq<Byte>): nat {
    if bytes == [] then 0 else 256 * FromBytes(bytes[..|bytes| - 1]) + bytes[|bytes| - 1] as nat
  }

  function UlidOf(timestamp: nat, randomness: nat): (s: string)
    ensures |s| == 26
  {
    Encoded(timestamp, TIMESTAMP_LEN) + Encoded(randomness, RANDOMNESS_LEN)
  }

  // What one call returns, given the clock in nanoseconds and the random bytes.
  function Identifier(timeNs: nat, random: seq<Byte>): string {
    UlidOf(timeNs / 1_000_000, FromBytes(random))
  }

  method NewUlid(timeNs: nat, random: seq<Byte>) returns (id: string)
    ensures id == Identifier(timeNs, random)
  {
    var timestampPart := Encode(timeNs / 1_000_000, TIMESTAMP_LEN);
    var randomnessPart := Encode(FromBytes(random), RANDOMNESS_LEN);
    id := timestampPart + randomnessPart;
  }

  // ----- decoding -----

  function Value(ds: seq<nat>): nat {
    if ds == [] then 0 else 32 * Value(ds[..|ds| - 1]) + ds[|ds| - 1]
  }

  // The index of a character in the alphabet, or 32 when it is not in it.
  function DigitOf(c: char, from: nat := 0): (d: nat)
    requires from <= |ALPHABET|
    ensures from <= d <= 32 && (d < 32 ==> Digit(d) == c)
    ensures forall e :: from <= e < d ==> Digit(e) != c
    decreases |ALPHABET| - from
  {
    if from == |ALPHABET| || ALPHABET[from] == c then from else DigitOf(c, from + 1)
  }

  function Decoded(text: string): nat {
    Value(seq(|text|, i requires 0 <= i < |text| => DigitOf(text[i])))
  }

  // The alphabet leaves out I, L, O and U.
  lemma DigitCode(d: nat)
    requires d < 32
    ensures Digit(d) as int == d + if d < 10 then 48 else if d < 18 then 55 else if d < 20 then 56
                                   else if d < 22 then 57 else if d < 27 then 58 else 59
  {
  }

  lemma AlphabetAscends(d: nat, e: nat)
    requires d < 32 && e < 32
    ensures Digit(d) < Digit(e) <==> d < e
    ensures Digit(d) == Digit(e) <==> d == e
  {
    hide Digit;
    DigitCode(d);
    DigitCode(e);
  }

  lemma DigitRoundTrip(d: nat)
    requires d < 32
    ensures DigitOf(Digit(d)) == d
  {
    var found := DigitOf(Digit(d));
    if found < 32 {
      AlphabetAscends(found, d);
    }
  }

  lemma {:induction false} MulAtLeast(q: nat, r: nat, m: nat)
    ensures q < r ==> r * m >= q * m + m
    decreases r
  {
    if q + 1 < r {
      MulAtLeast(q, r - 1, m);
    }
  }

  lemma RemainderIsUnique(a: nat, m: nat, q: nat, r: nat)
    requires r < m && a == q * m + r
    ensures a % m == r
  {
    MulAtLeast(q, a / m, m);
    MulAtLeast(a / m, q, m);
  }

  lemma ShiftedRemainder(value: nat, p: nat)
    requires p > 0
    ensures value % (32 * p) == 32 * ((value / 32) % p) + value % 32
  {
    var v := value / 32;
    var q, r := v / p, v % p;
    assert v == q * p + r;
    assert q * (32 * p) == 32 * (q * p);
    RemainderIsUnique(value, 32 * p, q, 32 * r + value % 32);
  }

  lemma {:induction false} DigitsHaveTheValue(value: nat, length: nat)
    ensures Value(Digits(value, length)) == value % Pow32(length)
  {
    if length > 0 {
      DigitsHaveTheValue(value / 32, length - 1);
      assert Digits(value, length)[..length - 1] == Digits(value / 32, length - 1);
      ShiftedRemainder(value, Pow32(length - 1));
    }
  }

  /** Decoding an encoded value gives it back modulo 32 to the width: exactly, below that bound. */
  lemma EncodingRoundTrip(value: nat, length: nat)
    ensures Decoded(Encoded(value, length)) == value % Pow32(length)
  {
    var text, ds := Encoded(value, length), Digits(value, length);
    forall i | 0 <= i < length
      ensures DigitOf(text[i]) == ds[i]
    {
      DigitRoundTrip(ds[i]);
    }
    assert seq(|text|, i requires 0 <= i < |text| => DigitOf(text[i])) == ds;
    DigitsHaveTheValue(value, length);
  }

  // ----- ordering -----

  // Python's `<` on strings.
  predicate LexLess(a: string, b: string) {
    b != "" && (a == "" || a[0] < b[0] || (a[0] == b[0] && LexLess(a[1..], b[1..])))
  }

  lemma {:induction false} ValueFromFront(ds: seq<nat>)
    requires ds != [] && forall i :: 0 <= i < |ds| ==> ds[i] < 32
    ensures Value(ds) == ds[0] * Pow32(|ds| - 1) + Value(ds[1..])
    ensures Value(ds[1..]) < Pow32(|ds| - 1)
  {
    if |ds| > 1 {
      var front, last := ds[..|ds| - 1], ds[|ds| - 1];
      ValueFromFront(front);
      assert ds[1..][..|ds| - 2] == front[1..];
      var p := Pow32(|ds| - 2);
      assert Value(ds) == 32 * (ds[0] * p + Value(front[1..])) + last;
      assert 32 * (ds[0] * p) == ds[0] * (32 * p);
    }
  }

  lemma LexLessFront(x: char, s: string, y: char, t: string)
    ensures LexLess([x] + s, [y] + t) <==> x < y || (x == y && LexLess(s, t))
    ensures [x] + s == [y] + t <==> x == y && s == t
  {
    assert ([x] + s)[1..] == s && ([y] + t)[1..] == t;
  }

  lemma SpellFront(ds: seq<nat>)
    requires ds != [] && forall i :: 0 <= i < |ds| ==> ds[i] < 32
    ensures Spell(ds) == [Digit(ds[0])] + Spell(ds[1..])
  {
  }

  lemma {:induction false} SpellingOrder(ds: seq<nat>, es: seq<nat>)
    requires |ds| == |es|
    requires forall i :: 0 <= i < |ds| ==> ds[i] < 32 && es[i] < 32
    ensures LexLess(Spell(ds), Spell(es)) <==> Value(ds) < Value(es)
    ensures Spell(ds) == Spell(es) <==> Value(ds) == Value(es)
  {
    if ds == [] {
      assert es == [];
    } else {
      hide Digit, Pow32, Value, LexLess, Spell;
      AlphabetAscends(ds[0], es[0]);
      ValueFromFront(ds);
      ValueFromFront(es);
      SpellingOrder(ds[1..], es[1..]);
      SpellFront(ds);
      SpellFront(es);
      LexLessFront(Digit(ds[0]), Spell(ds[1..]), Digit(es[0]), Spell(es[1..]));
      LeadingDigitDecides(ds[0], es[0], Pow32(|ds| - 1), Value(ds[1..]), Value(es[1..]));
    }
  }

  lemma LeadingDigitDecides(d: nat, e: nat, p: nat, x: nat, y: nat)
    requires x < p && y < p
    ensures d * p + x < e * p + y <==> d < e || (d == e && x < y)
    ensures d * p + x == e * p + y <==> d == e && x == y
  {
    if d < e {
      assert e * p >= (d + 1) * p;
    } else if d > e {
      assert d * p >= (e + 1) * p;
    }
  }

  lemma {:induction false} LexLessOfParts(a: string, b: string, c: string, d: string)
    requires |a| == |c|
    ensures LexLess(a + b, c + d) <==> LexLess(a, c) || (a == c && LexLess(b, d))
  {
    if a == "" {
      assert a + b == b && c + d == d;
    } else {
      assert (a + b)[1..] == a[1..] + b && (c + d)[1..] == c[1..] + d;
      LexLessOfParts(a[1..], b, c[1..], d);
      assert a == [a[0]] + a[1..] && c == [c[0]] + c[1..];
    }
  }

  // The identifiers compare as their timestamps and random parts do, each modulo its width.
  lemma UlidOrderModulo(t1: nat, r1: nat, t2: nat, r2: nat)
    ensures var (a, b) := (t1 % Pow32(TIMESTAMP_LEN), t2 % Pow32(TIMESTAMP_LEN));
            var (x, y) := (r1 % Pow32(RANDOMNESS_LEN), r2 % Pow32(RANDOMNESS_LEN));
            && (LexLess(UlidOf(t1, r1), UlidOf(t2, r2)) <==> a < b || (a == b && x < y))
            && (UlidOf(t1, r1) == UlidOf(t2, r2) <==> a == b && x == y)
  {
    hide Spell, Digits, Value, Pow32, LexLess;
    var e1, e2 := Encoded(t1, TIMESTAMP_LEN), Encoded(t2, TIMESTAMP_LEN);
    var f1, f2 := Encoded(r1, RANDOMNESS_LEN), Encoded(r2, RANDOMNESS_LEN);
    DigitsHaveTheValue(t1, TIMESTAMP_LEN);
    DigitsHaveTheValue(t2, TIMESTAMP_LEN);
    DigitsHaveTheValue(r1, RANDOMNESS_LEN);
    DigitsHaveTheValue(r2, RANDOMNESS_LEN);
    SpellingOrder(Digits(t1, TIMESTAMP_LEN), Digits(t2, TIMESTAMP_LEN));
    SpellingOrder(Digits(r1, RANDOMNESS_LEN), Digits(r2, RANDOMNESS_LEN));
    LexLessOfParts(e1, f1, e2, f2);
    assert UlidOf(t1, r1)[..TIMESTAMP_LEN] == e1 && UlidOf(t1, r1)[TIMESTAMP_LEN..] == f1;
    assert UlidOf(t2, r2)[..TIMESTAMP_LEN] == e2 && UlidOf(t2, r2)[TIMESTAMP_LEN..] == f2;
  }

  lemma Widths()
    ensures Pow32(TIMESTAMP_LEN) == 0x4_0000_0000_0000
    ensures Pow32(RANDOMNESS_LEN) == 0x1_0000_0000_0000_0000_0000
  {
    assert Pow32(4) == 0x10_0000;
    assert Pow32(8) == 0x100_0000_0000;
    assert Pow32(12) == 0x1000_0000_0000_0000;
  }

  function Pow256(n: nat): nat {
    if n == 0 then 1 else 256 * Pow256(n - 1)
  }

  lemma {:induction false} FromFirstByte(bytes: seq<Byte>)
    requires bytes != []
    ensures FromBytes(bytes) == bytes[0] as nat * Pow256(|bytes| - 1) + FromBytes(bytes[1..])
    ensures FromBytes(bytes[1..]) < Pow256(|bytes| - 1)
  {
    if |bytes| > 1 {
      var front, last := bytes[..|bytes| - 1], bytes[|bytes| - 1] as nat;
      FromFirstByte(front);
      assert bytes[1..][..|bytes| - 2] == front[1..];
      var p := Pow256(|bytes| - 2);
      assert FromBytes(bytes) == 256 * (bytes[0] as nat * p + FromBytes(front[1..])) + last;
      assert 256 * (bytes[0] as nat * p) == bytes[0] as nat * (256 * p);
    }
  }

  // Byte strings of equal length, compared from the first byte on.
  predicate BytesLess(a: seq<Byte>, b: seq<Byte>)
    requires |a| == |b|
  {
    a != [] && (a[0] < b[0] || (a[0] == b[0] && BytesLess(a[1..], b[1..])))
  }

  // The number the bytes spell is big-endian, so it orders them from the first byte on and tells them apart.
  lemma {:induction false} BytesOrder(a: seq<Byte>, b: seq<Byte>)
    requires |a| == |b|
    ensures FromBytes(a) < FromBytes(b) <==> BytesLess(a, b)
    ensures FromBytes(a) == FromBytes(b) <==> a == b
  {
    hide Pow256;
    if a == [] {
      assert b == [];
    } else {
      FromFirstByte(a);
      FromFirstByte(b);
      BytesOrder(a[1..], b[1..]);
      LeadingDigitDecides(a[0] as nat, b[0] as nat, Pow256(|a| - 1), FromBytes(a[1..]), FromBytes(b[1..]));
      assert a == [a[0]] + a[1..] && b == [b[0]] + b[1..];
    }
  }

  lemma {:induction false} BytesBound(bytes: seq<Byte>)
    ensures FromBytes(bytes) < Pow256(|bytes|)
  {
    if bytes != [] {
      BytesBound(bytes[..|bytes| - 1]);
    }
  }

  lemma TenBytes(bytes: seq<Byte>)
    requires |bytes| == 10
    ensures FromBytes(bytes) < Pow32(RANDOMNESS_LEN)
  {
    hide FromBytes;
    Widths();
    BytesBound(bytes);
    assert Pow256(5) == 0x100_0000_0000;
    assert Pow256(10) == 0x1_0000_0000_0000_0000_0000;
  }

  lemma Milliseconds(ms: nat, ns: nat)
    requires ns < 1_000_000
    ensures (1_000_000 * ms + ns) / 1_000_000 == ms
  {
  }

  /** For clocks that fit 48 bits of milliseconds and ten random bytes, identifiers sort by millisecond, then by the
      random bytes from the first on; two of them are equal only for the same millisecond and the same bytes. */
  lemma UlidsSortByTime(ms1: nat, ns1: nat, b1: seq<Byte>, ms2: nat, ns2: nat, b2: seq<Byte>)
    requires ms1 < 0x1_0000_0000_0000 && ms2 < 0x1_0000_0000_0000 && |b1| == |b2| == 10
    requires ns1 < 1_000_000 && ns2 < 1_000_000
    ensures var (u1, u2) := (Identifier(1_000_000 * ms1 + ns1, b1), Identifier(1_000_000 * ms2 + ns2, b2));
            && (LexLess(u1, u2) <==> ms1 < ms2 || (ms1 == ms2 && BytesLess(b1, b2)))
            && (u1 == u2 <==> ms1 == ms2 && b1 == b2)
  {
    hide UlidOf, LexLess, FromBytes, BytesLess, Pow32;
    Widths();
    TenBytes(b1);
    TenBytes(b2);
    Milliseconds(ms1, ns1);
    Milliseconds(ms2, ns2);
    UlidOrderModulo(ms1, FromBytes(b1), ms2, FromBytes(b2));
    BytesOrder(b1, b2);
  }

  // The time stands in front: the first ten characters decode to the milliseconds, the others to the random number.
  lemma PartsDecode(ms: nat, ns: nat, bytes: seq<Byte>)
    requires ms < 0x1_0000_0000_0000 && ns < 1_000_000 && |bytes| == 10
    ensures var u := Identifier(1_000_000 * ms + ns, bytes);
            |u| == 26 && Decoded(u[..10]) == ms && Decoded(u[10..]) == FromBytes(bytes)
  {
    hide Decoded, Encoded, FromBytes, Pow32;
    Widths();
    TenBytes(bytes);
    Milliseconds(ms, ns);
    EncodingRoundTrip(ms, 10);
    EncodingRoundTrip(FromBytes(bytes), 16);
    var u := Identifier(1_000_000 * ms + ns, bytes);
    assert u[..10] == Encoded(ms, 10) && u[10..] == Encoded(FromBytes(bytes), 16);
  }
}
