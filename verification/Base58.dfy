/** Base58 encoding with the Bitcoin alphabet (pkg/base58).

    `Encode` is the nested carry loop over a buffer sized by the rational
    approximation 555/406 of log(256)/log(58), followed by an alphabet pass that
    reads and writes the same buffer.  It is proved against `Base58Of`: one '1' per
    leading zero byte, then the minimal base-58 digits of the big-endian number.
    `Decode` is an independent reference decoder; the two are inverse to each other.
  */
module Base58 {

  newtype uint8 = x: int | 0 <= x < 0x100
  newtype uint32 = x: int | 0 <= x < 0x1_0000_0000

  // The Bitcoin alphabet, split where it skips '0', 'I', 'O' and 'l'.
  const ALPHABET: string :=
    "123456789" + "ABCDEFGH" + "JKLMN" + "PQRSTUVWXYZ" + "abcdefghijk" + "mnopqrstuvwxyz"

  // ---------- Powers and positional numerals ----------

  function Pow(b: nat, e: nat): nat
  {
    if e == 0 then 1 else b * Pow(b, e - 1)
  }

  /** The number that the digits `s` denote in base `b`, most significant first. */
  function Value(b: nat, s: seq<nat>): nat
  {
    if s == [] then 0 else Value(b, s[..|s| - 1]) * b + s[|s| - 1]
  }

  /** The shortest digit sequence for `n` in base `b`; zero has no digits. */
  function Digits(b: nat, n: nat): seq<nat>
    requires b >= 2
  {
    if n == 0 then [] else Digits(b, n / b) + [n % b]
  }

  predicate AllBelow(b: nat, s: seq<nat>)
  {
    forall i :: 0 <= i < |s| ==> s[i] < b
  }

  /** The number of zero digits in front of `s`. */
  function LeadingZeros(s: seq<nat>): (z: nat)
    ensures z <= |s|
    ensures forall i :: 0 <= i < z ==> s[i] == 0
    ensures z < |s| ==> s[z] != 0
  {
    if s == [] || s[0] != 0 then 0 else 1 + LeadingZeros(s[1..])
  }

  function Zeros(n: nat): (s: seq<nat>)
    ensures |s| == n
    ensures forall i :: 0 <= i < n ==> s[i] == 0
  {
    if n == 0 then [] else [0] + Zeros(n - 1)
  }

  /** Change of base that keeps leading zeros one for one: the law behind both
      encoding (256 to 58) and decoding (58 to 256). */
  function Convert(from: nat, to: nat, s: seq<nat>): seq<nat>
    requires to >= 2
  {
    Zeros(LeadingZeros(s)) + Digits(to, Value(from, s))
  }

  lemma {:induction false} PowAdd(b: nat, m: nat, n: nat)
    ensures Pow(b, m + n) == Pow(b, m) * Pow(b, n)
  {
    if m == 0 {
    } else {
      PowAdd(b, m - 1, n);
      assert Pow(b, m + n) == b * (Pow(b, m - 1) * Pow(b, n));
    }
  }

  lemma {:induction false} PowMul(b: nat, m: nat, n: nat)
    ensures Pow(b, m * n) == Pow(Pow(b, m), n)
  {
    if n == 0 {
    } else {
      PowMul(b, m, n - 1);
      assert m * n == m + m * (n - 1);
      PowAdd(b, m, m * (n - 1));
    }
  }

  lemma MulGap(b: nat, x: nat, y: nat)
    requires x < y
    ensures b * x + b <= b * y
  {
    var k := y - x - 1;
    assert b * (x + 1 + k) == b * x + b + b * k;
  }

  lemma MulMono(a: nat, b: nat, x: nat, y: nat)
    requires a <= b && x <= y
    ensures a * x <= b * y
  {
    assert a * x <= b * x;
    assert b * x <= b * y;
  }

  lemma {:induction false} PowMonoBase(a: nat, b: nat, e: nat)
    requires a <= b
    ensures Pow(a, e) <= Pow(b, e)
  {
    if e == 0 {
    } else {
      PowMonoBase(a, b, e - 1);
      MulMono(a, b, Pow(a, e - 1), Pow(b, e - 1));
    }
  }

  lemma {:induction false} PowPositive(b: nat, e: nat)
    requires b >= 1
    ensures Pow(b, e) >= 1
  {
    if e == 0 {
    } else {
      PowPositive(b, e - 1);
    }
  }

  lemma {:induction false} PowMonoExp(b: nat, m: nat, n: nat)
    requires b >= 1 && m <= n
    ensures Pow(b, m) <= Pow(b, n)
  {
    if m == n {
    } else {
      PowMonoExp(b, m, n - 1);
      assert Pow(b, n - 1) <= b * Pow(b, n - 1);
    }
  }

  lemma {:induction false} PowStrictExp(b: nat, m: nat, n: nat)
    requires b >= 2 && m < n
    ensures Pow(b, m) < Pow(b, n)
  {
    PowMonoExp(b, m, n - 1);
    PowPositive(b, n - 1);
  }

  // ---------- The buffer is long enough ----------

  /** 41 base-58 digits hold 30 bytes. */
  lemma ThirtyBytes()
    ensures Pow(256, 30) <= Pow(58, 41)
  {
    PowMul(256, 5, 6);
    assert Pow(256, 5) == 0x100_0000_0000;
    PowMul(58, 4, 10);
    assert Pow(58, 4) == 11316496;
    PowAdd(58, 40, 1);
    assert Pow(11316496, 10) == 11316496 * 11316496 * 11316496 * 11316496 * 11316496
             * 11316496 * 11316496 * 11316496 * 11316496 * 11316496;
    assert Pow(0x100_0000_0000, 6) == 0x100_0000_0000 * 0x100_0000_0000 * 0x100_0000_0000
             * 0x100_0000_0000 * 0x100_0000_0000 * 0x100_0000_0000;
  }

  /** The cells reserved for `m` significant bytes: m*555/406 + 1. */
  function Cells(m: nat): nat
  {
    m * 555 / 406 + 1
  }

  /** The sizing inequality: the reserved cells hold every `m`-byte number. */
  lemma {:induction false} CellsSuffice(m: nat)
    ensures Pow(256, m) < Pow(58, Cells(m))
  {
    var l := Cells(m);
    assert 30 * l > 41 * m;
    if Pow(58, l) <= Pow(256, m) {
      calc {
        Pow(58, l * 30);
        { PowMul(58, l, 30); }
        Pow(Pow(58, l), 30);
      <= { PowMonoBase(Pow(58, l), Pow(256, m), 30); }
        Pow(Pow(256, m), 30);
        { PowMul(256, m, 30); assert m * 30 == 30 * m; PowMul(256, 30, m); }
        Pow(Pow(256, 30), m);
      <= { ThirtyBytes(); PowMonoBase(Pow(256, 30), Pow(58, 41), m); }
        Pow(Pow(58, 41), m);
        { PowMul(58, 41, m); }
        Pow(58, 41 * m);
      < { PowStrictExp(58, 41 * m, l * 30); }
        Pow(58, l * 30);
      }
    }
  }

  // ---------- Numerals: minimal digits and change of base ----------

  lemma SmallerQuotient(b: nat, q: nat, n: nat)
    requires b >= 2 && n > 0 && b * q <= n
    ensures q < n
  {
    MulGap(q, 1, b);
  }

  lemma DivMod(b: nat, n: nat)
    requires b >= 2 && n > 0
    ensures n / b * b + n % b == n && n % b < b && n / b < n
  {
    assert b * (n / b) + n % b == n;
    SmallerQuotient(b, n / b, n);
  }

  lemma ValueSnoc(b: nat, s: seq<nat>, d: nat)
    ensures Value(b, s + [d]) == Value(b, s) * b + d
  {
    assert (s + [d])[..|s|] == s;
  }

  lemma {:induction false} ValueDigits(b: nat, n: nat)
    requires b >= 2
    ensures Value(b, Digits(b, n)) == n
    ensures AllBelow(b, Digits(b, n))
    ensures n > 0 ==> Digits(b, n) != [] && Digits(b, n)[0] != 0
  {
    if n == 0 {
    } else {
      DivMod(b, n);
      ValueDigits(b, n / b);
      ValueSnoc(b, Digits(b, n / b), n % b);
    }
  }

  lemma {:induction false} ValueCons(b: nat, d: nat, s: seq<nat>)
    ensures Value(b, [d] + s) == d * Pow(b, |s|) + Value(b, s)
  {
    if s == [] {
      assert ([d] + s)[..0] == [];
    } else {
      var front, last := s[..|s| - 1], s[|s| - 1];
      assert s == front + [last] && [d] + s == ([d] + front) + [last];
      ValueCons(b, d, front);
      ValueSnoc(b, front, last);
      ValueSnoc(b, [d] + front, last);
      Distribute(d, Pow(b, |front|), Value(b, front), b);
    }
  }

  lemma Distribute(d: nat, p: nat, v: nat, b: nat)
    ensures (d * p + v) * b == d * (b * p) + v * b
  {
  }

  lemma {:induction false} ValueBound(b: nat, s: seq<nat>)
    requires AllBelow(b, s)
    ensures Value(b, s) < Pow(b, |s|)
  {
    if s == [] {
    } else {
      ValueBound(b, s[..|s| - 1]);
      MulGap(b, Value(b, s[..|s| - 1]), Pow(b, |s| - 1));
    }
  }

  /** Leading zeros do not count. */
  lemma {:induction false} ValueDropZeros(b: nat, s: seq<nat>, z: nat)
    requires z <= |s| && forall i :: 0 <= i < z ==> s[i] == 0
    ensures Value(b, s) == Value(b, s[z..])
  {
    if z > 0 {
      ValueDropZeros(b, s, z - 1);
      assert s[z - 1..] == [0] + s[z..];
      ValueCons(b, 0, s[z..]);
    } else {
      assert s[0..] == s;
    }
  }

  lemma {:induction false} ValuePositive(b: nat, s: seq<nat>)
    requires b >= 1 && s != [] && s[0] != 0
    ensures Value(b, s) > 0
  {
    assert s == [s[0]] + s[1..];
    ValueCons(b, s[0], s[1..]);
    PowPositive(b, |s| - 1);
  }

  /** A numeral without leading zeros is the minimal one for its value. */
  lemma {:induction false} DigitsValue(b: nat, s: seq<nat>)
    requires b >= 2 && AllBelow(b, s)
    requires s == [] || s[0] != 0
    ensures Digits(b, Value(b, s)) == s
  {
    if s == [] {
    } else {
      var front, last := s[..|s| - 1], s[|s| - 1];
      DigitsValue(b, front);
      ValuePositive(b, s);
      QuotientRemainder(b, Value(b, front), last);
    }
  }

  lemma {:induction false} QuotientRemainder(b: nat, q: nat, r: nat)
    requires r < b
    ensures (q * b + r) / b == q && (q * b + r) % b == r
  {
    var x, y := (q * b + r) / b, (q * b + r) % b;
    assert b * x + y == q * b + r;
    SameQuotient(b, x, y, q, r);
  }

  lemma SameQuotient(b: nat, x: nat, y: nat, q: nat, r: nat)
    requires b * x + y == b * q + r && y < b && r < b
    ensures x == q
  {
    if x > q { MulGap(b, q, x); }
    if x < q { MulGap(b, x, q); }
  }

  /** Changing base and changing back is the identity, leading zeros included. */
  lemma {:induction false} ConvertInverse(from: nat, to: nat, s: seq<nat>)
    requires from >= 2 && to >= 2 && AllBelow(from, s)
    ensures AllBelow(to, Convert(from, to, s))
    ensures LeadingZeros(Convert(from, to, s)) == LeadingZeros(s)
    ensures Value(to, Convert(from, to, s)) == Value(from, s)
    ensures Convert(to, from, Convert(from, to, s)) == s
  {
    ConvertShape(from, to, s);
    ConvertValue(from, to, s);
    MinimalTail(from, s);
  }

  lemma {:induction false} ConvertValue(from: nat, to: nat, s: seq<nat>)
    requires from >= 2 && to >= 2
    ensures Value(to, Convert(from, to, s)) == Value(from, s)
  {
    var z, t := LeadingZeros(s), Convert(from, to, s);
    ValueDropZeros(to, t, z);
    assert t[z..] == Digits(to, Value(from, s));
    ValueDigits(to, Value(from, s));
  }

  /** A numeral is its leading zeros and the minimal digits of its value. */
  lemma {:induction false} MinimalTail(b: nat, s: seq<nat>)
    requires b >= 2 && AllBelow(b, s)
    ensures s == Zeros(LeadingZeros(s)) + Digits(b, Value(b, s))
  {
    var z := LeadingZeros(s);
    ValueDropZeros(b, s, z);
    DigitsValue(b, s[z..]);
    assert Zeros(z) + s[z..] == s;
  }

  lemma {:induction false} ConvertShape(from: nat, to: nat, s: seq<nat>)
    requires from >= 2 && to >= 2
    ensures AllBelow(to, Convert(from, to, s))
    ensures LeadingZeros(Convert(from, to, s)) == LeadingZeros(s)
    ensures Convert(from, to, s)[LeadingZeros(s)..] == Digits(to, Value(from, s))
  {
    var z, v := LeadingZeros(s), Value(from, s);
    ValueDigits(to, v);
    ValueDropZeros(from, s, z);
    if z == |s| {
      assert s[z..] == [];
    } else {
      ValuePositive(from, s[z..]);
    }
    LeadingZerosUnique(Convert(from, to, s), z);
  }

  lemma {:induction false} LeadingZerosUnique(s: seq<nat>, z: nat)
    requires z <= |s| && (forall i :: 0 <= i < z ==> s[i] == 0) && (z < |s| ==> s[z] != 0)
    ensures LeadingZeros(s) == z
  {
    if z == 0 {
    } else {
      LeadingZerosUnique(s[1..], z - 1);
    }
  }

  // ---------- Bytes, digits and characters ----------

  function Nats(s: seq<uint8>): (r: seq<nat>)
    ensures |r| == |s|
    ensures forall i :: 0 <= i < |s| ==> r[i] == s[i] as nat
    ensures AllBelow(256, r)
  {
    seq(|s|, i requires 0 <= i < |s| => s[i] as nat)
  }

  function Bytes(s: seq<nat>): (r: seq<uint8>)
    requires AllBelow(256, s)
    ensures |r| == |s|
    ensures Nats(r) == s
  {
    seq(|s|, i requires 0 <= i < |s| => s[i] as uint8)
  }

  function Chars(s: seq<nat>): (r: string)
    requires AllBelow(58, s)
    ensures |r| == |s|
    ensures forall i :: 0 <= i < |s| ==> r[i] == ALPHABET[s[i]]
  {
    seq(|s|, i requires 0 <= i < |s| => ALPHABET[s[i]])
  }

  /** The digit a character stands for, by the gaps of the Bitcoin alphabet
      (no '0', 'I', 'O', 'l'); -1 for every other character. */
  function DigitOf(c: char): int
  {
    if '1' <= c <= '9' then c as int - '1' as int
    else if 'A' <= c <= 'H' then c as int - 'A' as int + 9
    else if 'J' <= c <= 'N' then c as int - 'J' as int + 17
    else if 'P' <= c <= 'Z' then c as int - 'P' as int + 22
    else if 'a' <= c <= 'k' then c as int - 'a' as int + 33
    else if 'm' <= c <= 'z' then c as int - 'm' as int + 44
    else -1
  }

  lemma AlphabetDigits()
    ensures |ALPHABET| == 58
    ensures forall k :: 0 <= k < 58 ==> DigitOf(ALPHABET[k]) == k && ALPHABET[k] < 128 as char
  {
    AlphabetUpper();
    AlphabetLower();
  }

  lemma AlphabetUpper()
    ensures |ALPHABET| == 58
    ensures forall k :: 0 <= k < 33 ==> DigitOf(ALPHABET[k]) == k && ALPHABET[k] < 128 as char
  {
  }

  lemma AlphabetLower()
    ensures forall k :: 33 <= k < 58 ==> DigitOf(ALPHABET[k]) == k && ALPHABET[k] < 128 as char
  {
  }

  lemma DigitOfInjective(c: char)
    requires DigitOf(c) >= 0
    ensures DigitOf(c) < 58 && ALPHABET[DigitOf(c)] == c
  {
    AlphabetDigits();
    var k := DigitOf(c);
    assert DigitOf(ALPHABET[k]) == DigitOf(c);
  }

  // ---------- Encoding, decoding, and the round trips ----------

  /** What the encoding is: one '1' per leading zero byte, then the minimal base-58
      digits of the big-endian number, in alphabet characters. */
  function Base58Of(buf: seq<uint8>): string
  {
    var d := Convert(256, 58, Nats(buf));
    ConvertInverse(256, 58, Nats(buf));
    Chars(d)
  }

  predicate IsBase58(s: string)
  {
    forall i :: 0 <= i < |s| ==> DigitOf(s[i]) >= 0
  }

  function CharDigits(s: string): (d: seq<nat>)
    requires IsBase58(s)
    ensures |d| == |s| && AllBelow(58, d)
    ensures forall i :: 0 <= i < |s| ==> d[i] == DigitOf(s[i])
  {
    seq(|s|, i requires 0 <= i < |s| => DigitOf(s[i]))
  }

  /** Reference decoder: one zero byte per leading '1', then the minimal bytes of the
      base-58 number. */
  function Decode(s: string): seq<uint8>
    requires IsBase58(s)
  {
    var d := Convert(58, 256, CharDigits(s));
    ConvertInverse(58, 256, CharDigits(s));
    Bytes(d)
  }

  /** The characters of digits stand for those digits, and '1' for zero. */
  lemma CharsDigits(d: seq<nat>)
    requires AllBelow(58, d)
    ensures IsBase58(Chars(d)) && CharDigits(Chars(d)) == d
    ensures forall i :: 0 <= i < |d| ==> (Chars(d)[i] == '1' <==> d[i] == 0)
  {
    AlphabetDigits();
    assert DigitOf('1') == 0;
    forall i | 0 <= i < |d| ensures DigitOf(Chars(d)[i]) == d[i] && (Chars(d)[i] == '1' <==> d[i] == 0) {
      assert Chars(d)[i] == ALPHABET[d[i]];
    }
  }

  /** Exactly one leading '1' per leading zero byte, and the same number throughout. */
  lemma EncodingShape(buf: seq<uint8>)
    ensures var s, z := Base58Of(buf), LeadingZeros(Nats(buf));
            && IsBase58(s) && z <= |s|
            && (forall i :: 0 <= i < z ==> s[i] == '1')
            && (z < |s| ==> s[z] != '1')
            && Value(58, CharDigits(s)) == Value(256, Nats(buf))
  {
    var d := Convert(256, 58, Nats(buf));
    ConvertInverse(256, 58, Nats(buf));
    CharsDigits(d);
  }

  /** Decoding undoes encoding, for every byte sequence. */
  lemma DecodeEncode(buf: seq<uint8>)
    ensures IsBase58(Base58Of(buf))
    ensures Decode(Base58Of(buf)) == buf
  {
    var d := Convert(256, 58, Nats(buf));
    ConvertInverse(256, 58, Nats(buf));
    CharsDigits(d);
    assert Nats(Decode(Base58Of(buf))) == Nats(buf);
    NatsInjective(Decode(Base58Of(buf)), buf);
  }

  /** Encoding undoes decoding, for every string over the alphabet: the encoding is a
      bijection between byte sequences and such strings. */
  lemma EncodeDecode(s: string)
    requires IsBase58(s)
    ensures Base58Of(Decode(s)) == s
  {
    ConvertInverse(58, 256, CharDigits(s));
    assert Convert(256, 58, Nats(Decode(s))) == CharDigits(s);
    forall i | 0 <= i < |s| ensures Base58Of(Decode(s))[i] == s[i] {
      DigitOfInjective(s[i]);
    }
  }

  lemma EncodeInjective(a: seq<uint8>, b: seq<uint8>)
    requires Base58Of(a) == Base58Of(b)
    ensures a == b
  {
    DecodeEncode(a);
    DecodeEncode(b);
  }

  lemma NatsInjective(a: seq<uint8>, b: seq<uint8>)
    requires Nats(a) == Nats(b)
    ensures a == b
  {
    forall i | 0 <= i < |a| ensures a[i] == b[i] {
      assert Nats(a)[i] == Nats(b)[i];
    }
  }

  // ---------- The algorithm ----------

  /** The numbers seen so far fit into the cells right of the leading zeros. */
  lemma PrefixFits(buf: seq<uint8>, z: nat, k: nat)
    requires z <= |buf| && k <= |buf|
    requires forall i :: 0 <= i < z ==> buf[i] == 0
    ensures Value(256, Nats(buf[..k])) < Pow(58, Cells(|buf| - z))
  {
    var p := Nats(buf[..k]);
    var lead := if k < z then k else z;
    ValueDropZeros(256, p, lead);
    ValueBound(256, p[lead..]);
    PowMonoExp(256, k - lead, |buf| - z);
    CellsSuffice(|buf| - z);
  }

  /** One more byte appends one more base-256 digit. */
  lemma PrefixStep(buf: seq<uint8>, k: nat)
    requires k < |buf|
    ensures Value(256, Nats(buf[..k + 1])) == Value(256, Nats(buf[..k])) * 256 + buf[k] as nat
  {
    var p := Nats(buf[..k + 1]);
    assert p[..k] == Nats(buf[..k]);
  }

  /** Between two iterations of the carry loop: the cells right of `i` together with the
      carry hold 256 times what those cells held before, plus the byte `b`. */
  ghost predicate Carrying(cells: seq<nat>, before: seq<nat>, i: int, carry: nat, b: nat)
  {
    && |cells| == |before| && -1 <= i < |cells|
    && carry <= 255
    && AllBelow(58, cells)
    && (forall j :: 0 <= j <= i ==> cells[j] == before[j])
    && Value(58, [carry] + cells[i + 1..]) == Value(58, before[i + 1..]) * 256 + b
  }

  lemma {:induction false} CarryStart(before: seq<nat>, b: nat)
    requires AllBelow(58, before) && b <= 255
    ensures Carrying(before, before, |before| - 1, b, b)
  {
    assert before[|before|..] == [];
    ValueCons(58, b, []);
  }

  /** One digit of the schoolbook multiplication by 256 in base 58. */
  lemma {:induction false} CarryStep(cells: seq<nat>, before: seq<nat>, i: int, carry: nat, b: nat)
    requires Carrying(cells, before, i, carry, b) && i >= 0
    ensures var t := carry + 256 * cells[i];
            t / 58 <= 255 && Carrying(cells[i := t % 58], before, i - 1, t / 58, b)
  {
    var t := carry + 256 * cells[i];
    var low, was := cells[i + 1..], before[i + 1..];
    assert cells[i := t % 58][i..] == [t % 58] + low;
    assert before[i..] == [before[i]] + was;
    CarryDigit(low, was, carry, before[i], b);
  }

  lemma {:induction false} CarryDigit(low: seq<nat>, was: seq<nat>, carry: nat, d: nat, b: nat)
    requires |low| == |was|
    requires Value(58, [carry] + low) == Value(58, was) * 256 + b
    ensures var t := carry + 256 * d;
            Value(58, [t / 58] + ([t % 58] + low)) == Value(58, [d] + was) * 256 + b
  {
    var t := carry + 256 * d;
    ValueCons(58, carry, low);
    ValueCons(58, t % 58, low);
    ValueCons(58, t / 58, [t % 58] + low);
    ValueCons(58, d, was);
    CarryArithmetic(t / 58, t % 58, carry, d, Pow(58, |low|));
  }

  lemma CarryArithmetic(q: nat, r: nat, carry: nat, d: nat, p: nat)
    requires 58 * q + r == carry + 256 * d
    ensures r * p + q * (58 * p) == carry * p + 256 * (d * p)
  {
    assert (58 * q + r) * p == r * p + q * (58 * p);
    assert (carry + 256 * d) * p == carry * p + 256 * (d * p);
  }

  /** The next number fits into the cells from `z` on. */
  ghost predicate Fits(before: seq<nat>, z: nat, b: nat)
  {
    z <= |before| && Value(58, before) * 256 + b < Pow(58, |before| - z)
  }

  /** The loop never needs a cell left of `z`: a carry that got there would stand for a
      number that does not fit. */
  lemma {:induction false} CarryStops(cells: seq<nat>, before: seq<nat>, z: nat, i: int, carry: nat, b: nat)
    requires Carrying(cells, before, i, carry, b) && z - 1 <= i
    requires i < z ==> carry != 0 && forall j :: 0 <= j <= i ==> before[j] == 0
    requires Fits(before, z, b)
    ensures i >= z
  {
    if i < z {
      ValueDropZeros(58, before, z);
      ValueCons(58, carry, cells[z..]);
      AtLeastOne(carry, Pow(58, |before| - z));
    }
  }

  lemma AtLeastOne(c: nat, p: nat)
    requires c != 0
    ensures c * p >= p
  {
  }

  lemma {:induction false} CarryEnd(cells: seq<nat>, before: seq<nat>, i: int, b: nat)
    requires Carrying(cells, before, i, 0, b)
    requires forall j :: 0 <= j <= i ==> before[j] == 0
    ensures Value(58, cells) == Value(58, before) * 256 + b
  {
    ValueDropZeros(58, before, i + 1);
    ValueDropZeros(58, cells, i + 1);
    ValueCons(58, 0, cells[i + 1..]);
  }

  /** The body of the carry loop.  Neither the 32-bit carry nor the narrowing of the
      remainder to a byte loses anything. */
  method CarryCell(out: array<uint8>, i: nat, carry: uint32) returns (rest: uint32)
    requires i < out.Length && carry <= 255
    modifies out
    ensures var t := carry as nat + 256 * old(out[i]) as nat;
            rest as nat == t / 58 && Nats(out[..]) == old(Nats(out[..]))[i := t % 58]
  {
    rest := carry + 256 * (out[i] as uint32);
    out[i] := (rest % 58) as uint8;
    rest := rest / 58;
  }

  /** One turn of the carry loop stays right of `z` and keeps what is between two turns. */
  method CarryTurn(out: array<uint8>, ghost z: nat, i: int, carry: uint32, ghost before: seq<nat>, ghost b: nat)
    returns (rest: uint32)
    requires Carrying(Nats(out[..]), before, i, carry as nat, b) && z - 1 <= i && Fits(before, z, b)
    requires i < z ==> carry != 0 && forall j :: 0 <= j <= i ==> before[j] == 0
    modifies out
    ensures i >= z && Carrying(Nats(out[..]), before, i - 1, rest as nat, b)
  {
    CarryStops(Nats(out[..]), before, z, i, carry as nat, b);
    CarryStep(Nats(out[..]), before, i, carry as nat, b);
    rest := CarryCell(out, i, carry);
  }

  /** The carry loop for one input byte: multiplies the base-58 number in `out` by 256 and
      adds `b`.  Every cell up to `high` is still zero, and so is every cell left of `z`
      throughout. */
  method MulAdd(out: array<uint8>, z: nat, high: int, b: uint8) returns (newHigh: int)
    requires z - 1 <= high < out.Length
    requires AllBelow(58, Nats(out[..]))
    requires forall j :: 0 <= j <= high ==> out[j] == 0
    requires Fits(Nats(out[..]), z, b as nat)
    modifies out
    ensures z - 1 <= newHigh < out.Length
    ensures AllBelow(58, Nats(out[..]))
    ensures forall j :: 0 <= j <= newHigh ==> out[j] == 0
    ensures Value(58, Nats(out[..])) == old(Value(58, Nats(out[..]))) * 256 + b as nat
  {
    ghost var before := Nats(out[..]);
    var i := out.Length - 1;
    var carry := b as uint32;
    CarryStart(before, b as nat);
    while i > high || carry != 0
      invariant z - 1 <= i
      invariant Carrying(Nats(out[..]), before, i, carry as nat, b as nat)
      decreases i
    {
      carry := CarryTurn(out, z, i, carry, before, b as nat);
      i := i - 1;
    }
    CarryEnd(Nats(out[..]), before, i, b as nat);
    newHigh := i;
  }

  /** The alphabet pass, in place: cell j receives the character of the digit in cell
      j + gap, so no cell is read after it has been overwritten. */
  method AlphabetPass(out: array<uint8>, gap: nat) returns (s: string)
    requires gap <= out.Length
    requires AllBelow(58, Nats(out[..]))
    modifies out
    ensures s == Chars(old(Nats(out[..]))[gap..])
  {
    AlphabetDigits();
    ghost var digits := Nats(out[..]);
    var size := out.Length - gap;
    var i := 0;
    while i < size
      invariant 0 <= i <= size
      invariant forall j :: 0 <= j < i ==> out[j] as int == ALPHABET[digits[j + gap]] as int
      invariant forall j :: i <= j < out.Length ==> out[j] as nat == digits[j]
    {
      out[i] := ALPHABET[out[i + gap]] as int as uint8;
      i := i + 1;
    }
    var bytes := out[..size];
    s := seq(size, j requires 0 <= j < size => bytes[j] as int as char);
  }

  /** The buffer after the carry loops, read from the zero gap on, is the converted
      numeral: nothing more is left to compute. */
  lemma {:induction false} BufferHoldsConversion(cells: seq<nat>, buf: seq<nat>, z: nat, i: nat)
    requires z <= i <= |cells| && AllBelow(58, cells) && LeadingZeros(buf) == z
    requires forall j :: 0 <= j < i ==> cells[j] == 0
    requires i < |cells| ==> cells[i] != 0
    requires Value(58, cells) == Value(256, buf)
    ensures cells[i - z..] == Convert(256, 58, buf)
  {
    ValueDropZeros(58, cells, i);
    DigitsValue(58, cells[i..]);
    assert cells[i - z..] == Zeros(z) + cells[i..];
  }

  lemma BufferHoldsEncoding(cells: seq<nat>, buf: seq<uint8>, z: nat, i: nat)
    requires z <= i <= |cells| && AllBelow(58, cells) && LeadingZeros(Nats(buf)) == z
    requires forall j :: 0 <= j < i ==> cells[j] == 0
    requires i < |cells| ==> cells[i] != 0
    requires Value(58, cells) == Value(256, Nats(buf))
    ensures AllBelow(58, cells[i - z..]) && Chars(cells[i - z..]) == Base58Of(buf)
  {
    BufferHoldsConversion(cells, Nats(buf), z, i);
    ConvertInverse(256, 58, Nats(buf));
  }

  /** Allocates the buffer and runs the carry loop over every byte. */
  method FillDigits(buf: seq<uint8>, zcount: nat) returns (out: array<uint8>)
    requires zcount <= |buf| && forall i :: 0 <= i < zcount ==> buf[i] == 0
    ensures fresh(out) && out.Length == zcount + (|buf| - zcount) * 555 / 406 + 1
    ensures AllBelow(58, Nats(out[..]))
    ensures forall j :: 0 <= j < zcount ==> out[j] == 0
    ensures Value(58, Nats(out[..])) == Value(256, Nats(buf))
  {
    var size := zcount + (|buf| - zcount) * 555 / 406 + 1;
    out := new uint8[size](_ => 0);
    var high := size - 1;
    ValueDropZeros(58, Nats(out[..]), size);
    for k := 0 to |buf|
      invariant zcount - 1 <= high < size
      invariant AllBelow(58, Nats(out[..]))
      invariant forall j :: 0 <= j <= high ==> out[j] == 0
      invariant Value(58, Nats(out[..])) == Value(256, Nats(buf[..k]))
    {
      PrefixStep(buf, k);
      PrefixFits(buf, zcount, k + 1);
      high := MulAdd(out, zcount, high, buf[k]);
    }
    assert buf[..|buf|] == buf;
  }

  method CountZeros(buf: seq<uint8>) returns (zcount: nat)
    ensures zcount == LeadingZeros(Nats(buf))
  {
    zcount := 0;
    while zcount < |buf| && buf[zcount] == 0
      invariant 0 <= zcount <= |buf|
      invariant forall i :: 0 <= i < zcount ==> buf[i] == 0
    {
      zcount := zcount + 1;
    }
    LeadingZerosUnique(Nats(buf), zcount);
  }

  /** The first cell from `start` on that is not zero. */
  method SkipZeros(out: array<uint8>, start: nat) returns (i: nat)
    requires start <= out.Length
    ensures start <= i <= out.Length
    ensures forall j :: start <= j < i ==> out[j] == 0
    ensures i < out.Length ==> out[i] != 0
  {
    i := start;
    while i < out.Length && out[i] == 0
      invariant start <= i <= out.Length
      invariant forall j :: start <= j < i ==> out[j] == 0
    {
      i := i + 1;
    }
  }

  /** Skips the zero cells that stand for no byte, and writes the rest as characters. */
  method WriteDigits(out: array<uint8>, zcount: nat, ghost buf: seq<uint8>) returns (s: string)
    requires zcount <= out.Length && zcount == LeadingZeros(Nats(buf))
    requires AllBelow(58, Nats(out[..])) && Value(58, Nats(out[..])) == Value(256, Nats(buf))
    requires forall j :: 0 <= j < zcount ==> out[j] == 0
    modifies out
    ensures s == Base58Of(buf)
  {
    var i := SkipZeros(out, zcount);
    BufferHoldsEncoding(Nats(out[..]), buf, zcount, i);
    s := AlphabetPass(out, i - zcount);
  }

  /** Encodes any byte sequence, the empty and the all-zero ones included. */
  method Encode(buf: seq<uint8>) returns (s: string)
    ensures s == Base58Of(buf)
  {
    var zcount := CountZeros(buf);
    assert forall i :: 0 <= i < zcount ==> Nats(buf)[i] == 0;
    var out := FillDigits(buf, zcount);
    s := WriteDigits(out, zcount, buf);
  }
}
