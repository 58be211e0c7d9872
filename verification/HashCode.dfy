/** The string hash of the table: the fold of the System V ABI (gABI), chapter 5, 'Hash Table'.

The source computes it in an unsigned long, from plain chars. The width of the one and the sign of the other
differ between platforms, so both are parameters. An unsigned long is a natural number below its modulus, and the
bits that the fold moves about are digits of that number. */
module HashCodes {
  import opened ModularArithmetic

  const TWO_28: nat := 0x1000_0000
  const TWO_32: nat := 0x1_0000_0000
  const TWO_64: nat := 0x1_0000_0000_0000_0000

  newtype Byte = x: int | 0 <= x < 256

  /** A C string without its terminator. */
  type Key = k: seq<Byte> | 0 !in k

  datatype Platform = Platform(longIs64: bool, charIsSigned: bool) {
    function CharValue(c: Byte): (v: int)
      ensures v == c as int || v == c as int - 256
      ensures if charIsSigned then -128 <= v < 128 else 0 <= v < 256
    {
      if charIsSigned && c >= 128 then c as int - 256 else c as int
    }

    function Wrap(x: int): (a: nat)
      ensures if longIs64 then a < 0x1_0000_0000_0000_0000 && (x - a) % 0x1_0000_0000_0000_0000 == 0
              else a < 0x1_0000_0000 && (x - a) % 0x1_0000_0000 == 0
    {
      if longIs64 then x % TWO_64 else x % TWO_32
    }
  }

  /** An unsigned long: bits 32 on, bits 28 to 31, bits 8 to 27, bits 4 to 7, bits 0 to 3. */
  datatype Word = Word(high: nat, top: nat, mid: nat, digit: nat, low: nat) {
    predicate Valid() {
      top < 16 && mid < 0x10_0000 && digit < 16 && low < 16
    }

    function Value(): nat {
      high * TWO_32 + top * TWO_28 + mid * 256 + digit * 16 + low
    }

    /** h ^= g >> 24, then h &= ~g, for g = h & 0xF0000000. */
    function FoldTop(): (w: Word)
      requires Valid()
      ensures w.Valid()
    {
      Word(high, 0, mid, Xor4(digit, top), low)
    }
  }

  /** Exclusive or of two hexadecimal digits. */
  function Xor4(m: nat, n: nat): (x: nat)
    requires m < 16 && n < 16
    ensures x < 16
  {
    ((m as bv4) ^ (n as bv4)) as nat
  }

  function Digits(a: nat): (w: Word)
    ensures w.Valid() && w.Value() == a
  {
    var b := a / 16;
    var c := b / 16;
    var d := c / 0x10_0000;
    Word(d / 16, d % 16, c % 0x10_0000, b % 16, a % 16)
  }

  /** The same word, known by its digits only. */
  ghost function Split(a: nat): (w: Word)
    ensures w.Valid() && w.Value() == a
  {
    assert Digits(a).Valid();
    var w: Word :| w.Valid() && w.Value() == a;
    w
  }

  /** Numbers that differ by a multiple of 2^32 agree in all digits below. */
  lemma SameLow(v: Word, w: Word, k: int)
    requires v.Valid() && w.Valid() && v.Value() - w.Value() == k * TWO_32
    ensures v.top == w.top && v.mid == w.mid && v.digit == w.digit && v.low == w.low && v.high - w.high == k
  {
    var v3, w3 := 16 * v.high + v.top, 16 * w.high + w.top;
    var v2, w2 := 0x10_0000 * v3 + v.mid, 0x10_0000 * w3 + w.mid;
    var v1, w1 := 16 * v2 + v.digit, 16 * w2 + w.digit;
    Peel(16, v1, v.low, w1, w.low, k * 0x1000_0000);
    Peel(16, v2, v.digit, w2, w.digit, k * 0x100_0000);
    Peel(0x10_0000, v3, v.mid, w3, w.mid, k * 16);
    Peel(16, v.high, v.top, w.high, w.top, k);
  }

  lemma Peel(n: nat, x: nat, d: nat, y: nat, e: nat, k: int)
    requires d < n && e < n && n * x + d == n * y + e + n * k
    ensures d == e && x - y == k
  {
    MulBound(x - y - k, n);
    assert (x - y - k) * n == e - d;
  }

  ghost function Mix(h: nat, c: Byte, p: Platform): nat {
    Split(p.Wrap(16 * h + p.CharValue(c))).FoldTop().Value()
  }

  ghost function Fold(key: seq<Byte>, p: Platform): nat {
    if key == [] then 0 else Mix(Fold(key[..|key| - 1], p), key[|key| - 1], p)
  }

  lemma FoldTopBits(a: nat)
    ensures Split(Split(a).FoldTop().Value()) == Split(a).FoldTop()
    ensures a < TWO_32 ==> Split(a).FoldTop().Value() < TWO_28
  {
    SameLow(Split(Split(a).FoldTop().Value()), Split(a).FoldTop(), 0);
  }

  /** The bit that counts b. */
  function Bit(d: nat, b: nat): nat
    requires b > 0
  {
    d / b % 2
  }

  /** v is w after the fold: bits 28 to 31 are clear, each of bits 4 to 7 is turned over where the one 24 places above it
      was set, and all other bits are as before. */
  ghost predicate Folded(w: Word, v: Word) {
    && v.top == 0 && v.high == w.high && v.mid == w.mid && v.low == w.low
    && forall b :: b == 1 || b == 2 || b == 4 || b == 8 ==>
         Bit(v.digit, b) == if Bit(w.top, b) == 1 then 1 - Bit(w.digit, b) else Bit(w.digit, b)
  }

  lemma Xor4Bits(m: nat, n: nat, b: nat)
    requires m < 16 && n < 16 && (b == 1 || b == 2 || b == 4 || b == 8)
    ensures Bit(Xor4(m, n), b) == if Bit(n, b) == 1 then 1 - Bit(m, b) else Bit(m, b)
  {
    var x, y := m as bv4, n as bv4;
    XorBits(x, y, b);
    BackAgain(m);
    BackAgain(n);
  }

  lemma BackAgain(m: nat)
    requires m < 16
    ensures (m as bv4) as nat == m
  {
  }

  lemma XorBits(x: bv4, y: bv4, b: nat)
    requires b == 1 || b == 2 || b == 4 || b == 8
    ensures Bit((x ^ y) as nat, b) == if Bit(y as nat, b) == 1 then 1 - Bit(x as nat, b) else Bit(x as nat, b)
  {
    BitIsMask(x, b);
    BitIsMask(y, b);
    BitIsMask(x ^ y, b);
    XorMask(x, y, Mask(b));
  }

  function Mask(b: nat): bv4 {
    if b == 1 then 1 else if b == 2 then 2 else if b == 4 then 4 else 8
  }

  lemma BitIsMask(x: bv4, b: nat)
    requires b == 1 || b == 2 || b == 4 || b == 8
    ensures Bit(x as nat, b) == 1 <==> x & Mask(b) != 0
  {
  }

  lemma XorMask(x: bv4, y: bv4, mask: bv4)
    requires mask == 1 || mask == 2 || mask == 4 || mask == 8
    ensures (x ^ y) & mask != 0 <==> (x & mask != 0) != (y & mask != 0)
  {
  }

  lemma TopIsFolded(a: nat)
    ensures Folded(Split(a), Split(Split(a).FoldTop().Value()))
  {
    FoldTopBits(a);
    var w := Split(a);
    forall b | b == 1 || b == 2 || b == 4 || b == 8
      ensures Bit(Xor4(w.digit, w.top), b) == if Bit(w.top, b) == 1 then 1 - Bit(w.digit, b) else Bit(w.digit, b)
    {
      Xor4Bits(w.digit, w.top, b);
    }
  }

  /** The fold byte by byte, from 0 on: the accumulator is shifted by four bits, the char is added modulo the width, and
      the result is folded. */
  lemma FoldExactly(key: seq<Byte>, c: Byte, p: Platform)
    ensures Fold([], p) == 0
    ensures Folded(Split(p.Wrap(16 * Fold(key, p) + p.CharValue(c))), Split(Fold(key + [c], p)))
  {
    assert (key + [c])[..|key|] == key;
    TopIsFolded(p.Wrap(16 * Fold(key, p) + p.CharValue(c)));
  }

  /** After every byte, bits 28 to 31 of the accumulator are clear; in 32 bits it is then below 2^28. */
  lemma FoldBits(key: seq<Byte>, p: Platform)
    ensures Split(Fold(key, p)).top == 0
    ensures !p.longIs64 ==> Fold(key, p) < TWO_28
  {
    if key == [] {
      SameLow(Split(0), Word(0, 0, 0, 0, 0), 0);
    } else {
      FoldTopBits(p.Wrap(16 * Fold(key[..|key| - 1], p) + p.CharValue(key[|key| - 1])));
    }
  }

  lemma FoldTopLow(a: nat, b: nat, e: nat)
    requires a == e * TWO_32 + b
    ensures Split(a).FoldTop().Value() == e * TWO_32 + Split(b).FoldTop().Value()
  {
    SameLow(Split(a), Split(b), e);
  }

  lemma WrapLow(x: int, d: nat, p: Platform, q: Platform) returns (e: nat)
    requires p.longIs64 && !q.longIs64
    ensures p.Wrap(16 * d * TWO_32 + x) == e * TWO_32 + q.Wrap(x)
  {
    var a, b := p.Wrap(16 * d * TWO_32 + x), q.Wrap(x);
    e := 16 * d + x / TWO_32 - (16 * d * TWO_32 + x) / TWO_64 * TWO_32;
  }

  lemma MixLow(h: nat, k: nat, d: nat, c: Byte, p: Platform, q: Platform) returns (e: nat)
    requires p.longIs64 && !q.longIs64 && p.charIsSigned == q.charIsSigned && h == d * TWO_32 + k
    ensures Mix(h, c, p) == e * TWO_32 + Mix(k, c, q)
  {
    var v := p.CharValue(c);
    assert q.CharValue(c) == v && 16 * h + v == 16 * d * TWO_32 + (16 * k + v);
    e := WrapLow(16 * k + v, d, p, q);
    FoldTopLow(p.Wrap(16 * h + v), q.Wrap(16 * k + v), e);
  }

  /** The low 32 bits do not depend on the width: in 64 bits the rest only goes on top of them. */
  lemma {:induction false} FoldLow(key: seq<Byte>, signed: bool) returns (e: nat)
    ensures Fold(key, Platform(true, signed)) == e * TWO_32 + Fold(key, Platform(false, signed))
  {
    e := 0;
    if key != [] {
      var front, p, q := key[..|key| - 1], Platform(true, signed), Platform(false, signed);
      var d := FoldLow(front, signed);
      e := MixLow(Fold(front, p), Fold(front, q), d, key[|key| - 1], p, q);
    }
  }

  /** The chain a key belongs to. */
  ghost function Index(key: Key, size: nat, p: Platform): (t: nat)
    requires 0 < size
    ensures t < size
  {
    Fold(key, p) % size
  }

  /** Where the number of chains divides 2^32, a key's chain does not depend on the width of an unsigned long. */
  lemma IndexAgrees(key: Key, size: nat, signed: bool)
    requires 0 < size && TWO_32 % size == 0
    ensures Index(key, size, Platform(true, signed)) == Index(key, size, Platform(false, signed))
  {
    var e := FoldLow(key, signed);
    AddMultiple(Fold(key, Platform(false, signed)), size, e, TWO_32);
  }

  lemma AddMultiple(k: nat, size: nat, e: nat, m: nat)
    requires 0 < size && m % size == 0
    ensures (e * m + k) % size == k % size
  {
    var f := m / size;
    assert m == f * size;
    assert e * m == (e * f) * size;
    assert e * m + k == (e * f + k / size) * size + k % size;
    DivModUnique(e * m + k, size, e * f + k / size, k % size);
  }

  /** With no bits to fold, the fold changes nothing. */
  lemma NothingToFold(a: nat, w: Word)
    requires w.Valid() && w.Value() == a && w.top == 0
    ensures Split(a).FoldTop().Value() == a
  {
    SameLow(Split(a), w, 0);
    assert Xor4(w.digit, 0) == w.digit;
  }

  lemma FoldNext(key: seq<Byte>, k: nat, p: Platform)
    requires k < |key|
    ensures Fold(key[..k + 1], p) == Mix(Fold(key[..k], p), key[k], p)
  {
    assert key[..k + 1][..k] == key[..k];
  }

  lemma MixSmall(h: nat, p: Platform)
    requires h < 0x100_0000
    ensures Mix(h, 15, p) == 16 * h + 15
  {
    assert p.Wrap(16 * h + p.CharValue(15)) == 16 * h + 15;
    NothingToFold(16 * h + 15, Word(0, 0, h / 16, h % 16, 15));
  }

  lemma MixCarries(p: Platform)
    ensures Mix(0xFFF_FFFF, 65, p) == if p.longIs64 then 0x1_0000_0031 else 0x31
  {
    assert p.CharValue(65) == 65;
    if p.longIs64 {
      assert p.Wrap(0x1_0000_0031) == 0x1_0000_0031;
      NothingToFold(0x1_0000_0031, Word(1, 0, 0, 3, 1));
    } else {
      assert p.Wrap(0x1_0000_0031) == 0x31;
      NothingToFold(0x31, Word(0, 0, 0, 3, 1));
    }
  }

  function Fifteens(n: nat): nat {
    if n == 0 then 0 else 16 * Fifteens(n - 1) + 15
  }

  lemma {:induction false} FoldFifteens(key: seq<Byte>, n: nat, p: Platform)
    requires n <= 7 && n <= |key| && forall i :: 0 <= i < n ==> key[i] == 15
    ensures Fold(key[..n], p) == Fifteens(n)
  {
    if n > 0 {
      FoldFifteens(key, n - 1, p);
      FoldNext(key, n - 1, p);
      assert Fifteens(6) == 0xFF_FFFF;
      FifteensGrow(n - 1, 6);
      MixSmall(Fifteens(n - 1), p);
    }
  }

  lemma {:induction false} FifteensGrow(m: nat, n: nat)
    requires m <= n
    ensures Fifteens(m) <= Fifteens(n)
    decreases n
  {
    if m < n {
      FifteensGrow(m, n - 1);
    }
  }

  const CARRYING: Key := [15, 15, 15, 15, 15, 15, 15, 65]

  lemma FoldCarrying(p: Platform)
    ensures Fold(CARRYING, p) == Mix(0xFFF_FFFF, 65, p)
  {
    FoldFifteens(CARRYING, 7, p);
    assert Fifteens(6) == 0xFF_FFFF && Fifteens(7) == 0xFFF_FFFF;
    FoldNext(CARRYING, 7, p);
    assert CARRYING[..8] == CARRYING;
  }

  /** In 64 bits a carry can pass bit 31 and stay. These eight bytes hash to 2^32 more than in 32 bits, and go to
      different ones of the program's ten chains. */
  lemma CarryPasses(p: Platform, q: Platform)
    requires p.longIs64 && !q.longIs64
    ensures Fold(CARRYING, p) == 0x1_0000_0031 && Fold(CARRYING, q) == 0x31
    ensures Index(CARRYING, 10, p) == 5 && Index(CARRYING, 10, q) == 9
  {
    FoldCarrying(p);
    FoldCarrying(q);
    MixCarries(p);
    MixCarries(q);
  }

  /** A key's chain does not depend on the width of an unsigned long if and only if the number of chains divides
      2^32: for any other number of chains, the eight bytes above are a key that goes astray. */
  lemma IndexAgreesExactly(size: nat, signed: bool)
    requires 0 < size
    ensures (forall key: Key :: Index(key, size, Platform(true, signed)) == Index(key, size, Platform(false, signed)))
        <==> TWO_32 % size == 0
  {
    if TWO_32 % size == 0 {
      forall key: Key ensures Index(key, size, Platform(true, signed)) == Index(key, size, Platform(false, signed)) {
        IndexAgrees(key, size, signed);
      }
    } else {
      CarryPasses(Platform(true, signed), Platform(false, signed));
      if Index(CARRYING, size, Platform(true, signed)) == Index(CARRYING, size, Platform(false, signed)) {
        SameRemainder(0x31, TWO_32, size);
        assert false;
      }
    }
  }

  lemma SameRemainder(a: nat, d: nat, size: nat)
    requires 0 < size && (a + d) % size == a % size
    ensures d % size == 0
  {
    var q := (a + d) / size - a / size;
    assert d == q * size;
    DivModUnique(d, size, q, 0);
  }

  // ----- when 64 bits behave like 32

  /** Below 2^32 there is something left of bits 32 on, whatever is folded. */
  lemma HighStays(a: nat)
    requires TWO_32 <= a
    ensures TWO_32 <= Split(a).FoldTop().Value()
  {
    var w := Split(a);
    assert w.high > 0;
  }

  /** One byte leaves the accumulator below 2^28 exactly when shifting and adding neither carries past bit 31 nor
      goes below 0. */
  lemma MixStaysBelow(h: nat, c: Byte, p: Platform)
    requires p.longIs64 && h < TWO_28
    ensures Mix(h, c, p) < TWO_28 <==> 0 <= 16 * h + p.CharValue(c) < TWO_32
  {
    var x := 16 * h + p.CharValue(c);
    var a := p.Wrap(x);
    assert a == if x < 0 then x + TWO_64 else x;
    if a < TWO_32 {
      FoldTopBits(a);
    } else {
      HighStays(a);
    }
  }

  /** In 64 bits the accumulator stays below 2^28 throughout, as it does in 32 bits, if and only if no byte of the key
      carries past bit 31 or, being negative, takes it below 0. */
  lemma StaysBelowExactly(key: seq<Byte>, p: Platform)
    requires p.longIs64
    ensures (forall i :: 0 <= i <= |key| ==> Fold(key[..i], p) < TWO_28)
        <==> (forall i :: 0 <= i < |key| ==> 0 <= 16 * Fold(key[..i], p) + p.CharValue(key[i]) < TWO_32)
  {
    if forall i :: 0 <= i < |key| ==> 0 <= 16 * Fold(key[..i], p) + p.CharValue(key[i]) < TWO_32 {
      forall i | 0 <= i <= |key| ensures Fold(key[..i], p) < TWO_28 {
        StaysBelowUpTo(key, i, p);
      }
    }
    if forall i :: 0 <= i <= |key| ==> Fold(key[..i], p) < TWO_28 {
      forall i | 0 <= i < |key| ensures 0 <= 16 * Fold(key[..i], p) + p.CharValue(key[i]) < TWO_32 {
        assert Fold(key[..i + 1], p) < TWO_28;
        FoldNext(key, i, p);
        MixStaysBelow(Fold(key[..i], p), key[i], p);
      }
    }
  }

  lemma {:induction false} StaysBelowUpTo(key: seq<Byte>, n: nat, p: Platform)
    requires p.longIs64 && n <= |key|
    requires forall i :: 0 <= i < n ==> 0 <= 16 * Fold(key[..i], p) + p.CharValue(key[i]) < TWO_32
    ensures Fold(key[..n], p) < TWO_28
  {
    if n > 0 {
      StaysBelowUpTo(key, n - 1, p);
      FoldNext(key, n - 1, p);
      MixStaysBelow(Fold(key[..n - 1], p), key[n - 1], p);
    }
  }

  const NEGATIVE: Key := [128]

  /** A single byte that a signed char makes negative leaves the range at once. */
  lemma NegativeWraps(p: Platform)
    requires p.longIs64 && p.charIsSigned
    ensures Fold(NEGATIVE, p) == 0xFFFF_FFFF_0FFF_FF70
  {
    assert NEGATIVE[..0] == [] && NEGATIVE[..1] == NEGATIVE;
    FoldNext(NEGATIVE, 0, p);
    MixNegative(p);
  }

  lemma MixNegative(p: Platform)
    requires p.longIs64 && p.charIsSigned
    ensures Mix(0, 128, p) == 0xFFFF_FFFF_0FFF_FF70
  {
    assert p.CharValue(128) == -128 && p.Wrap(-128) == 0xFFFF_FFFF_FFFF_FF80;
    SameLow(Split(0xFFFF_FFFF_FFFF_FF80), Word(0xFFFF_FFFF, 15, 0xF_FFFF, 8, 0), 0);
  }

  const LETTERS: Key := [97, 98, 99, 100, 101, 102, 103]

  /** The key "abcdefg" has bits to fold at its last letter. On every platform it goes to the seventh of ten chains. */
  lemma LettersFold(p: Platform)
    ensures Fold(LETTERS, p) == 0x789_ABA7 && Index(LETTERS, 10, p) == 7
  {
    FirstLetters(LETTERS, p);
    FoldNext(LETTERS, 6, p);
    assert LETTERS[..7] == LETTERS;
    LastLetter(p);
  }

  lemma FirstLetters(key: seq<Byte>, p: Platform)
    requires |key| >= 6 && key[0] == 97 && key[1] == 98 && key[2] == 99
    requires key[3] == 100 && key[4] == 101 && key[5] == 102
    ensures Fold(key[..6], p) == 0x678_9AB6
  {
    PlainTwice(key, 0, 0, p);
    PlainTwice(key, 2, 0x672, p);
    PlainTwice(key, 4, 0x6_7894, p);
  }

  lemma LastLetter(p: Platform)
    ensures Mix(0x678_9AB6, 103, p) == 0x789_ABA7
  {
    assert p.CharValue(103) == 103 && p.Wrap(0x6789_ABC7) == 0x6789_ABC7;
    SameLow(Split(0x6789_ABC7), Word(0, 6, 0x7_89AB, 12, 7), 0);
  }

  lemma PlainTwice(key: seq<Byte>, k: nat, h: nat, p: Platform)
    requires k + 1 < |key| && Fold(key[..k], p) == h && key[k] < 128 && key[k + 1] < 128
    requires 256 * h + 16 * key[k] as int + key[k + 1] as int < TWO_28
    ensures Fold(key[..k + 2], p) == 256 * h + 16 * key[k] as int + key[k + 1] as int
  {
    PlainNext(key, k, h, p);
    PlainNext(key, k + 1, 16 * h + key[k] as int, p);
  }

  lemma PlainNext(key: seq<Byte>, k: nat, h: nat, p: Platform)
    requires k < |key| && Fold(key[..k], p) == h && key[k] < 128 && 16 * h + key[k] as int < TWO_28
    ensures Fold(key[..k + 1], p) == 16 * h + key[k] as int
  {
    FoldNext(key, k, p);
    MixPlain(h, key[k], p);
  }

  /** A char of ASCII is just added, where that leaves bits 28 to 31 clear. */
  lemma MixPlain(h: nat, c: Byte, p: Platform)
    requires c < 128 && 16 * h + c as int < TWO_28
    ensures Mix(h, c, p) == 16 * h + c as int
  {
    var a, b, d := 16 * h + c as int, h + c as int / 16, c as int % 16;
    assert p.CharValue(c) == c as int && p.Wrap(a) == a;
    NothingToFold(a, Word(0, 0, b / 16, b % 16, d));
  }

  /** One round of the loop, on the digits of h. */
  method FoldRound(h: nat, c: Byte, p: Platform) returns (r: nat)
    ensures r == Mix(h, c, p)
  {
    var a := p.Wrap(16 * h + p.CharValue(c));
    var w := Digits(a);
    SameLow(w, Split(a), 0);
    var g := w.top;
    if g != 0 {
      w := w.(digit := Xor4(w.digit, g));
    } else {
      assert Xor4(w.digit, 0) == w.digit;
    }
    w := w.(top := 0);
    r := w.Value();
  }

  method HashCode(key: Key, size: nat, p: Platform) returns (t: nat)
    requires 0 < size < 0x8000_0000
    ensures t == Index(key, size, p) < size
  {
    var h := 0;
    var k := 0;
    while k < |key|
      invariant k <= |key| && h == Fold(key[..k], p)
    {
      FoldNext(key, k, p);
      h := FoldRound(h, key[k], p);
      k := k + 1;
    }
    assert key[..k] == key;
    t := h % size;
  }
}
