/** Fixed-width words and the bit arithmetic the compiler and the machine rely on.
    Words are integers in range; the bitwise `and` is defined digit by digit, so that masking can be
    related to division and remainder. */
module Words {

  type u8 = x: int | 0 <= x < 0x100
  type u16 = x: int | 0 <= x < 0x1_0000
  type u32 = x: int | 0 <= x < 0x1_0000_0000
  type u128 = x: int | 0 <= x < 0x1_0000_0000_0000_0000_0000_0000_0000_0000

  type Bytes = seq<u8>

  function Pow2(n: nat): (r: nat)
    ensures r >= 1
  {
    if n == 0 then 1 else 2 * Pow2(n - 1)
  }

  /** The bitwise `and` of two words. */
  function BitAnd(a: nat, b: nat): (r: nat)
    ensures r <= a && r <= b
  {
    if a == 0 || b == 0 then 0
    else 2 * BitAnd(a / 2, b / 2) + (if a % 2 == 1 && b % 2 == 1 then 1 else 0)
  }

  /** The number a big-endian byte string stands for. */
  function BigEndian(s: Bytes): nat
  {
    if s == [] then 0 else BigEndian(s[..|s| - 1]) * 0x100 + s[|s| - 1]
  }

  function Max(a: nat, b: nat): nat {
    if a < b then b else a
  }

  /** Octet `i` of a 32-bit word, the most significant first. */
  function OctetOf(a: u32, i: nat): u8
    requires i < 4
  {
    match i
    case 0 => a / 0x100_0000
    case 1 => a / 0x1_0000 % 0x100
    case 2 => a / 0x100 % 0x100
    case 3 => a % 0x100
  }

  lemma OctetsMakeWord(a: u32)
    ensures ((OctetOf(a, 0) as int * 0x100 + OctetOf(a, 1) as int) * 0x100 + OctetOf(a, 2) as int) * 0x100 +
            OctetOf(a, 3) as int == a as int
  {
    var h := a / 0x100;
    assert a == h * 0x100 + a % 0x100;
    assert h == h / 0x100 * 0x100 + h % 0x100 && h / 0x100 == a / 0x1_0000;
    var g := h / 0x100;
    assert g == g / 0x100 * 0x100 + g % 0x100 && g / 0x100 == a / 0x100_0000;
  }

  lemma {:induction false} Pow2Add(m: nat, n: nat)
    ensures Pow2(m + n) == Pow2(m) * Pow2(n)
  {
    if n != 0 {
      Pow2Add(m, n - 1);
      assert Pow2(m + n) == 2 * (Pow2(m) * Pow2(n - 1));
    }
  }

  lemma Pow2Values()
    ensures Pow2(1) == 2 && Pow2(4) == 0x10 && Pow2(8) == 0x100 && Pow2(13) == 0x2000
    ensures Pow2(16) == 0x1_0000 && Pow2(32) == 0x1_0000_0000
    ensures Pow2(64) == 0x1_0000_0000_0000_0000
    ensures Pow2(96) == 0x1_0000_0000_0000_0000_0000_0000
    ensures Pow2(128) == 0x1_0000_0000_0000_0000_0000_0000_0000_0000
  {
    assert Pow2(4) == 0x10;
    Pow2Add(4, 4);
    Pow2Add(8, 4);
    Pow2Add(12, 1);
    Pow2Add(8, 8);
    Pow2Add(16, 16);
    Pow2Add(32, 32);
    Pow2Add(64, 32);
    Pow2Add(64, 64);
  }

  /** A bit is set in the `and` of two words if and only if it is set in both. */
  lemma {:induction false} BitsOfAnd(a: nat, b: nat, i: nat)
    ensures BitAnd(a, b) / Pow2(i) % 2 == 1 <==> a / Pow2(i) % 2 == 1 && b / Pow2(i) % 2 == 1
    decreases i
  {
    var c := BitAnd(a, b);
    if i == 0 {
      assert Pow2(0) == 1;
    } else {
      var p := Pow2(i - 1);
      HalvesOfAnd(a, b);
      BitsOfAnd(a / 2, b / 2, i - 1);
      DivDiv(a, 2, p);
      DivDiv(b, 2, p);
      DivDiv(c, 2, p);
    }
  }

  lemma HalvesOfAnd(a: nat, b: nat)
    ensures BitAnd(a, b) / 2 == BitAnd(a / 2, b / 2)
  {
    assert BitAnd(0, b / 2) == 0 && BitAnd(a / 2, 0) == 0;
  }

  /** Masking with `n` low ones keeps the remainder modulo 2^n. */
  lemma {:induction false} AndLowMask(a: nat, n: nat)
    ensures BitAnd(a, Pow2(n) - 1) == a % Pow2(n)
  {
    if n == 0 {
      assert Pow2(0) == 1 && BitAnd(a, 0) == 0;
    } else {
      var p := Pow2(n - 1);
      AndLowMask(a / 2, n - 1);
      AndOdd(a, p - 1);
      ModHalf(a, p);
      assert Pow2(n) - 1 == 2 * (p - 1) + 1;
    }
  }

  lemma AndOdd(a: nat, m: nat)
    ensures BitAnd(a, 2 * m + 1) == 2 * BitAnd(a / 2, m) + a % 2
  {
    assert (2 * m + 1) / 2 == m && (2 * m + 1) % 2 == 1;
    assert a / 2 == 0 ==> BitAnd(a / 2, m) == 0;
    assert m == 0 ==> BitAnd(a / 2, m) == 0;
  }

  /** Masking a word of `h + l` bits with `h` ones followed by `l` zeros clears the low `l` bits. */
  lemma {:induction false} AndHighMask(a: nat, h: nat, l: nat, ones: nat, low: nat)
    requires a < Pow2(h + l) && ones == Pow2(h) - 1 && low == Pow2(l)
    ensures BitAnd(a, ones * low) == a / low * low
    decreases l
  {
    if l == 0 {
      AndHighMaskBase(a, h, ones, low);
    } else {
      var p := Pow2(l - 1);
      assert low == 2 * p;
      assert a / 2 < Pow2(h + (l - 1)) by {
        assert Pow2(h + l) == 2 * Pow2(h + (l - 1));
      }
      AndHighMask(a / 2, h, l - 1, ones, p);
      AndHighMaskStep(a, ones, p);
    }
  }

  lemma AndHighMaskBase(a: nat, h: nat, ones: nat, low: nat)
    requires a < Pow2(h) && ones == Pow2(h) - 1 && low == 1
    ensures BitAnd(a, ones * low) == a / low * low
  {
    AndLowMask(a, h);
    DivModUnique(a, Pow2(h), 0, a);
  }

  lemma AndHighMaskStep(a: nat, ones: nat, p: nat)
    requires p > 0 && BitAnd(a / 2, ones * p) == a / 2 / p * p
    ensures BitAnd(a, ones * (2 * p)) == a / (2 * p) * (2 * p)
  {
    AndEven(a, ones * p);
    MulSwap(ones, p);
    DivDiv(a, 2, p);
    MulSwap(a / (2 * p), p);
  }

  lemma AndEven(a: nat, m: nat)
    ensures BitAnd(a, 2 * m) == 2 * BitAnd(a / 2, m)
  {
    assert 2 * m / 2 == m;
    assert a / 2 == 0 ==> BitAnd(a / 2, m) == 0;
  }

  lemma MulSwap(x: int, y: int)
    ensures x * (2 * y) == 2 * (x * y)
  {
  }

  lemma ModHalf(a: nat, p: nat)
    requires p >= 1
    ensures a % (2 * p) == 2 * (a / 2 % p) + a % 2
  {
    var h := a / 2;
    var q, r := h / p, h % p;
    assert a == 2 * (q * p + r) + a % 2;
    assert a == q * (2 * p) + (2 * r + a % 2);
    DivModUnique(a, 2 * p, q, 2 * r + a % 2);
  }

  lemma DivModUnique(a: int, d: int, q: int, r: int)
    requires d > 0 && a == q * d + r && 0 <= r < d
    ensures a / d == q && a % d == r
  {
    var q', r' := a / d, a % d;
    MulDistinct(q, q', d);
    assert a == q' * d + r';
  }

  lemma MulDistinct(p: int, q: int, d: int)
    requires d > 0
    ensures p < q ==> p * d + d <= q * d
    ensures q < p ==> q * d + d <= p * d
  {
    if p < q {
      MulDistributes(p, q - p, d);
      MulAtLeast(q - p, d);
    } else if q < p {
      MulDistributes(q, p - q, d);
      MulAtLeast(p - q, d);
    }
  }

  lemma MulDistributes(p: int, k: int, d: int)
    ensures (p + k) * d == p * d + k * d
  {
  }

  lemma {:induction false} MulAtLeast(k: int, d: int)
    requires k >= 1 && d > 0
    ensures k * d >= d
  {
    if k > 1 {
      MulAtLeast(k - 1, d);
      MulDistributes(k - 1, 1, d);
    }
  }

  lemma DivDiv(a: nat, m: nat, n: nat)
    requires m > 0 && n > 0
    ensures m * n > 0 && a / m / n == a / (m * n)
  {
    var b := a / m;
    var q, r, s := b / n, b % n, a % m;
    MulDistinct(r, n, m);
    MulRegroup(q, n, r, m);
    assert a == b * m + s && b == q * n + r;
    DivModUnique(a, m * n, q, r * m + s);
  }

  lemma MulRegroup(q: int, n: int, r: int, m: int)
    ensures (q * n + r) * m == q * (m * n) + r * m
    ensures m * n == n * m
  {
  }

  lemma {:induction false} BigEndianConcat(s: Bytes, t: Bytes)
    ensures BigEndian(s + t) == BigEndian(s) * Pow2(8 * |t|) + BigEndian(t)
  {
    if t == [] {
      assert s + t == s;
      assert Pow2(0) == 1;
    } else {
      var t' := t[..|t| - 1];
      assert (s + t)[..|s + t| - 1] == s + t' && (s + t)[|s + t| - 1] == t[|t| - 1];
      BigEndianConcat(s, t');
      Pow2Byte(|t'|);
      ShiftByte(BigEndian(s), Pow2(8 * |t'|), BigEndian(t'), t[|t| - 1]);
    }
  }

  lemma Pow2Byte(n: nat)
    ensures Pow2(8 * (n + 1)) == Pow2(8 * n) * 0x100
  {
    Pow2Add(8 * n, 8);
    Pow2Values();
  }

  lemma ShiftByte(x: int, p: int, y: int, b: int)
    ensures (x * p + y) * 0x100 + b == x * (p * 0x100) + (y * 0x100 + b)
  {
  }

  lemma {:induction false} BigEndianBound(s: Bytes)
    ensures BigEndian(s) < Pow2(8 * |s|)
  {
    if s != [] {
      BigEndianBound(s[..|s| - 1]);
      Pow2Byte(|s| - 1);
    }
  }
}
