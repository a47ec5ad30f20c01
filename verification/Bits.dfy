/** Fixed-width unsigned arithmetic as the C sources use it: 64-bit wrap-around, bitwise
    operators, the power-of-two alignment mask, and the little-endian layout of a word. */
module Bits {

  type Byte = x: int | 0 <= x < 256

  const W64: nat := 0x1_0000_0000_0000_0000

  /** A 64-bit address, or the bit pattern of a signed one. */
  type Address = x: int | 0 <= x < 0x1_0000_0000_0000_0000

  /** Reduction to 64 bits; also the unsigned reading of a negative intermediate result. */
  function Wrap(x: int): nat {
    x % W64
  }

  function Pow2(k: nat): (r: nat)
    ensures r > 0
  {
    if k == 0 then 1 else 2 * Pow2(k - 1)
  }

  function And(x: nat, y: nat): nat {
    if x == 0 || y == 0 then 0
    else 2 * And(x / 2, y / 2) + (if x % 2 == 1 && y % 2 == 1 then 1 else 0)
  }

  function Or(x: nat, y: nat): nat
    decreases x + y
  {
    if x == 0 && y == 0 then 0
    else 2 * Or(x / 2, y / 2) + (if x % 2 == 1 || y % 2 == 1 then 1 else 0)
  }

  function Xor(x: nat, y: nat): nat
    decreases x + y
  {
    if x == 0 && y == 0 then 0
    else 2 * Xor(x / 2, y / 2) + (if x % 2 != y % 2 then 1 else 0)
  }

  /** Bitwise complement of a 64-bit value. */
  function Not64(x: nat): nat
    requires x < W64
  {
    W64 - 1 - x
  }

  // ---------------------------------------------------------------- masks

  lemma {:induction false} AndAllOnes(x: nat, w: nat)
    requires x < Pow2(w)
    ensures And(x, Pow2(w) - 1) == x
  {
    if w == 0 || x == 0 {
    } else {
      AndAllOnes(x / 2, w - 1);
      assert (Pow2(w) - 1) / 2 == Pow2(w - 1) - 1;
    }
  }

  /** Clearing the k low bits of a w-bit value rounds it down to a multiple of 2^k. */
  lemma {:induction false} ClearLowBits(x: nat, k: nat, w: nat)
    requires x < Pow2(w) && k <= w
    ensures Pow2(k) <= Pow2(w)
    ensures And(x, Pow2(w) - Pow2(k)) == x - x % Pow2(k)
  {
    if k == 0 {
      AndAllOnes(x, w);
    } else {
      ClearLowBits(x / 2, k - 1, w - 1);
      var p, q := Pow2(k - 1), Pow2(w - 1);
      AndDouble(x, q - p);
      RoundDownHalve(x, p);
      assert Pow2(k) == 2 * p && Pow2(w) - Pow2(k) == 2 * (q - p);
    }
  }

  lemma AndDouble(x: nat, m: nat)
    ensures And(x, 2 * m) == 2 * And(x / 2, m)
  {
    assert 2 * m / 2 == m;
  }

  lemma RoundDownHalve(x: nat, p: nat)
    requires p > 0
    ensures x - x % (2 * p) == 2 * (x / 2 - x / 2 % p)
  {
    HalveMod(x, p);
  }

  lemma HalveMod(x: nat, p: nat)
    requires p > 0
    ensures x % (2 * p) == 2 * (x / 2 % p) + x % 2
  {
    var q, r := x / 2 / p, x / 2 % p;
    assert x == 2 * (p * q + r) + x % 2;
    DivModUnique(x, 2 * p, q, 2 * r + x % 2);
  }

  lemma DivModUnique(x: int, d: int, q: int, r: int)
    requires d > 0 && 0 <= r < d
    requires x == d * q + r
    ensures x / d == q && x % d == r
  {
    var q', r' := x / d, x % d;
    assert x == d * q' + r';
    if q > q' {
      MulMonotone(d, q' + 1, q);
    } else if q < q' {
      MulMonotone(d, q + 1, q');
    }
  }

  lemma MulMonotone(a: int, x: int, y: int)
    requires a >= 0 && x <= y
    ensures a * x <= a * y
  {
  }

  lemma Pow2Is64()
    ensures Pow2(64) == W64
  {
    Pow2Shift8(0);
    Pow2Shift8(8);
    Pow2Shift8(16);
    Pow2Shift8(24);
    Pow2Shift8(32);
    Pow2Shift8(40);
    Pow2Shift8(48);
    Pow2Shift8(56);
  }

  // ---------------------------------------------------------------- alignment

  /** `(n + a - 1) & ~(a - 1)` on 64-bit unsigned operands. */
  function AlignUp(n: nat, a: nat): nat
    requires 0 < a < W64
  {
    And(Wrap(n + a - 1), Not64(a - 1))
  }

  lemma Pow2Monotone(j: nat, k: nat)
    requires j <= k
    ensures Pow2(j) <= Pow2(k)
  {
  }

  lemma Pow2Below(k: nat)
    requires k < 64
    ensures 0 < Pow2(k) < W64
  {
    Pow2Is64();
    Pow2Monotone(k + 1, 64);
  }

  lemma MultiplesApart(m: nat, r: nat, a: nat)
    requires a > 0 && m % a == 0 && r % a == 0 && m < r
    ensures m + a <= r
  {
    assert m == a * (m / a) && r == a * (r / a);
    if r / a <= m / a {
      MulMonotone(a, r / a, m / a);
    } else {
      MulMonotone(a, m / a + 1, r / a);
    }
  }

  lemma RoundDownIsMultiple(x: nat, a: nat)
    requires a > 0
    ensures 0 <= x - x % a && (x - x % a) % a == 0
  {
    DivModUnique(x - x % a, a, x / a, 0);
  }

  /** r is the least multiple of a at or above n. */
  ghost predicate LeastMultiple(r: int, n: nat, a: nat)
    requires a > 0
  {
    n <= r < n + a && r % a == 0
  }

  lemma LeastMultipleIsLeast(r: nat, n: nat, a: nat, m: nat)
    requires a > 0 && LeastMultiple(r, n, a)
    requires m % a == 0 && n <= m
    ensures r <= m
  {
    if m < r {
      MultiplesApart(m, r, a);
    }
  }

  /** The least multiple of a at or above n, by its padding. */
  function RoundUp(n: nat, a: nat): nat
    requires a > 0
  {
    if n % a == 0 then n else n + a - n % a
  }

  lemma RoundUpIsLeast(n: nat, a: nat, r: nat)
    requires a > 0
    ensures LeastMultiple(r, n, a) <==> r == RoundUp(n, a)
  {
    if n % a != 0 {
      DivModUnique(RoundUp(n, a), a, n / a + 1, 0);
    }
    if LeastMultiple(r, n, a) {
      LeastMultipleIsLeast(r, n, a, RoundUp(n, a));
      LeastMultipleIsLeast(RoundUp(n, a), n, a, r);
    }
  }

  /** For a power of two the mask yields the least multiple at or above n, and it fails to do
      so exactly when the addition before the mask wraps, where it yields 0. */
  lemma AlignUpExact(n: nat, k: nat)
    requires n < W64 && k < 64
    ensures 0 < Pow2(k) < W64
    ensures LeastMultiple(AlignUp(n, Pow2(k)), n, Pow2(k)) <==> n <= W64 - Pow2(k)
    ensures n > W64 - Pow2(k) ==> AlignUp(n, Pow2(k)) == 0
    ensures AlignUp(n, Pow2(k)) < W64
    ensures AlignUp(n, Pow2(k)) % Pow2(k) == 0
  {
    Pow2Below(k);
    Pow2Is64();
    var a := Pow2(k);
    ClearLowBits(Wrap(n + a - 1), k, 64);
    AlignByRoundingDown(n, a, AlignUp(n, a));
  }

  lemma AlignByRoundingDown(n: nat, a: nat, r: nat)
    requires n < W64 && 0 < a < W64
    requires r == Wrap(n + a - 1) - Wrap(n + a - 1) % a
    ensures LeastMultiple(r, n, a) <==> n <= W64 - a
    ensures n > W64 - a ==> r == 0
    ensures r < W64 && r % a == 0
  {
    var x := Wrap(n + a - 1);
    RoundDownIsMultiple(x, a);
    if n > W64 - a {
      assert x == n + a - 1 - W64;
      DivModUnique(x, a, 0, x);
    } else {
      assert x == n + a - 1;
    }
  }

  /** Aligning is idempotent and monotone wherever it does not wrap. */
  lemma AlignUpIdempotentMonotone(m: nat, n: nat, k: nat)
    requires k < 64 && 0 < Pow2(k) < W64
    requires m <= n <= W64 - Pow2(k)
    ensures AlignUp(m, Pow2(k)) <= AlignUp(n, Pow2(k))
    ensures AlignUp(AlignUp(n, Pow2(k)), Pow2(k)) == AlignUp(n, Pow2(k))
  {
    var a := Pow2(k);
    AlignUpExact(m, k);
    AlignUpExact(n, k);
    var r := AlignUp(n, a);
    LeastMultipleIsLeast(AlignUp(m, a), m, a, r);
    Pow2Divides(k, 64);
    Pow2Is64();
    MultiplesApart(r, W64, a);
    AlignUpExact(r, k);
    LeastMultipleIsLeast(AlignUp(r, a), r, a, r);
  }

  lemma Pow2Divides(j: nat, k: nat)
    requires j <= k
    ensures Pow2(k) % Pow2(j) == 0
  {
    if j == k {
      DivModUnique(Pow2(k), Pow2(j), 1, 0);
    } else {
      Pow2Divides(j, k - 1);
      var q := Pow2(k - 1) / Pow2(j);
      DivModUnique(Pow2(k), Pow2(j), 2 * q, 0);
    }
  }

  // ---------------------------------------------------------------- words

  /** Little-endian value of a byte sequence. */
  function Pack(bytes: seq<Byte>): nat {
    if bytes == [] then 0 else bytes[0] + 256 * Pack(bytes[1..])
  }

  /** The n low bytes of a value, least significant first. */
  function Unpack(w: nat, n: nat): (bytes: seq<Byte>)
    ensures |bytes| == n
  {
    if n == 0 then [] else [w % 256] + Unpack(w / 256, n - 1)
  }

  lemma {:induction false} UnpackPack(bytes: seq<Byte>)
    ensures Unpack(Pack(bytes), |bytes|) == bytes
  {
    if bytes != [] {
      UnpackPack(bytes[1..]);
      DivModUnique(Pack(bytes), 256, Pack(bytes[1..]), bytes[0]);
      assert bytes == [bytes[0]] + bytes[1..];
    }
  }

  lemma {:induction false} PackBound(bytes: seq<Byte>)
    ensures Pack(bytes) < Pow2(8 * |bytes|)
    ensures Pack(bytes) == Pow2(8 * |bytes|) - 1 <==> forall i :: 0 <= i < |bytes| ==> bytes[i] == 255
  {
    if bytes != [] {
      PackBound(bytes[1..]);
      Pow2Shift8(8 * |bytes[1..]|);
      if forall i :: 0 <= i < |bytes[1..]| ==> bytes[1..][i] == 255 {
        assert forall i :: 1 <= i < |bytes| ==> bytes[i] == bytes[1..][i - 1];
      } else {
        var i :| 0 <= i < |bytes[1..]| && bytes[1..][i] != 255;
        assert bytes[i + 1] != 255;
      }
    }
  }

  lemma Pow2Shift8(k: nat)
    ensures Pow2(k + 8) == 256 * Pow2(k)
  {
    assert Pow2(k + 8) == 2 * Pow2(k + 7) == 4 * Pow2(k + 6) == 8 * Pow2(k + 5) == 16 * Pow2(k + 4);
    assert Pow2(k + 4) == 2 * Pow2(k + 3) == 4 * Pow2(k + 2) == 8 * Pow2(k + 1) == 16 * Pow2(k);
  }

  /** Or-ing a value below 2^k into one whose k low bits are clear is addition. */
  lemma {:induction false} OrLowBits(x: nat, b: nat, k: nat)
    requires b < Pow2(k) && x % Pow2(k) == 0
    ensures Or(x, b) == x + b
  {
    if k == 0 {
      OrZero(x);
    } else {
      HalveMod(x, Pow2(k - 1));
      OrLowBits(x / 2, b / 2, k - 1);
    }
  }

  lemma {:induction false} OrZero(x: nat)
    ensures Or(x, 0) == x
  {
    if x != 0 {
      OrZero(x / 2);
    }
  }

  /** A mask and its complement split a value. */
  lemma {:induction false} AndComplement(x: nat, m: nat, w: nat)
    requires x < Pow2(w) && m < Pow2(w)
    ensures And(x, m) + And(x, Pow2(w) - 1 - m) == x
  {
    if w != 0 {
      var m' := Pow2(w) - 1 - m;
      assert m' / 2 == Pow2(w - 1) - 1 - m / 2;
      assert m' % 2 == 1 - m % 2;
      AndComplement(x / 2, m / 2, w - 1);
      AndStep(x, m);
      AndStep(x, m');
    }
  }

  lemma AndStep(x: nat, y: nat)
    ensures And(x, y) == 2 * And(x / 2, y / 2) + (if x % 2 == 1 && y % 2 == 1 then 1 else 0)
  {
  }

  lemma PatchWord(w: nat, b: Byte)
    requires w < W64
    ensures Or(And(w, Not64(0xFF)), b) == w - w % 256 + b
    ensures And(w, 0xFF) == w % 256
  {
    Pow2Is64();
    assert Pow2(8) == 256;
    ClearLowBits(w, 8, 64);
    AndComplement(w, 0xFF, 64);
    assert Not64(0xFF) == Pow2(64) - Pow2(8);
    var x: nat := w - w % 256;
    OrLowBits(x, b, 8);
  }

  /** A packed 8-byte word is a 64-bit value, and it is all ones exactly when every byte is. */
  lemma PackedWord(bytes: seq<Byte>)
    requires |bytes| == 8
    ensures Pack(bytes) < W64
    ensures Pack(bytes) == W64 - 1 <==> forall i :: 0 <= i < 8 ==> bytes[i] == 255
  {
    PackBound(bytes);
    Pow2Is64();
    assert Pow2(8 * |bytes|) == W64;
  }

  lemma PackSplit(bytes: seq<Byte>, b: Byte)
    requires |bytes| > 0
    ensures Pack(bytes) % 256 == bytes[0]
    ensures Pack([b] + bytes[1..]) == Pack(bytes) - bytes[0] + b
  {
    DivModUnique(Pack(bytes), 256, Pack(bytes[1..]), bytes[0]);
    var patched := [b] + bytes[1..];
    assert patched[1..] == bytes[1..];
  }

  /** Masking off the low byte of a packed 8-byte word and or-ing in b replaces byte 0 alone. */
  lemma PatchLowByte(bytes: seq<Byte>, b: Byte)
    requires |bytes| == 8
    ensures Pack(bytes) < W64
    ensures Or(And(Pack(bytes), Not64(0xFF)), b) == Pack([b] + bytes[1..])
    ensures And(Pack(bytes), 0xFF) == bytes[0]
  {
    PackedWord(bytes);
    PackSplit(bytes, b);
    PatchWord(Pack(bytes), b);
  }

  // ---------------------------------------------------------------- exclusive or

  lemma {:induction false} XorZero(x: nat)
    ensures Xor(x, 0) == x
  {
    if x != 0 {
      XorZero(x / 2);
    }
  }

  lemma {:induction false} XorCancels(x: nat, y: nat)
    ensures Xor(Xor(x, y), y) == x
    decreases x + y
  {
    if x != 0 || y != 0 {
      XorCancels(x / 2, y / 2);
      var z := Xor(x, y);
      assert z / 2 == Xor(x / 2, y / 2);
    }
  }

  lemma XorHalve(x: nat, y: nat)
    ensures Xor(x, y) / 2 == Xor(x / 2, y / 2)
  {
  }

  /** Logical shift right. */
  function Shr(x: nat, k: nat): nat {
    if k == 0 then x else Shr(x / 2, k - 1)
  }

  lemma {:induction false} ShrXor(x: nat, y: nat, k: nat)
    ensures Shr(Xor(x, y), k) == Xor(Shr(x, k), Shr(y, k))
  {
    if k != 0 {
      XorHalve(x, y);
      ShrXor(x / 2, y / 2, k - 1);
    }
  }

  lemma {:induction false} ShrDivides(x: nat, k: nat)
    ensures Pow2(k) > 0 && Shr(x, k) == x / Pow2(k)
  {
    if k != 0 {
      ShrDivides(x / 2, k - 1);
      HalveDiv(x, Pow2(k - 1));
    }
  }

  lemma HalveDiv(x: nat, p: nat)
    requires p > 0
    ensures x / (2 * p) == x / 2 / p
  {
    var q, r := x / 2 / p, x / 2 % p;
    assert x == 2 * (p * q + r) + x % 2;
    DivModUnique(x, 2 * p, q, 2 * r + x % 2);
  }

  /** The low bits of a xor are the xor of the low bits. */
  lemma {:induction false} XorLowBits(x: nat, y: nat, k: nat)
    ensures Pow2(k) > 0 && Xor(x, y) % Pow2(k) == Xor(x % Pow2(k), y % Pow2(k))
  {
    if k != 0 {
      var p := Pow2(k - 1);
      XorLowBits(x / 2, y / 2, k - 1);
      XorHalve(x, y);
      HalveMod(Xor(x, y), p);
      HalveMod(x, p);
      HalveMod(y, p);
      XorParity(x, y);
      XorDouble(x / 2 % p, y / 2 % p, x % 2, y % 2);
      assert Pow2(k) == 2 * p;
    }
  }

  lemma XorParity(x: nat, y: nat)
    ensures Xor(x, y) % 2 == if x % 2 != y % 2 then 1 else 0
  {
  }

  lemma XorDouble(x: nat, y: nat, a: nat, b: nat)
    requires a < 2 && b < 2
    ensures Xor(2 * x + a, 2 * y + b) == 2 * Xor(x, y) + (if a != b then 1 else 0)
  {
    assert (2 * x + a) / 2 == x && (2 * y + b) / 2 == y;
  }

  lemma {:induction false} ShrAll(x: nat, k: nat)
    requires x < Pow2(k)
    ensures Shr(x, k) == 0
  {
    if k != 0 {
      ShrAll(x / 2, k - 1);
    }
  }

  lemma {:induction false} ShrShr(x: nat, j: nat, k: nat)
    ensures Shr(Shr(x, j), k) == Shr(x, j + k)
  {
    if j != 0 {
      ShrShr(x / 2, j - 1, k);
    }
  }

  lemma {:induction false} XorBound(x: nat, y: nat, k: nat)
    requires x < Pow2(k) && y < Pow2(k)
    ensures Xor(x, y) < Pow2(k)
  {
    if k != 0 {
      XorBound(x / 2, y / 2, k - 1);
    }
  }
}
