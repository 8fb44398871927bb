/** Bytes, little-endian integers and the division facts the extent arithmetic needs. */
module Bytes {

  type byte = x: int | 0 <= x < 256

  datatype Option<+T> = None | Some(value: T)

  // off_t and int64_t stay below TWO63; __le64 keys hold values below TWO64.
  const TWO56: nat := 0x100_0000_0000_0000
  const TWO63: nat := 0x8000_0000_0000_0000
  const TWO64: nat := 0x1_0000_0000_0000_0000

  function Min(a: int, b: int): int {
    if a <= b then a else b
  }

  function Max(a: int, b: int): int {
    if a <= b then b else a
  }

  function Zeros(n: nat): (z: seq<byte>)
    ensures |z| == n
    ensures forall i :: 0 <= i < n ==> z[i] == 0
  {
    seq(n, i => 0)
  }

  /* ---- Little-endian encoding ---- */

  function Pow256(k: nat): (p: nat)
    ensures p > 0
  {
    if k == 0 then 1 else 256 * Pow256(k - 1)
  }

  // The k low-order bytes of n, least significant first (what a cast to __le64 keeps, for k == 8).
  function Le(n: nat, k: nat): (b: seq<byte>)
    ensures |b| == k
    decreases n, k
  {
    if k == 0 then [] else [n % 256] + Le(n / 256, k - 1)
  }

  function LeValue(b: seq<byte>): nat {
    if b == [] then 0 else b[0] + 256 * LeValue(b[1..])
  }

  lemma {:induction false} LeRoundTrip(n: nat, k: nat)
    ensures LeValue(Le(n, k)) == n % Pow256(k)
    decreases k
  {
    if k == 0 {
    } else {
      LeRoundTrip(n / 256, k - 1);
      var p := Pow256(k - 1);
      var b := Le(n, k);
      assert b[1..] == Le(n / 256, k - 1);
      DivModUnique(n, 256 * p, n / 256 / p, n % 256 + 256 * (n / 256 % p)) by {
        assert n == 256 * (n / 256) + n % 256;
        DivModDef(n / 256, p);
        MulShuffle(n / 256 / p, p);
      }
    }
  }

  // n without its last i bytes.
  function DropBytes(n: nat, i: nat): nat {
    if i == 0 then n else DropBytes(n / 256, i - 1)
  }

  // The i-th byte of the encoding is the i-th lowest byte of the number.
  lemma {:induction false} LeByteAt(n: nat, k: nat, i: nat)
    requires i < k
    ensures Le(n, k)[i] == DropBytes(n, i) % 256
    decreases k
  {
    if i > 0 {
      LeByteAt(n / 256, k - 1, i - 1);
    }
  }

  lemma {:induction false} LeOfValue(b: seq<byte>)
    ensures LeValue(b) < Pow256(|b|)
    ensures Le(LeValue(b), |b|) == b
  {
    if b != [] {
      LeOfValue(b[1..]);
      var n := LeValue(b);
      assert n / 256 == LeValue(b[1..]) && n % 256 == b[0];
      assert b == [b[0]] + b[1..];
    }
  }

  lemma MulShuffle(q: int, p: int)
    ensures 256 * (q * p) == q * (256 * p)
  {}

  lemma Pow256Of8()
    ensures Pow256(7) == TWO56
    ensures Pow256(8) == TWO64
  {
    assert Pow256(4) == 0x1_0000_0000;
    assert Pow256(7) == 256 * Pow256(6) && Pow256(6) == 256 * Pow256(5) && Pow256(5) == 256 * Pow256(4);
  }

  lemma Le64RoundTrip(n: nat)
    requires n < TWO64
    ensures LeValue(Le(n, 8)) == n
  {
    hide Le, LeValue;
    var k := 8;
    Pow256Of8();
    LeRoundTrip(n, k);
  }

  lemma LeInjective(m: nat, n: nat, k: nat)
    requires m < Pow256(k) && n < Pow256(k)
    requires Le(m, k) == Le(n, k)
    ensures m == n
  {
    LeRoundTrip(m, k);
    LeRoundTrip(n, k);
    DivModUnique(m, Pow256(k), 0, m);
    DivModUnique(n, Pow256(k), 0, n);
  }

  // Taking fewer bytes of the encoding is taking the number modulo a smaller power.
  lemma {:induction false} LePrefix(n: nat, j: nat, k: nat)
    requires j <= k
    ensures Le(n, k)[..j] == Le(n, j)
    decreases k
  {
    if j == 0 {
    } else {
      LePrefix(n / 256, j - 1, k - 1);
      assert Le(n, k)[..j] == [n % 256] + Le(n / 256, k - 1)[..j - 1];
    }
  }

  // A value below 256^j leaves every byte from position j on zero.
  lemma {:induction false} LeHighByteZero(n: nat, j: nat, k: nat)
    requires j < k
    requires n < Pow256(j)
    ensures Le(n, k)[j] == 0
    decreases k
  {
    if j > 0 {
      LeHighByteZero(n / 256, j - 1, k - 1);
    }
  }

  /* ---- Division by a symbolic extent size ---- */

  lemma DivModDef(p: int, e: int)
    requires e > 0
    ensures p == (p / e) * e + p % e
    ensures 0 <= p % e < e
  {}

  lemma MulStrict(a: int, b: int, e: int)
    requires a < b && e > 0
    ensures a * e + e <= b * e
  {
    var d := b - a - 1;
    assert b * e == (a + 1 + d) * e == a * e + e + d * e;
    assert d * e >= 0;
  }

  lemma DivModUnique(p: int, e: int, q: int, r: int)
    requires e > 0 && 0 <= r < e
    requires p == q * e + r
    ensures p / e == q && p % e == r
  {
    DivModDef(p, e);
    if p / e < q {
      MulStrict(p / e, q, e);
    } else if q < p / e {
      MulStrict(q, p / e, e);
    }
  }

  /* ---- Positions inside extents ----

     offset / e and offset % e of the source, for a symbolic divisor e.  They are written by repeated
     subtraction, which keeps nonlinear terms out of the proofs; ExtentIsQuotient says they agree. */

  function ExtentOf(p: nat, e: nat): nat
    requires e > 0
  {
    if p < e then 0 else 1 + ExtentOf(p - e, e)
  }

  function OffsetIn(p: nat, e: nat): (r: nat)
    requires e > 0
    ensures r < e && r <= p
  {
    if p < e then p else OffsetIn(p - e, e)
  }

  // ceil(n / e), written (n + e - 1) / e in the source.
  function ExtentCount(n: nat, e: nat): nat
    requires e > 0
  {
    ExtentOf(n + e - 1, e)
  }

  lemma {:induction false} ExtentIsQuotient(p: nat, e: nat)
    requires e > 0
    ensures ExtentOf(p, e) == p / e
    ensures OffsetIn(p, e) == p % e
  {
    if p < e {
      DivModUnique(p, e, 0, p);
    } else {
      ExtentIsQuotient(p - e, e);
      DivModDef(p - e, e);
      DivModUnique(p, e, (p - e) / e + 1, (p - e) % e);
    }
  }

  lemma PositionOf(p: nat, e: nat)
    requires e > 0
    ensures p == ExtentOf(p, e) * e + OffsetIn(p, e)
  {
    ExtentIsQuotient(p, e);
    DivModDef(p, e);
  }

  // The first position of an extent.
  function ExtentBase(index: nat, e: nat): nat {
    if index == 0 then 0 else e + ExtentBase(index - 1, e)
  }

  lemma {:induction false} EveryPlaceHasAPosition(index: nat, r: nat, e: nat)
    requires r < e
    ensures ExtentOf(ExtentBase(index, e) + r, e) == index
    ensures OffsetIn(ExtentBase(index, e) + r, e) == r
  {
    if index > 0 {
      EveryPlaceHasAPosition(index - 1, r, e);
    }
  }

  // Moving forward inside one extent keeps the index and advances the in-extent offset.
  lemma {:induction false} MoveWithin(p: nat, e: nat, d: nat)
    requires e > 0
    requires OffsetIn(p, e) + d < e
    ensures ExtentOf(p + d, e) == ExtentOf(p, e)
    ensures OffsetIn(p + d, e) == OffsetIn(p, e) + d
  {
    if p >= e {
      MoveWithin(p - e, e, d);
    }
  }

  // Moving to the end of the extent lands on the next extent boundary.
  lemma {:induction false} MoveToNext(p: nat, e: nat)
    requires e > 0
    ensures ExtentOf(p + (e - OffsetIn(p, e)), e) == ExtentOf(p, e) + 1
    ensures OffsetIn(p + (e - OffsetIn(p, e)), e) == 0
  {
    if p >= e {
      MoveToNext(p - e, e);
    }
  }

  // Two positions of the same extent are as far apart as their in-extent offsets.
  lemma {:induction false} SameExtent(p: nat, q: nat, e: nat)
    requires e > 0
    requires ExtentOf(p, e) == ExtentOf(q, e)
    ensures p - OffsetIn(p, e) == q - OffsetIn(q, e)
  {
    if p >= e && q >= e {
      SameExtent(p - e, q - e, e);
    }
  }

  lemma {:induction false} ExtentMonotone(p: nat, q: nat, e: nat)
    requires e > 0 && p <= q
    ensures ExtentOf(p, e) <= ExtentOf(q, e) <= q
  {
    if q >= e {
      ExtentMonotone(if p < e then 0 else p - e, q - e, e);
    }
  }

  // An extent index is below the count exactly when some byte of that extent is below n.
  lemma {:induction false} CountSpec(p: nat, n: nat, e: nat)
    requires e > 0
    ensures ExtentOf(p, e) < ExtentCount(n, e) <==> p - OffsetIn(p, e) < n
    decreases p
  {
    if p >= e && n >= e {
      CountSpec(p - e, n - e, e);
    } else if p >= e {
      ExtentMonotone(n + e - 1, e + e - 1, e);
      assert ExtentOf(p, e) >= 1;
    } else if n > 0 {
      ExtentMonotone(e, n + e - 1, e);
    }
  }

  lemma CountMonotone(m: nat, n: nat, e: nat)
    requires e > 0 && m <= n
    ensures ExtentCount(m, e) <= ExtentCount(n, e)
  {
    ExtentMonotone(m + e - 1, n + e - 1, e);
  }

  // 64-bit unsigned subtraction, as size_t arithmetic performs it.
  function Sub64(a: nat, b: nat): nat
    requires a < TWO64 && b < TWO64
  {
    if b <= a then a - b else TWO64 - (b - a)
  }
}
