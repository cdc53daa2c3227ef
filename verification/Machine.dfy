/** Fixed-width arithmetic shared by the models: unsigned 32-bit words, bytes and
    the bitwise operators, written over integers so that wrap-around is explicit. */
module Machine {

  const WORD_MODULUS := 0x1_0000_0000

  type uint32 = x: int | 0 <= x < 0x1_0000_0000
  type byte = x: int | 0 <= x < 0x100

  datatype Option<+T> = None | Some(value: T)

  function Add32(a: int, b: int): uint32 {
    (a + b) % WORD_MODULUS
  }

  function Sub32(a: int, b: int): uint32 {
    (a - b) % WORD_MODULUS
  }

  function Min(a: nat, b: nat): nat {
    if a <= b then a else b
  }

  function Pow2(k: nat): (r: nat)
    ensures 1 <= r
  {
    if k == 0 then 1 else 2 * Pow2(k - 1)
  }

  /** Bitwise exclusive or of the low `k` bits. */
  function XorBits(a: nat, b: nat, k: nat): (r: nat)
    ensures r < Pow2(k)
  {
    if k == 0 then 0 else (a + b) % 2 + 2 * XorBits(a / 2, b / 2, k - 1)
  }

  /** Bitwise or of the low `k` bits. */
  function OrBits(a: nat, b: nat, k: nat): (r: nat)
    ensures r < Pow2(k)
  {
    if k == 0 then 0
    else (if a % 2 == 1 || b % 2 == 1 then 1 else 0) + 2 * OrBits(a / 2, b / 2, k - 1)
  }

  function Xor32(a: uint32, b: uint32): uint32 {
    Pow2Word();
    XorBits(a, b, 32)
  }

  lemma {:induction false} XorZero(a: nat, k: nat)
    requires a < Pow2(k)
    ensures XorBits(a, 0, k) == a == XorBits(0, a, k)
  {
    if k > 0 {
      XorZero(a / 2, k - 1);
    }
  }

  lemma Xor32Zero(a: uint32)
    ensures Xor32(a, 0) == a == Xor32(0, a)
  {
    Pow2Word();
    XorZero(a, 32);
  }

  /** Bit `i`, counted from the least significant. */
  function Bit(a: nat, i: nat): nat {
    if i == 0 then a % 2 else Bit(a / 2, i - 1)
  }

  /** `r` has a bit set exactly where one of `a` and `b` has, and not the other. */
  ghost predicate IsXor(r: uint32, a: uint32, b: uint32) {
    forall i: nat :: i < 32 ==> Bit(r, i) == if Bit(a, i) == Bit(b, i) then 0 else 1
  }

  lemma XorHalves(low: nat, high: nat)
    requires low < 2
    ensures (low + 2 * high) % 2 == low && (low + 2 * high) / 2 == high
  {
  }

  lemma Parity(a: nat, b: nat)
    ensures (a + b) % 2 == if a % 2 == b % 2 then 0 else 1
  {
  }

  lemma {:induction false} XorBit(a: nat, b: nat, k: nat, i: nat)
    requires i < k
    ensures Bit(XorBits(a, b, k), i) == if Bit(a, i) == Bit(b, i) then 0 else 1
  {
    Parity(a, b);
    XorHalves((a + b) % 2, XorBits(a / 2, b / 2, k - 1));
    if i > 0 {
      XorBit(a / 2, b / 2, k - 1, i - 1);
    }
  }

  lemma {:induction false} BitsDetermine(a: nat, b: nat, k: nat)
    requires a < Pow2(k) && b < Pow2(k)
    requires forall i: nat :: i < k ==> Bit(a, i) == Bit(b, i)
    ensures a == b
  {
    if k > 0 {
      assert Bit(a, 0) == Bit(b, 0);
      forall i: nat | i < k - 1 ensures Bit(a / 2, i) == Bit(b / 2, i) {
        assert Bit(a, i + 1) == Bit(b, i + 1);
      }
      BitsDetermine(a / 2, b / 2, k - 1);
    }
  }

  /** Xor32 is the exclusive or of the bits, and the only word that is. */
  lemma XorExactly(r: uint32, a: uint32, b: uint32)
    ensures IsXor(r, a, b) <==> r == Xor32(a, b)
  {
    Pow2Word();
    forall i: nat | i < 32 ensures Bit(Xor32(a, b), i) == if Bit(a, i) == Bit(b, i) then 0 else 1 {
      XorBit(a, b, 32, i);
    }
    if IsXor(r, a, b) {
      BitsDetermine(r, Xor32(a, b), 32);
    }
  }

  function Or32(a: uint32, b: uint32): uint32 {
    Pow2Word();
    OrBits(a, b, 32)
  }

  lemma Pow2Word()
    ensures Pow2(8) == 0x100 && Pow2(16) == 0x1_0000 && Pow2(24) == 0x100_0000 && Pow2(32) == WORD_MODULUS
  {
    assert Pow2(8) == 0x100;
    assert Pow2(16) == 0x100 * Pow2(8);
    assert Pow2(24) == 0x100 * Pow2(16);
    assert Pow2(32) == 0x100 * Pow2(24);
  }

  lemma {:induction false} OrZero(b: nat, k: nat)
    requires b < Pow2(k)
    ensures OrBits(0, b, k) == b
  {
    if k > 0 {
      OrZero(b / 2, k - 1);
    }
  }

  /** Or-ing a value into bit lanes that are still clear is addition. */
  lemma {:induction false} OrIntoClearLane(a: nat, c: nat, j: nat, k: nat)
    requires a < Pow2(j) && c * Pow2(j) < Pow2(k) && j <= k
    ensures OrBits(a, c * Pow2(j), k) == a + c * Pow2(j)
  {
    if j == 0 {
      OrZero(c, k);
    } else {
      var half := c * Pow2(j - 1);
      assert c * Pow2(j) == 2 * half;
      OrIntoClearLane(a / 2, c, j - 1, k - 1);
    }
  }

  function Concat<T>(parts: seq<seq<T>>): seq<T> {
    if parts == [] then [] else parts[0] + Concat(parts[1..])
  }

  lemma {:induction false} ConcatSnoc<T>(parts: seq<seq<T>>, last: seq<T>)
    ensures Concat(parts + [last]) == Concat(parts) + last
  {
    if parts == [] {
      assert parts + [last] == [last];
      assert Concat([last]) == last;
    } else {
      assert (parts + [last])[1..] == parts[1..] + [last];
      ConcatSnoc(parts[1..], last);
    }
  }

  lemma Regroup<T>(a: seq<T>, b: seq<T>, c: seq<T>)
    ensures (a + b) + c == a + (b + c)
  {
  }

  function Range(n: nat): set<nat> {
    if n == 0 then {} else Range(n - 1) + {n - 1}
  }

  lemma {:induction false} RangeSize(n: nat)
    ensures |Range(n)| == n && forall i: int :: i in Range(n) <==> 0 <= i < n
  {
    if n > 0 {
      RangeSize(n - 1);
    }
  }

  lemma {:induction false} SubsetSize<T>(a: set<T>, b: set<T>)
    requires a <= b
    ensures |a| <= |b|
  {
    if a != {} {
      var x :| x in a;
      SubsetSize(a - {x}, b - {x});
    }
  }
}
