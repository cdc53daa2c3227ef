/** The word cipher of src/utility/crypto.cpp: Corrected Block TEA.

    Every round updates each word from its two cyclic neighbours.  The functions
    below say that directly on a sequence; the methods run the in-place loops of the
    source, with its running variables, and are proved to compute the same. */
module Xxtea {
  import opened Machine

  const DELTA: uint32 := 0x9e37_79b9

  type Key = k: seq<uint32> | |k| == 4 witness [0, 0, 0, 0]

  /** Which key word position `p` of a round uses: `(p & 3) ^ e`. */
  function KeyIndex(p: nat, e: nat): (i: nat)
    ensures i < 4
  {
    assert Pow2(2) == 4;
    XorBits(p % 4, e, 2)
  }

  /** The MX macro; shifts are written as multiplication and division by powers of two. */
  function Mix(z: uint32, y: uint32, sum: uint32, p: nat, e: nat, key: Key): uint32 {
    Combine(Xor32, z, y, sum, key[KeyIndex(p, e)])
  }

  function Combine(xor: (uint32, uint32) -> uint32, z: uint32, y: uint32, sum: uint32, word: uint32): uint32 {
    xor(
      Add32(xor(z / 32, y * 4 % 0x1_0000_0000), xor(y / 8, z * 16 % 0x1_0000_0000)),
      Add32(xor(sum, y), xor(word, z)))
  }

  /** Two-bit exclusive or, as a table. */
  lemma KeyIndexTable(p: nat, e: nat)
    requires e < 4
    ensures KeyIndex(p, e) == [[0, 1, 2, 3], [1, 0, 3, 2], [2, 3, 0, 1], [3, 2, 1, 0]][p % 4][e]
  {
    var a := p % 4;
    assert XorBits(a, e, 2) == (a + e) % 2 + 2 * XorBits(a / 2, e / 2, 1);
    assert XorBits(a / 2, e / 2, 1) == (a / 2 + e / 2) % 2 + 2 * XorBits(a / 4, e / 4, 0);
  }

  lemma CombineZ(xor: (uint32, uint32) -> uint32, z: uint32, sum: uint32, high: uint32)
    requires high == z * 16 % 0x1_0000_0000
    requires forall a: uint32 :: xor(a, 0) == a == xor(0, a)
    ensures Combine(xor, z, 0, sum, 0) == xor(Add32(z / 32, high), Add32(sum, z))
  {
    assert xor(sum, 0) == sum && xor(0, z) == z;
    assert xor(z / 32, 0) == z / 32 && xor(0, high) == high;
  }

  lemma CombineY(xor: (uint32, uint32) -> uint32, y: uint32, word: uint32, high: uint32)
    requires high == y * 4 % 0x1_0000_0000
    requires forall a: uint32 :: xor(a, 0) == a == xor(0, a)
    ensures Combine(xor, 0, y, 0, word) == xor(Add32(high, y / 8), Add32(y, word))
  {
    assert xor(0, y) == y && xor(word, 0) == word;
    assert xor(0, high) == high && xor(y / 8, 0) == y / 8;
  }

  lemma CombineWord(xor: (uint32, uint32) -> uint32, sum: uint32, word: uint32)
    requires forall a: uint32 :: xor(a, 0) == a == xor(0, a)
    ensures Combine(xor, 0, 0, sum, word) == Add32(sum, word)
  {
    assert Add32(xor(0, 0), xor(0, 0)) == 0;
    assert xor(sum, 0) == sum && xor(word, 0) == word;
  }

  /** What each neighbour, next to the round constant or the key word, contributes to the macro. */
  lemma MixByInput(z: uint32, y: uint32, sum: uint32, p: nat, e: nat, key: Key)
    ensures Mix(z, 0, sum, p, e, [0, 0, 0, 0]) == Xor32(Add32(z / 32, z * 16 % WORD_MODULUS), Add32(sum, z))
    ensures Mix(0, y, 0, p, e, key) == Xor32(Add32(y * 4 % WORD_MODULUS, y / 8), Add32(y, key[KeyIndex(p, e)]))
    ensures Mix(0, 0, sum, p, e, key) == Add32(sum, key[KeyIndex(p, e)])
  {
    forall a: uint32 ensures Xor32(a, 0) == a == Xor32(0, a) {
      Xor32Zero(a);
    }
    CombineZ(Xor32, z, sum, z * 16 % WORD_MODULUS);
    CombineY(Xor32, y, key[KeyIndex(p, e)], y * 4 % WORD_MODULUS);
    CombineWord(Xor32, sum, key[KeyIndex(p, e)]);
  }

  /** The round constant: `r` additions of DELTA, wrapping. */
  function Schedule(r: nat): uint32 {
    r * 0x9e37_79b9 % 0x1_0000_0000
  }

  function Rounds(len: nat): nat
    requires len > 0
  {
    6 + 52 / len
  }

  function Before(p: nat, len: nat): nat
    requires p < len
  {
    if p == 0 then len - 1 else p - 1
  }

  function After(p: nat, len: nat): nat
    requires p < len
  {
    if p + 1 == len then 0 else p + 1
  }

  /** The contribution of the neighbours z and y to the word at a position. */
  type RoundFunction = (nat, uint32, uint32) -> uint32

  /** The MX macro with everything but `sum` fixed; all that is proved below holds whatever
      the macro computes. */
  type Mixer = uint32 -> RoundFunction

  function MixWith(key: Key): Mixer {
    sum => (p, z, y) => Mix(z, y, sum, p, sum / 4 % 4, key)
  }

  function EncStep(v: seq<uint32>, p: nat, f: RoundFunction): seq<uint32>
    requires p < |v|
  {
    v[p := Add32(v[p], f(p, v[Before(p, |v|)], v[After(p, |v|)]))]
  }

  function DecStep(v: seq<uint32>, p: nat, f: RoundFunction): seq<uint32>
    requires p < |v|
  {
    v[p := Sub32(v[p], f(p, v[Before(p, |v|)], v[After(p, |v|)]))]
  }

  /** One encryption round restricted to words 0 .. i-1, ascending. */
  function EncPass(v: seq<uint32>, i: nat, f: RoundFunction): (w: seq<uint32>)
    requires i <= |v|
    ensures |w| == |v|
  {
    if i == 0 then v else EncStep(EncPass(v, i - 1, f), i - 1, f)
  }

  /** One decryption round restricted to words i-1 .. 0, descending. */
  function DecPass(v: seq<uint32>, i: nat, f: RoundFunction): (w: seq<uint32>)
    requires i <= |v|
    ensures |w| == |v|
    decreases i
  {
    if i == 0 then v else DecPass(DecStep(v, i - 1, f), i - 1, f)
  }

  /** Rounds 1 .. r, round i with the function g(i). */
  function EncRounds(v: seq<uint32>, r: nat, g: nat -> RoundFunction): (w: seq<uint32>)
    ensures |w| == |v|
  {
    if r == 0 then v else EncPass(EncRounds(v, r - 1, g), |v|, g(r))
  }

  /** Rounds r .. 1, in that order. */
  function DecRounds(v: seq<uint32>, r: nat, g: nat -> RoundFunction): (w: seq<uint32>)
    ensures |w| == |v|
    decreases r
  {
    if r == 0 then v else DecRounds(DecPass(v, |v|, g(r)), r - 1, g)
  }

  function Family(mx: Mixer): nat -> RoundFunction {
    r => mx(Schedule(r))
  }

  function EncryptWords(v: seq<uint32>, mx: Mixer): (w: seq<uint32>)
    ensures |w| == |v|
  {
    if |v| < 2 then v else EncRounds(v, Rounds(|v|), Family(mx))
  }

  function DecryptWords(v: seq<uint32>, mx: Mixer): (w: seq<uint32>)
    ensures |w| == |v|
  {
    if |v| < 2 then v else DecRounds(v, Rounds(|v|), Family(mx))
  }

  // ---------------------------------------------------------------- what the cipher is

  /** The exclusive or of two numbers below 4. */
  const INDEX := [[0, 1, 2, 3], [1, 0, 3, 2], [2, 3, 0, 1], [3, 2, 1, 0]]

  ghost predicate MacroParts(m: uint32, z: uint32, y: uint32, sum: uint32, word: uint32,
                             a: uint32, b: uint32, c: uint32, d: uint32) {
    && IsXor(a, z / 32, y * 4 % 0x1_0000_0000) && IsXor(b, y / 8, z * 16 % 0x1_0000_0000)
    && IsXor(c, sum, y) && IsXor(d, word, z)
    && IsXor(m, (a + b) % 0x1_0000_0000, (c + d) % 0x1_0000_0000)
  }

  /** `m` is the value of the macro, said in shifts, sums and bits. */
  ghost predicate IsMacro(m: uint32, z: uint32, y: uint32, sum: uint32, word: uint32) {
    exists a, b, c, d :: MacroParts(m, z, y, sum, word, a, b, c, d)
  }

  /** Word `p` of a round: what it was plus the macro over the left neighbour of this round and the right
      neighbour of the round before, cyclic at both ends. */
  ghost predicate IsUpdate(before: seq<uint32>, after: seq<uint32>, p: nat, sum: uint32, key: Key)
    requires |before| == |after| && p < |before|
  {
    var n := |before|;
    var z, y := if p == 0 then before[n - 1] else after[p - 1], if p == n - 1 then after[0] else before[p + 1];
    exists m: uint32 ::
      && IsMacro(m, z, y, sum, key[INDEX[p % 4][sum / 4 % 4]])
      && after[p] == (before[p] + m) % 0x1_0000_0000
  }

  ghost predicate IsRound(before: seq<uint32>, after: seq<uint32>, sum: uint32, key: Key) {
    |before| == |after| && forall p :: 0 <= p < |before| ==> IsUpdate(before, after, p, sum, key)
  }

  /** Row r + 1 comes from row r with the constant of round r + 1. */
  ghost predicate AreRows(rows: seq<seq<uint32>>, key: Key) {
    forall r :: 0 <= r < |rows| - 1 ==> IsRound(rows[r], rows[r + 1], (r + 1) * 0x9e37_79b9 % 0x1_0000_0000, key)
  }

  ghost predicate Lead(rows: seq<seq<uint32>>, v: seq<uint32>, w: seq<uint32>, key: Key)
    requires v != []
  {
    |rows| == 7 + 52 / |v| && rows[0] == v && rows[|rows| - 1] == w && AreRows(rows, key)
  }

  /** The cipher, without its functions: 6 + 52 / |v| rounds lead from `v` to `w`; a single word stays. */
  ghost predicate IsEncryption(v: seq<uint32>, w: seq<uint32>, key: Key) {
    if |v| < 2 then w == v else exists rows :: Lead(rows, v, w, key)
  }

  lemma MacroExactly(m: uint32, z: uint32, y: uint32, sum: uint32, p: nat, e: nat, key: Key)
    requires e < 4
    ensures IsMacro(m, z, y, sum, key[INDEX[p % 4][e]]) <==> m == Mix(z, y, sum, p, e, key)
  {
    KeyIndexTable(p, e);
    var word := key[KeyIndex(p, e)];
    var a, b := Xor32(z / 32, y * 4 % 0x1_0000_0000), Xor32(y / 8, z * 16 % 0x1_0000_0000);
    var c, d := Xor32(sum, y), Xor32(word, z);
    XorAlways(z / 32, y * 4 % 0x1_0000_0000);
    XorAlways(y / 8, z * 16 % 0x1_0000_0000);
    XorAlways(sum, y);
    XorAlways(word, z);
    XorAlways(Add32(a, b), Add32(c, d));
    if m == Mix(z, y, sum, p, e, key) {
      assert MacroParts(m, z, y, sum, word, a, b, c, d);
    }
  }

  lemma XorAlways(a: uint32, b: uint32)
    ensures forall r: uint32 :: IsXor(r, a, b) <==> r == Xor32(a, b)
  {
    forall r: uint32 ensures IsXor(r, a, b) <==> r == Xor32(a, b) {
      XorExactly(r, a, b);
    }
  }

  function LeftOf(before: seq<uint32>, after: seq<uint32>, p: nat): uint32
    requires |before| == |after| && p < |before|
  {
    if p == 0 then before[|before| - 1] else after[p - 1]
  }

  function RightOf(before: seq<uint32>, after: seq<uint32>, p: nat): uint32
    requires |before| == |after| && p < |before|
  {
    if p == |before| - 1 then after[0] else before[p + 1]
  }

  /** What a pass over the first i words leaves at each place. */
  predicate Passed(v: seq<uint32>, w: seq<uint32>, i: nat, f: RoundFunction)
    requires |v| == |w| && i <= |v|
  {
    forall p :: 0 <= p < i ==> w[p] == Add32(v[p], f(p, LeftOf(v, w, p), RightOf(v, w, p)))
  }

  lemma {:induction false} PassValues(v: seq<uint32>, i: nat, f: RoundFunction)
    requires 2 <= |v| && i <= |v|
    ensures var w := EncPass(v, i, f); Passed(v, w, i, f) && forall p :: i <= p < |v| ==> w[p] == v[p]
  {
    if i > 0 {
      PassValues(v, i - 1, f);
      var u, w, p := EncPass(v, i - 1, f), EncPass(v, i, f), i - 1;
      assert w == u[p := Add32(v[p], f(p, u[Before(p, |v|)], u[After(p, |v|)]))];
      assert u[Before(p, |v|)] == LeftOf(v, w, p) && u[After(p, |v|)] == RightOf(v, w, p);
      forall q | 0 <= q < p ensures w[q] == Add32(v[q], f(q, LeftOf(v, w, q), RightOf(v, w, q))) {
        assert LeftOf(v, w, q) == LeftOf(v, u, q) && RightOf(v, w, q) == RightOf(v, u, q);
      }
    }
  }

  /** Only one sequence has these values. */
  lemma {:induction false} PassUnique(v: seq<uint32>, w: seq<uint32>, u: seq<uint32>, i: nat, f: RoundFunction)
    requires 2 <= |v| == |w| == |u| && i <= |v| && Passed(v, w, |v|, f) && Passed(v, u, |v|, f)
    ensures forall p :: 0 <= p < i ==> w[p] == u[p]
  {
    if i > 0 {
      PassUnique(v, w, u, i - 1, f);
      var p := i - 1;
      assert LeftOf(v, w, p) == LeftOf(v, u, p) && RightOf(v, w, p) == RightOf(v, u, p);
    }
  }

  lemma PassExactly(v: seq<uint32>, w: seq<uint32>, f: RoundFunction)
    requires 2 <= |v| == |w|
    ensures Passed(v, w, |v|, f) <==> w == EncPass(v, |v|, f)
  {
    PassValues(v, |v|, f);
    if Passed(v, w, |v|, f) {
      PassUnique(v, w, EncPass(v, |v|, f), |v|, f);
    }
  }

  /** `f` is the macro in a round with constant `sum`. */
  ghost predicate Realizes(f: RoundFunction, sum: uint32, key: Key) {
    forall p: nat, z: uint32, y: uint32, m: uint32 ::
      IsMacro(m, z, y, sum, key[INDEX[p % 4][sum / 4 % 4]]) <==> m == f(p, z, y)
  }

  lemma MixRealizes(sum: uint32, key: Key)
    ensures Realizes(MixWith(key)(sum), sum, key)
  {
    forall p: nat, z: uint32, y: uint32, m: uint32
      ensures IsMacro(m, z, y, sum, key[INDEX[p % 4][sum / 4 % 4]]) <==> m == MixWith(key)(sum)(p, z, y)
    {
      MacroExactly(m, z, y, sum, p, sum / 4 % 4, key);
    }
  }

  lemma UpdateExactly(v: seq<uint32>, w: seq<uint32>, p: nat, sum: uint32, key: Key, f: RoundFunction)
    requires |v| == |w| && p < |v| && Realizes(f, sum, key)
    ensures IsUpdate(v, w, p, sum, key) <==> w[p] == Add32(v[p], f(p, LeftOf(v, w, p), RightOf(v, w, p)))
  {
    var z, y := LeftOf(v, w, p), RightOf(v, w, p);
    var m := f(p, z, y);
    assert IsMacro(m, z, y, sum, key[INDEX[p % 4][sum / 4 % 4]]);
  }

  lemma RoundExactly(v: seq<uint32>, w: seq<uint32>, sum: uint32, key: Key, f: RoundFunction)
    requires 2 <= |v| && Realizes(f, sum, key)
    ensures IsRound(v, w, sum, key) <==> w == EncPass(v, |v|, f)
  {
    if |w| == |v| {
      forall p | 0 <= p < |v|
        ensures IsUpdate(v, w, p, sum, key) <==> w[p] == Add32(v[p], f(p, LeftOf(v, w, p), RightOf(v, w, p)))
      {
        UpdateExactly(v, w, p, sum, key, f);
      }
      PassExactly(v, w, f);
    }
  }

  /** `g` gives the macro of every round. */
  ghost predicate RealizesAll(g: nat -> RoundFunction, key: Key) {
    forall r: nat :: Realizes(g(r), r * 0x9e37_79b9 % 0x1_0000_0000, key)
  }

  lemma {:induction false} RowsAreRounds(rows: seq<seq<uint32>>, key: Key, r: nat, g: nat -> RoundFunction)
    requires r < |rows| && 2 <= |rows[0]| && AreRows(rows, key) && RealizesAll(g, key)
    ensures rows[r] == EncRounds(rows[0], r, g)
  {
    if r > 0 {
      RowsAreRounds(rows, key, r - 1, g);
      assert IsRound(rows[r - 1], rows[r - 1 + 1], (r - 1 + 1) * 0x9e37_79b9 % 0x1_0000_0000, key);
      RoundExactly(rows[r - 1], rows[r], r * 0x9e37_79b9 % 0x1_0000_0000, key, g(r));
    }
  }

  lemma RoundsAreRows(v: seq<uint32>, key: Key, n: nat, g: nat -> RoundFunction) returns (rows: seq<seq<uint32>>)
    requires 2 <= |v| && RealizesAll(g, key)
    ensures |rows| == n + 1 && rows[0] == v && rows[n] == EncRounds(v, n, g) && AreRows(rows, key)
  {
    rows := seq(n + 1, r requires 0 <= r => EncRounds(v, r, g));
    forall r | 0 <= r < n ensures IsRound(rows[r], rows[r + 1], (r + 1) * 0x9e37_79b9 % 0x1_0000_0000, key) {
      RoundExactly(rows[r], rows[r + 1], (r + 1) * 0x9e37_79b9 % 0x1_0000_0000, key, g(r + 1));
    }
  }

  lemma FamilyRealizes(key: Key)
    ensures RealizesAll(Family(MixWith(key)), key)
  {
    forall r: nat ensures Realizes(Family(MixWith(key))(r), r * 0x9e37_79b9 % 0x1_0000_0000, key) {
      MixRealizes(Schedule(r), key);
    }
  }

  /** The word cipher under a key is the recurrence, and nothing else is. */
  lemma CipherExactly(v: seq<uint32>, w: seq<uint32>, key: Key)
    ensures IsEncryption(v, w, key) <==> w == EncryptWords(v, MixWith(key))
  {
    if 2 <= |v| {
      var g := Family(MixWith(key));
      FamilyRealizes(key);
      RoundsLead(v, w, key, g);
    }
  }

  lemma RoundsLead(v: seq<uint32>, w: seq<uint32>, key: Key, g: nat -> RoundFunction)
    requires 2 <= |v| && RealizesAll(g, key)
    ensures (exists rows :: Lead(rows, v, w, key)) <==> w == EncRounds(v, Rounds(|v|), g)
  {
    if exists rows :: Lead(rows, v, w, key) {
      var rows :| Lead(rows, v, w, key);
      RowsAreRounds(rows, key, |rows| - 1, g);
    }
    if w == EncRounds(v, Rounds(|v|), g) {
      var rows := RoundsAreRows(v, key, Rounds(|v|), g);
      assert Lead(rows, v, w, key);
    }
  }

  // ---------------------------------------------------------------- the inverse

  lemma AddSubInverse(a: uint32, c: uint32)
    ensures Sub32(Add32(a, c), c) == a == Add32(Sub32(a, c), c)
  {
  }

  /** A step changes one word and reads only the others, so it can be undone. */
  lemma StepsInverse(v: seq<uint32>, p: nat, f: RoundFunction)
    requires p < |v| && 2 <= |v|
    ensures DecStep(EncStep(v, p, f), p, f) == v
    ensures EncStep(DecStep(v, p, f), p, f) == v
  {
    AddSubInverse(v[p], f(p, v[Before(p, |v|)], v[After(p, |v|)]));
  }

  lemma {:induction false} PassInverse(v: seq<uint32>, i: nat, f: RoundFunction)
    requires i <= |v| && 2 <= |v|
    ensures DecPass(EncPass(v, i, f), i, f) == v
    ensures EncPass(DecPass(v, i, f), i, f) == v
    decreases i
  {
    if i > 0 {
      StepsInverse(EncPass(v, i - 1, f), i - 1, f);
      PassInverse(v, i - 1, f);
      PassInverse(DecStep(v, i - 1, f), i - 1, f);
      StepsInverse(v, i - 1, f);
    }
  }

  lemma {:induction false} RoundsInverse(v: seq<uint32>, r: nat, g: nat -> RoundFunction)
    requires 2 <= |v|
    ensures DecRounds(EncRounds(v, r, g), r, g) == v
    ensures EncRounds(DecRounds(v, r, g), r, g) == v
    decreases r
  {
    if r > 0 {
      PassInverse(EncRounds(v, r - 1, g), |v|, g(r));
      RoundsInverse(v, r - 1, g);
      RoundsInverse(DecPass(v, |v|, g(r)), r - 1, g);
      PassInverse(v, |v|, g(r));
    }
  }

  /** Each of the two transformations undoes the other, for every mixer, hence for
      every key. */
  lemma WordRoundTrip(v: seq<uint32>, mx: Mixer)
    ensures DecryptWords(EncryptWords(v, mx), mx) == v
    ensures EncryptWords(DecryptWords(v, mx), mx) == v
  {
    if 2 <= |v| {
      RoundsInverse(v, Rounds(|v|), Family(mx));
    }
  }

  // ---------------------------------------------------------------- termination

  /** DELTA is odd, hence invertible modulo 2^32: below 2^32 rounds the schedule never
      comes back to zero, which is all that stops the decryption loop. */
  lemma ScheduleNonZero(r: nat)
    requires 0 < r < WORD_MODULUS
    ensures Schedule(r) != 0
  {
    if Schedule(r) == 0 {
      // 0x144c_bc89 * DELTA == 1 + 0xc8b_c280 * 2^32, so 2^32 would divide r
      var k := r * 0x9e37_79b9 / 0x1_0000_0000;
      MultipleOfWord(k * 0x144c_bc89 - r * 0xc8b_c280, r);
    }
  }

  lemma MultipleOfWord(t: int, r: nat)
    requires r == t * 0x1_0000_0000
    ensures r == 0 || 0x1_0000_0000 <= r
  {
  }

  lemma ScheduleAdvances(r: nat)
    ensures Add32(Schedule(r), DELTA) == Schedule(r + 1)
    ensures Sub32(Schedule(r + 1), DELTA) == Schedule(r)
  {
    var q, s := r * 0x9e37_79b9 / 0x1_0000_0000, Schedule(r);
    if s + DELTA < 0x1_0000_0000 {
      WordRemainder((r + 1) * 0x9e37_79b9, q, s + DELTA);
    } else {
      WordRemainder((r + 1) * 0x9e37_79b9, q + 1, s + DELTA - 0x1_0000_0000);
    }
    AddSubInverse(s, DELTA);
  }

  lemma WordRemainder(x: int, q: int, s: uint32)
    requires x == q * 0x1_0000_0000 + s
    ensures x % 0x1_0000_0000 == s
  {
  }

  lemma RoundsBounded(len: nat)
    requires len > 0
    ensures 6 <= Rounds(len) <= 58
  {
    assert 0 <= 52 / len <= 52;
  }

  // ---------------------------------------------------------------- the loops

  /** The inner loop of xxtea_uint_encrypt and the word after it.  `f` is the MX macro with
      sum, e and key fixed for the pass. */
  method EncryptPass(data: array<uint32>, f: RoundFunction, z0: uint32) returns (z: uint32)
    requires 2 <= data.Length && z0 == data[data.Length - 1]
    modifies data
    ensures data[..] == EncPass(old(data[..]), data.Length, f)
    ensures z == data[data.Length - 1]
  {
    var n := data.Length - 1;
    var p, y := 0, 0;
    z := z0;
    while p < n
      invariant 0 <= p <= n
      invariant z == data[Before(p, data.Length)]
      invariant data[..] == EncPass(old(data[..]), p, f)
    {
      y := data[p + 1];
      data[p] := Add32(data[p], f(p, z, y));
      z := data[p];
      p := p + 1;
    }
    y := data[0];
    data[n] := Add32(data[n], f(p, z, y));
    z := data[n];
  }

  lemma NextEncRound(v: seq<uint32>, r: nat, mx: Mixer)
    ensures Add32(Schedule(r), DELTA) == Schedule(r + 1)
    ensures EncRounds(v, r + 1, Family(mx)) == EncPass(EncRounds(v, r, Family(mx)), |v|, mx(Schedule(r + 1)))
  {
    ScheduleAdvances(r);
  }

  lemma NextDecRound(v: seq<uint32>, r: nat, mx: Mixer)
    requires 0 < r
    ensures Sub32(Schedule(r), DELTA) == Schedule(r - 1)
    ensures DecRounds(v, r, Family(mx)) == DecRounds(DecPass(v, |v|, mx(Schedule(r))), r - 1, Family(mx))
  {
    ScheduleAdvances(r - 1);
  }

  /** xxtea_uint_encrypt; `rounds` counts the passes of the outer loop. */
  method EncryptInPlace(data: array<uint32>, mx: Mixer) returns (ghost rounds: nat)
    requires 1 <= data.Length < WORD_MODULUS
    modifies data
    ensures data[..] == EncryptWords(old(data[..]), mx)
    ensures 2 <= data.Length ==> rounds == Rounds(data.Length)
  {
    var n := data.Length - 1;
    var z, q := data[n], 6 + 52 / (n + 1);
    var sum: uint32 := Schedule(0);
    rounds := 0;
    if n < 1 {
      return;
    }
    ghost var total, v, g := q, data[..], Family(mx);
    while 0 < q
      invariant 0 <= q && q + rounds == total
      invariant sum == Schedule(rounds)
      invariant z == data[n]
      invariant data[..] == EncRounds(v, rounds, g)
    {
      NextEncRound(v, rounds, mx);
      q := q - 1;
      sum := Add32(sum, DELTA);
      z := EncryptPass(data, mx(sum), z);
      rounds := rounds + 1;
    }
  }

  /** The inner loop of xxtea_uint_decrypt and the word after it. */
  method DecryptPass(data: array<uint32>, f: RoundFunction, y0: uint32) returns (y: uint32)
    requires 2 <= data.Length && y0 == data[0]
    modifies data
    ensures data[..] == DecPass(old(data[..]), data.Length, f)
    ensures y == data[0]
  {
    var n := data.Length - 1;
    var p, z := n, 0;
    y := y0;
    while p > 0
      invariant 0 <= p <= n
      invariant y == data[After(p, data.Length)]
      invariant DecPass(data[..], p + 1, f) == DecPass(old(data[..]), data.Length, f)
    {
      z := data[p - 1];
      ghost var before := data[..];
      data[p] := Sub32(data[p], f(p, z, y));
      assert data[..] == DecStep(before, p, f);
      y := data[p];
      p := p - 1;
    }
    z := data[n];
    ghost var before := data[..];
    data[0] := Sub32(data[0], f(p, z, y));
    assert data[..] == DecStep(before, 0, f);
    y := data[0];
  }

  /** xxtea_uint_decrypt: the outer loop is guarded by `sum != 0` alone. */
  method DecryptInPlace(data: array<uint32>, mx: Mixer) returns (ghost rounds: nat)
    requires 1 <= data.Length < WORD_MODULUS
    modifies data
    ensures data[..] == DecryptWords(old(data[..]), mx)
    ensures 2 <= data.Length ==> rounds == Rounds(data.Length)
  {
    var n := data.Length - 1;
    var y, q := data[0], 6 + 52 / (n + 1);
    var sum: uint32 := q * DELTA % WORD_MODULUS;
    rounds := 0;
    if n < 1 {
      return;
    }
    RoundsBounded(data.Length);
    ghost var left: nat, v := q, data[..];
    while sum != 0
      invariant left + rounds == q
      invariant sum == Schedule(left)
      invariant y == data[0]
      invariant DecRounds(data[..], left, Family(mx)) == DecRounds(v, q, Family(mx))
      decreases left
    {
      NextDecRound(data[..], left, mx);
      y := DecryptPass(data, mx(sum), y);
      sum := Sub32(sum, DELTA);
      left, rounds := left - 1, rounds + 1;
    }
    if left > 0 {
      ScheduleNonZero(left);
    }
  }
}
