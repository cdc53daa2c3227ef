/** The ring buffer of src/lua/module/lua_video_cache.cpp: free-running 32-bit counters reduced
    modulo the size, copies split at the end of the buffer. */
module VideoCache {
  import opened Machine

  /** Ring position `i` places after `start`, for i <= size. */
  function Wrap(start: nat, i: nat, size: nat): (p: nat)
    requires start < size && i <= size
    ensures p < size
  {
    if start + i < size then start + i else start + i - size
  }

  /** The `n` bytes of the ring from `start` on. */
  function Ring(buf: seq<byte>, start: nat, n: nat): (r: seq<byte>)
    requires start < |buf| && n <= |buf|
    ensures |r| == n
  {
    seq(n, i requires 0 <= i < n => buf[Wrap(start, i, |buf|)])
  }

  // ---------------------------------------------------------------- counters and positions

  /** The remainder of unsigned division. */
  function Rem(a: nat, d: nat): (r: nat)
    requires d > 0
    ensures r < d
    decreases a
  {
    if a < d then a else Rem(a - d, d)
  }

  predicate DividesWord(size: nat) {
    size > 0 && Rem(WORD_MODULUS, size) == 0
  }

  /** Advancing the 32-bit counter by i moves the ring position by i. */
  predicate PositionFollows(counter: uint32, i: nat, size: nat)
    requires 0 < size && i <= size
  {
    Rem(Add32(counter, i), size) == Wrap(Rem(counter, size), i, size)
  }

  lemma {:induction false} RemIsMod(a: nat, d: nat)
    requires d > 0
    ensures exists q: nat :: a == q * d + Rem(a, d)
  {
    if a < d {
      assert a == 0 * d + Rem(a, d);
    } else {
      RemIsMod(a - d, d);
      var q: nat :| a - d == q * d + Rem(a - d, d);
      assert a == (q + 1) * d + Rem(a, d);
    }
  }

  lemma {:induction false} RemAdvance(a: nat, i: nat, d: nat)
    requires 0 < d && i <= d
    ensures Rem(a + i, d) == Wrap(Rem(a, d), i, d)
    decreases a
  {
    if a >= d {
      RemAdvance(a - d, i, d);
    }
  }

  lemma {:induction false} RemAddMultiple(a: nat, m: nat, d: nat)
    requires 0 < d && Rem(m, d) == 0
    ensures Rem(a + m, d) == Rem(a, d)
    decreases m
  {
    if m >= d {
      RemAddMultiple(a, m - d, d);
    }
  }

  lemma {:induction false} RemProduct(k: nat, d: nat)
    requires 0 < d
    ensures Rem(k * d, d) == 0
  {
    if k > 0 {
      RemProduct(k - 1, d);
      assert k * d == (k - 1) * d + d;
    }
  }

  lemma {:induction false} RemAddOther(a: nat, m: nat, d: nat)
    requires 0 < d && Rem(m, d) != 0
    ensures Rem(a + m, d) != Rem(a, d)
    decreases m
  {
    if m >= d {
      RemAddOther(a, m - d, d);
      RemAdvance(a + (m - d), d, d);
    } else {
      RemAdvance(a, m, d);
    }
  }

  /** The position follows the counter, whatever size the ring has, unless the counter wraps; at a wrap
      it follows exactly when the size divides 2^32. */
  lemma FollowsExactly(counter: uint32, i: nat, size: nat)
    requires 0 < size <= WORD_MODULUS && i <= size
    ensures PositionFollows(counter, i, size) <==> DividesWord(size) || counter + i < WORD_MODULUS
  {
    RemAdvance(counter, i, size);
    if counter + i >= WORD_MODULUS {
      var wrapped := counter + i - WORD_MODULUS;
      assert Add32(counter, i) == wrapped;
      if DividesWord(size) {
        RemAddMultiple(wrapped, WORD_MODULUS, size);
      } else {
        RemAddOther(wrapped, WORD_MODULUS, size);
      }
    }
  }

  /** Hence a size keeps its places at every value of the counters exactly when it divides 2^32. */
  lemma WrapExact(size: nat)
    requires 0 < size <= WORD_MODULUS
    ensures DividesWord(size) <==> forall counter: uint32, i: nat :: i <= size ==> PositionFollows(counter, i, size)
  {
    forall counter: uint32, i: nat | i <= size
      ensures PositionFollows(counter, i, size) <==> DividesWord(size) || counter + i < WORD_MODULUS
    {
      FollowsExactly(counter, i, size);
    }
    var last: uint32 := WORD_MODULUS - 1;
    assert PositionFollows(last, 1, size) <==> DividesWord(size);
  }

  // ---------------------------------------------------------------- split copies

  /** `buf` after copying `data` to ring position `pos`, in two parts if it passes the end. */
  function Spliced(buf: seq<byte>, pos: nat, data: seq<byte>): (r: seq<byte>)
    requires pos < |buf| && |data| <= |buf|
    ensures |r| == |buf|
  {
    var l := |buf| - pos;
    if |data| <= l then buf[..pos] + data + buf[pos + |data|..]
    else data[l..] + buf[|data| - l..pos] + data[..l]
  }

  lemma RingAppend(buf: seq<byte>, start: nat, n: nat, data: seq<byte>)
    requires start < |buf| && n + |data| <= |buf|
    ensures Ring(Spliced(buf, Wrap(start, n, |buf|), data), start, n + |data|) == Ring(buf, start, n) + data
  {
  }

  lemma RingDrop(buf: seq<byte>, start: nat, n: nat, k: nat)
    requires start < |buf| && k <= n <= |buf|
    ensures Ring(buf, Wrap(start, k, |buf|), n - k) == Ring(buf, start, n)[k..]
  {
  }

  /** The oldest bytes are one slice, or the end of the buffer followed by its beginning. */
  lemma RingSlices(buf: seq<byte>, start: nat, n: nat, k: nat)
    requires start < |buf| && k <= n <= |buf|
    ensures Ring(buf, start, n)[..k] == Ring(buf, start, k)
    ensures start + k <= |buf| ==> Ring(buf, start, k) == buf[start..start + k]
    ensures |buf| <= start + k ==> Ring(buf, start, k) == buf[start..] + buf[..start + k - |buf|]
  {
  }

  /** What a read of m bytes removes, and what of it lies before the end of the buffer. */
  lemma OldestBytes(buf: seq<byte>, start: nat, n: nat, m: nat)
    requires start < |buf| && m <= n <= |buf|
    ensures Ring(buf, Wrap(start, m, |buf|), n - m) == Ring(buf, start, n)[m..]
    ensures Ring(buf, start, m) == Ring(buf, start, n)[..m]
    ensures start + m > |buf| ==> Ring(buf, start, |buf| - start) == Ring(buf, start, n)[..|buf| - start]
  {
    RingDrop(buf, start, n, m);
    RingSlices(buf, start, n, m);
    RingSlices(buf, start, n, Min(m, |buf| - start));
  }

  method CopyInto(dst: array<byte>, at: nat, src: seq<byte>)
    requires at + |src| <= dst.Length
    modifies dst
    ensures dst[..] == old(dst[..at]) + src + old(dst[at + |src|..])
  {
    forall i | 0 <= i < |src| {
      dst[at + i] := src[i];
    }
  }

  method CopyTwo(dst: array<byte>, a: seq<byte>, b: seq<byte>)
    requires |a| + |b| <= dst.Length
    modifies dst
    ensures dst[..] == a + b + old(dst[|a| + |b|..])
  {
    ghost var d := dst[..];
    CopyInto(dst, 0, a);
    assert dst[..] == a + d[|a|..];
    CopyInto(dst, |a|, b);
    assert dst[..] == (a + d[|a|..])[..|a|] + b + (a + d[|a|..])[|a| + |b|..];
    SecondPlaced(d, a, b);
  }

  lemma SecondPlaced(d: seq<byte>, a: seq<byte>, b: seq<byte>)
    requires |a| + |b| <= |d|
    ensures (a + d[|a|..])[..|a|] == a && (a + d[|a|..])[|a| + |b|..] == d[|a| + |b|..]
  {
  }

  lemma TwoCopies(buf: seq<byte>, pos: nat, data: seq<byte>)
    requires pos < |buf| && |buf| - pos < |data| <= |buf|
    ensures var l := |buf| - pos;
            data[l..] + (buf[..pos] + data[..l])[|data| - l..] == Spliced(buf, pos, data)
  {
    var l := |buf| - pos;
    assert (buf[..pos] + data[..l])[|data| - l..] == buf[|data| - l..pos] + data[..l];
  }

  /** Both parts of a copy to ring position `pos`. */
  method CopySplit(dst: array<byte>, pos: nat, src: seq<byte>)
    requires pos < dst.Length && |src| <= dst.Length
    modifies dst
    ensures dst[..] == Spliced(old(dst[..]), pos, src)
  {
    var l := dst.Length - pos;
    if l >= |src| {
      CopyInto(dst, pos, src);
    } else {
      TwoCopies(dst[..], pos, src);
      ghost var half := dst[..pos] + src[..l];
      CopyInto(dst, pos, src[..l]);
      assert dst[..] == half;
      CopyInto(dst, 0, src[l..]);
    }
  }

  /** A copy to ring position `pos` that looks at the end of the buffer only when `split` is set. */
  method CopyTo(dst: array<byte>, pos: nat, src: seq<byte>, split: bool)
    requires pos < dst.Length && |src| <= dst.Length && (split || pos + |src| <= dst.Length)
    modifies dst
    ensures dst[..] == Spliced(old(dst[..]), pos, src)
  {
    if split {
      CopySplit(dst, pos, src);
    } else {
      CopyInto(dst, pos, src);
    }
  }

  /** Copies `m` bytes from ring position `pos` on; only when `split` is set is the end of the
      buffer looked at.  Otherwise `overrun` says that the copy would pass it. */
  method CopyOldest(dst: array<byte>, src: array<byte>, pos: nat, m: nat, split: bool) returns (overrun: bool)
    requires pos < src.Length && m <= src.Length && m <= dst.Length && dst != src
    modifies dst
    ensures overrun <==> !split && pos + m > src.Length
    ensures !overrun ==> dst[..] == Ring(src[..], pos, m) + old(dst[m..])
    ensures overrun ==> dst[..] == Ring(src[..], pos, src.Length - pos) + old(dst[src.Length - pos..])
  {
    var l := src.Length - pos;
    overrun := !split && l < m;
    if overrun || l >= m {
      CopyRun(dst, src, pos, Min(l, m));
    } else {
      RingSlices(src[..], pos, m, m);
      CopyTwo(dst, src[pos..], src[..m - l]);
    }
  }

  method CopyRun(dst: array<byte>, src: array<byte>, pos: nat, k: nat)
    requires pos < src.Length && pos + k <= src.Length && k <= dst.Length && dst != src
    modifies dst
    ensures dst[..] == Ring(src[..], pos, k) + old(dst[k..])
  {
    RingSlices(src[..], pos, k, k);
    CopyInto(dst, 0, src[pos..pos + k]);
  }

  /** Positions coincide both in an empty and in a full ring: only there may a copy taken to be
      contiguous pass the end. */
  lemma OverrunExactly(u: nat, n: nat, m: nat, size: nat)
    requires u < size && m <= n <= size
    ensures u <= Wrap(u, n, size) && u + m > size <==> n == size && m > size - u
  {
  }

  /** The same for a ring that holds `n` bytes, split when its two positions show a wrap. */
  method CopyHeld(dst: array<byte>, src: array<byte>, start: nat, n: nat, m: nat, split: bool) returns (overrun: bool)
    requires start < src.Length && m <= n <= src.Length && m <= dst.Length && dst != src
    requires split <==> start > Wrap(start, n, src.Length)
    modifies dst
    ensures overrun <==> n == src.Length && m > src.Length - start
    ensures var k := if overrun then src.Length - start else m;
            k <= m && dst[..] == Ring(src[..], start, n)[..k] + old(dst[..])[k..]
  {
    OldestBytes(src[..], start, n, m);
    OverrunExactly(start, n, m, src.Length);
    overrun := CopyOldest(dst, src, start, m, split);
  }

  lemma Distance(use: uint32, tail: uint32)
    ensures Add32(use, Sub32(tail, use)) == tail
    ensures Sub32(tail, use) == if use <= tail then tail - use else tail - use + WORD_MODULUS
  {
  }

  lemma Advanced(use: uint32, k: nat)
    requires k < WORD_MODULUS
    ensures Add32(use, k) == if use + k < WORD_MODULUS then use + k else use + k - WORD_MODULUS
  {
  }

  lemma CounterShift(use: uint32, tail: uint32, k: nat)
    requires k < WORD_MODULUS
    ensures Sub32(tail, use) + k < WORD_MODULUS ==> Sub32(Add32(tail, k), use) == Sub32(tail, use) + k
    ensures k <= Sub32(tail, use) ==> Sub32(tail, Add32(use, k)) == Sub32(tail, use) - k
  {
    Distance(use, tail);
    Advanced(use, k);
    Advanced(tail, k);
    Distance(use, Add32(tail, k));
    Distance(Add32(use, k), tail);
  }

  /** Neither counter has wrapped before the other, or it does not matter. */
  predicate Placed(use: uint32, tail: uint32, size: nat) {
    DividesWord(size) || use <= tail
  }

  /** Where the next byte goes. */
  lemma NextPlace(use: uint32, tail: uint32, size: uint32)
    requires 0 < size && Placed(use, tail, size) && Sub32(tail, use) <= size
    ensures Rem(tail, size) == Wrap(Rem(use, size), Sub32(tail, use), size)
  {
    Distance(use, tail);
    FollowsExactly(use, Sub32(tail, use), size);
    assert PositionFollows(use, Sub32(tail, use), size);
  }

  /** The counters after k more bytes are put in. */
  lemma TailAdvances(use: uint32, tail: uint32, size: uint32, k: nat)
    requires 0 < size && Placed(use, tail, size) && Sub32(tail, use) + k <= size
    ensures Sub32(Add32(tail, k), use) == Sub32(tail, use) + k
    ensures DividesWord(size) || tail + k < WORD_MODULUS ==> Placed(use, Add32(tail, k), size)
  {
    CounterShift(use, tail, k);
    Advanced(tail, k);
  }

  /** The place of the oldest byte, and the counters after k are taken out. */
  lemma UseAdvances(use: uint32, tail: uint32, size: uint32, k: nat)
    requires 0 < size && Placed(use, tail, size) && k <= Sub32(tail, use) <= size
    ensures Sub32(tail, Add32(use, k)) == Sub32(tail, use) - k
    ensures Rem(Add32(use, k), size) == Wrap(Rem(use, size), k, size)
    ensures Placed(Add32(use, k), tail, size)
  {
    CounterShift(use, tail, k);
    Distance(use, tail);
    Advanced(use, k);
    FollowsExactly(use, k, size);
    assert PositionFollows(use, k, size);
  }

  class LuaVideoCache {
    var buffer: array<byte>
    var use: uint32
    var tail: uint32
    var size: uint32

    predicate Valid()
      reads this
    {
      size == buffer.Length && Placed(use, tail, size) && Sub32(tail, use) <= size
    }

    /** The bytes between `use` and `tail`, oldest first. */
    function Contents(): (c: seq<byte>)
      reads this, buffer
      requires Valid()
      ensures |c| == Sub32(tail, use)
    {
      if size == 0 then [] else Ring(buffer[..], Rem(use, size), Sub32(tail, use))
    }

    /** Where the oldest byte lies. */
    function Start(): (p: nat)
      reads this
      requires Valid()
    {
      if size == 0 then 0 else Rem(use, size)
    }

    constructor ()
      ensures Valid() && fresh(buffer) && size == 0x20_0000 && Contents() == [] && Start() == 0 && tail == 0
    {
      buffer := new byte[0x20_0000](_ => 0);
      use, tail, size := 0, 0, 0x20_0000;
      RemProduct(0x800, 0x20_0000);
    }

    method GetDataSize() returns (n: uint32)
      requires Valid()
      ensures n == |Contents()|
    {
      n := Sub32(tail, use);
    }

    method GetSpaceSize(wanted: uint32) returns (n: uint32)
      requires Valid()
      ensures n == Min(wanted, size - |Contents()|)
    {
      var space := Sub32(size, Sub32(tail, use));
      n := if wanted > space then space else wanted;
    }

    /** Appends the longest prefix that fits.  `lost` says that `tail` wraps around in a buffer whose
        size does not divide 2^32: its next position is then wrong (FollowsExactly). */
    method WriteData(buf: seq<byte>) returns (n: uint32, lost: bool)
      requires Valid() && size > 0 && |buf| < WORD_MODULUS
      modifies this`tail, buffer
      ensures n == Min(|buf|, size - |old(Contents())|) && tail == Add32(old(tail), n)
      ensures lost <==> !DividesWord(size) && old(tail) + n >= WORD_MODULUS
      ensures !lost ==> Valid() && Contents() == old(Contents()) + buf[..n] && Start() == old(Start())
    {
      var len, t, u := |buf|, Rem(tail, size), Rem(use, size);
      ghost var before, used := buffer[..], Sub32(tail, use);
      var space := GetSpaceSize(WORD_MODULUS - 1);
      if len > space {
        len := space;
      }
      NextPlace(use, tail, size);
      TailAdvances(use, tail, size, len);
      RingAppend(before, u, used, buf[..len]);
      lost := !DividesWord(size) && tail + len >= WORD_MODULUS;
      tail := Add32(tail, len);
      n := len;
      CopyTo(buffer, t, buf[..len], u <= t);
    }

    /** Removes the oldest bytes.  A full buffer has its two positions equal, so the copy is
        taken to be contiguous; `overrun` says that it would pass the end of the buffer, in which
        case only the part inside the buffer is copied here. */
    method ReadData(buf: array<byte>, len: uint32) returns (n: uint32, overrun: bool)
      requires Valid() && size > 0 && buf != buffer && Min(len, |Contents()|) <= buf.Length
      modifies this`use, buf
      ensures Valid()
      ensures n == Min(len, |old(Contents())|)
      ensures Contents() == old(Contents())[n..]
      ensures overrun <==> |old(Contents())| == size && n > size - old(Start())
      ensures Start() == Wrap(old(Start()), n, size)
      ensures var k := if overrun then size - old(Start()) else n;
              k <= n && buf[..] == old(Contents())[..k] + old(buf[..])[k..]
    {
      var m, t, u := len, Rem(tail, size), Rem(use, size);
      var dataSize := Sub32(tail, use);
      if m > dataSize {
        m := dataSize;
      }
      NextPlace(use, tail, size);
      overrun := CopyHeld(buf, buffer, u, dataSize, m, u > t);
      UseAdvances(use, tail, size, m);
      RingDrop(buffer[..], u, dataSize, m);
      use := Add32(use, m);
      n := m;
    }

    method ClearData()
      requires Valid()
      modifies this`use, this`tail
      ensures Valid() && Contents() == [] && Start() == 0 && tail == 0
    {
      use, tail := 0, 0;
    }

    method SkipData(count: uint32) returns (n: uint32)
      requires Valid()
      modifies this`use, this`tail
      ensures Valid()
      ensures n == Min(count, |old(Contents())|)
      ensures Contents() == old(Contents())[n..]
      ensures Start() == (if n < |old(Contents())| then Wrap(old(Start()), n, size) else 0)
      ensures tail == if n < |old(Contents())| then old(tail) else 0
    {
      var dataSize := Sub32(tail, use);
      if dataSize > count {
        UseAdvances(use, tail, size, count);
        RingDrop(buffer[..], Rem(use, size), dataSize, count);
        use := Add32(use, count);
        n := count;
      } else {
        use, tail := 0, 0;
        n := dataSize;
      }
    }

    lemma Restarted()
      requires use == 0 && tail <= size == buffer.Length
      ensures Valid() && Start() == 0 && Contents() == buffer[..tail]
    {
      Distance(0, tail);
      if size > 0 {
        RingSlices(buffer[..], 0, tail, tail);
      }
    }

    /** Keeps the oldest bytes that fit into the new size, whatever it is; but reading them divides by
        the old size. */
    method ResetSize(newSize: uint32) returns (overrun: bool)
      requires Valid() && size > 0
      modifies this
      ensures Valid() && fresh(buffer) && size == newSize && Start() == 0
      ensures tail == Min(newSize, |old(Contents())|)
      ensures overrun <==> |old(Contents())| == old(size) && Min(newSize, old(size)) > old(size) - old(Start())
      ensures !overrun ==> Contents() == old(Contents())[..Min(newSize, |old(Contents())|)]
    {
      var tmp := new byte[newSize](_ => 0);
      var len;
      len, overrun := ReadData(tmp, newSize);
      use, tail, size, buffer := 0, len, newSize, tmp;
      Restarted();
    }
  }

  // ---------------------------------------------------------------- whole runs

  datatype Op = Write(data: seq<byte>) | Read(len: uint32) | Skip(count: uint32) | Clear | Resize(size: uint32)

  predicate Callable(op: Op) {
    op.Write? ==> |op.data| < WORD_MODULUS
  }

  /** The reference: a bounded first-in first-out queue of bytes, what it has given out, the place in
      the buffer of its oldest byte, and the bytes put in since the counters were last set, in 32 bits. */
  datatype Fifo = Fifo(cap: nat, bytes: seq<byte>, out: seq<byte>, start: nat, total: uint32)

  predicate ValidFifo(q: Fifo) {
    |q.bytes| <= q.cap && (q.start < q.cap || q.start == q.cap == 0)
  }

  function FifoStep(q: Fifo, op: Op): (r: Fifo)
    requires ValidFifo(q)
    ensures ValidFifo(r)
  {
    match op
    case Write(data) =>
      var n := Min(|data|, q.cap - |q.bytes|);
      q.(bytes := q.bytes + data[..n], total := Add32(q.total, n))
    case Read(len) =>
      var n := Min(len, |q.bytes|);
      if n == 0 then q else q.(bytes := q.bytes[n..], out := q.out + q.bytes[..n], start := Wrap(q.start, n, q.cap))
    case Skip(count) =>
      if count < |q.bytes| then q.(bytes := q.bytes[count..], start := Wrap(q.start, count, q.cap))
      else q.(bytes := [], start := 0, total := 0)
    case Clear => q.(bytes := [], start := 0, total := 0)
    case Resize(size) =>
      var n := Min(size, |q.bytes|);
      q.(cap := size, bytes := q.bytes[..n], start := 0, total := n)
  }

  /** A read, or the read inside a resize, passes the end of the buffer exactly when the queue is full
      and more is wanted than lies between its oldest byte and that end. */
  predicate Overruns(q: Fifo, op: Op)
    requires ValidFifo(q)
  {
    && |q.bytes| == q.cap
    && match op
       case Read(len) => Min(len, q.cap) > q.cap - q.start
       case Resize(size) => Min(size, q.cap) > q.cap - q.start
       case _ => false
  }

  /** A write carries the counter past 2^32 while the size does not divide it. */
  predicate LosesPlace(q: Fifo, op: Op)
    requires ValidFifo(q)
  {
    op.Write? && !DividesWord(q.cap) && q.total + Min(|op.data|, q.cap - |q.bytes|) >= WORD_MODULUS
  }

  /** An operation that takes a position divides by the size of an empty buffer. */
  predicate DividesByZero(q: Fifo, op: Op) {
    q.cap == 0 && (op.Write? || op.Read? || op.Resize?)
  }

  /** What one operation comes to. */
  datatype Outcome = Fine | PastEnd | PlaceLost | ByZero

  function OutcomeOf(q: Fifo, op: Op): Outcome
    requires ValidFifo(q)
  {
    if DividesByZero(q, op) then ByZero
    else if Overruns(q, op) then PastEnd
    else if LosesPlace(q, op) then PlaceLost
    else Fine
  }

  /** The reference after the first `n` operations. */
  function FifoRun(ops: seq<Op>, n: nat): (q: Fifo)
    requires n <= |ops|
    ensures ValidFifo(q)
  {
    if n == 0 then Fifo(0x20_0000, [], [], 0, 0) else FifoStep(FifoRun(ops, n - 1), ops[n - 1])
  }

  predicate AllFine(ops: seq<Op>, n: nat)
    requires n <= |ops|
  {
    n == 0 || (AllFine(ops, n - 1) && OutcomeOf(FifoRun(ops, n - 1), ops[n - 1]) == Fine)
  }

  lemma FifoOutput(q: Fifo, op: Op)
    requires ValidFifo(q)
    ensures FifoStep(q, op) ==
            FifoStep(q.(out := []), op).(out := q.out + FifoStep(q.(out := []), op).out)
  {
  }

  function AsFifo(cache: LuaVideoCache): Fifo
    reads cache, cache.buffer
    requires cache.Valid()
  {
    Fifo(cache.size, cache.Contents(), [], cache.Start(), cache.tail)
  }

  method Perform(cache: LuaVideoCache, op: Op) returns (out: seq<byte>, outcome: Outcome)
    requires cache.Valid() && Callable(op)
    modifies cache, cache.buffer
    ensures ValidFifo(old(AsFifo(cache))) && outcome == OutcomeOf(old(AsFifo(cache)), op)
    ensures cache.buffer == old(cache.buffer) || fresh(cache.buffer)
    ensures outcome == Fine ==> cache.Valid() && FifoStep(old(AsFifo(cache)), op) == AsFifo(cache).(out := out)
  {
    out, outcome := [], Fine;
    if cache.size == 0 && (op.Write? || op.Read? || op.Resize?) {
      return [], ByZero;
    }
    match op {
      case Write(data) =>
        var n, lost := cache.WriteData(data);
        outcome := if lost then PlaceLost else Fine;
      case Read(len) =>
        var overrun;
        out, overrun := ReadSome(cache, len);
        outcome := if overrun then PastEnd else Fine;
      case Skip(count) =>
        var n := cache.SkipData(count);
      case Clear =>
        cache.ClearData();
      case Resize(size) =>
        var overrun := cache.ResetSize(size);
        outcome := if overrun then PastEnd else Fine;
    }
  }

  method ReadSome(cache: LuaVideoCache, len: uint32) returns (out: seq<byte>, overrun: bool)
    requires cache.Valid() && cache.size > 0
    modifies cache
    ensures cache.Valid() && cache.buffer == old(cache.buffer)
    ensures overrun <==> Overruns(old(AsFifo(cache)), Read(len))
    ensures !overrun ==> FifoStep(old(AsFifo(cache)), Read(len)) == AsFifo(cache).(out := out)
  {
    var available := cache.GetDataSize();
    var n, buf := 0, new byte[Min(len, available)](_ => 0);
    n, overrun := cache.ReadData(buf, len);
    out := buf[..];
  }

  /** A run that ends in an overrun: four bytes fill a cache of four, one is read and one more written,
      so that the cache is full again with its oldest byte at place 1, and then all four are read. */
  lemma FullReadOverruns(a: byte) returns (ops: seq<Op>)
    ensures |ops| == 5 && forall i :: 0 <= i < 5 ==> Callable(ops[i])
    ensures AllFine(ops, 4) && OutcomeOf(FifoRun(ops, 4), ops[4]) == PastEnd
  {
    ops := [Resize(4), Write([a, a, a, a]), Read(1), Write([a]), Read(4)];
    assert FifoRun(ops, 1) == Fifo(4, [], [], 0, 0);
    assert FifoRun(ops, 2) == Fifo(4, [a, a, a, a], [], 0, 4);
    assert FifoRun(ops, 3) == Fifo(4, [a, a, a], [a], 1, 4);
    assert FifoRun(ops, 4) == Fifo(4, [a, a, a, a], [a], 1, 5);
    assert OutcomeOf(FifoRun(ops, 0), Resize(4)) == Fine && OutcomeOf(FifoRun(ops, 1), ops[1]) == Fine;
    assert OutcomeOf(FifoRun(ops, 2), Read(1)) == Fine && OutcomeOf(FifoRun(ops, 3), ops[3]) == Fine;
    assert AllFine(ops, 0);
    assert AllFine(ops, 1);
    assert AllFine(ops, 2);
    assert AllFine(ops, 3);
  }

  /** A cache resized to nothing divides by zero at the next write. */
  lemma EmptyCacheDivides(a: byte) returns (ops: seq<Op>)
    ensures |ops| == 2 && forall i :: 0 <= i < 2 ==> Callable(ops[i])
    ensures AllFine(ops, 1) && OutcomeOf(FifoRun(ops, 1), ops[1]) == ByZero
  {
    ops := [Resize(0), Write([a])];
    assert FifoRun(ops, 1) == FifoStep(FifoRun(ops, 0), ops[0]);
    assert AllFine(ops, 0) && OutcomeOf(FifoRun(ops, 0), ops[0]) == Fine;
  }

  /** A run that loses its place: a cache of 2^32 - 1 bytes is filled, one byte is read and one more
      written, at which the counter wraps. */
  lemma OddSizeLosesPlace(a: byte) returns (ops: seq<Op>)
    ensures |ops| == 4 && forall i :: 0 <= i < 4 ==> Callable(ops[i])
    ensures AllFine(ops, 3) && OutcomeOf(FifoRun(ops, 3), ops[3]) == PlaceLost
  {
    var size := WORD_MODULUS - 1;
    var full := seq(size, _ => a);
    ops := [Resize(size), Write(full), Read(1), Write([a])];
    assert Rem(WORD_MODULUS, size) == Rem(1, size) == 1;
    assert FifoRun(ops, 1) == Fifo(size, [], [], 0, 0);
    assert FifoRun(ops, 2) == FifoStep(FifoRun(ops, 1), ops[1]) == Fifo(size, full, [], 0, size);
    assert FifoRun(ops, 3) == FifoStep(FifoRun(ops, 2), ops[2]) == Fifo(size, full[1..], full[..1], 1, size);
    assert OutcomeOf(FifoRun(ops, 0), ops[0]) == Fine && OutcomeOf(FifoRun(ops, 1), ops[1]) == Fine;
    assert OutcomeOf(FifoRun(ops, 2), ops[2]) == Fine;
    assert AllFine(ops, 0);
    assert AllFine(ops, 1);
    assert AllFine(ops, 2);
  }

  /** One operation, when the cache stands where the reference does. */
  method Follow(cache: LuaVideoCache, ghost q: Fifo, op: Op) returns (out: seq<byte>, outcome: Outcome)
    requires cache.Valid() && Callable(op) && ValidFifo(q) && q.(out := []) == AsFifo(cache)
    modifies cache, cache.buffer
    ensures cache.buffer == old(cache.buffer) || fresh(cache.buffer)
    ensures outcome == OutcomeOf(q, op)
    ensures outcome == Fine ==>
              cache.Valid() && FifoStep(q, op).out == q.out + out && FifoStep(q, op).(out := []) == AsFifo(cache)
  {
    FifoOutput(q, op);
    out, outcome := Perform(cache, op);
  }

  /** Drives a fresh cache through `ops`, whatever sizes they ask for, stopping at the first one that
      is not fine: up to there every byte read and every byte left agrees with the reference queue,
      across any number of wraps of the counters, and it stops exactly where and why the reference says. */
  method Run(ops: seq<Op>) returns (done: nat, out: seq<byte>, left: seq<byte>, outcome: Outcome)
    requires forall i :: 0 <= i < |ops| ==> Callable(ops[i])
    ensures done <= |ops| && AllFine(ops, done)
    ensures out == FifoRun(ops, done).out && left == FifoRun(ops, done).bytes
    ensures outcome == if done < |ops| then OutcomeOf(FifoRun(ops, done), ops[done]) else Fine
    ensures done < |ops| ==> outcome != Fine
  {
    var cache := new LuaVideoCache();
    done, out, left, outcome := 0, [], [], Fine;
    ghost var q := FifoRun(ops, 0);
    while done < |ops|
      invariant 0 <= done <= |ops| && AllFine(ops, done) && outcome == Fine
      invariant cache.Valid() && fresh(cache) && fresh(cache.buffer)
      invariant q == FifoRun(ops, done) && q.(out := []) == AsFifo(cache)
      invariant q.out == out && q.bytes == left
    {
      var bytes;
      bytes, outcome := Follow(cache, q, ops[done]);
      if outcome != Fine {
        return;
      }
      q := FifoStep(q, ops[done]);
      done, out, left := done + 1, out + bytes, cache.Contents();
    }
  }
}
