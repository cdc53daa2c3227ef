/** Cutting captured sound into blocks of 10 ms: OnPCMData of
    src/platform/win32/audio_device_module_wrapper.cpp, counted in frames of one sample a channel. */
module PcmBlocks {
  import opened Machine

  const SIZE_MODULUS := 0x1_0000_0000_0000_0000

  /** The frames missing from the pending block. */
  function Gap(pending: nat, chunk: nat): int {
    if pending == 0 then 0 else chunk - pending
  }

  /** The loop's final `i`. */
  function Sent(i: nat, chunk: nat, n: nat): (r: nat)
    requires chunk > 0
    decreases n - i
  {
    if i + chunk < n then Sent(i + chunk, chunk, n) else i
  }

  /** What OnPCMData leaves in pending_length_, in size_t arithmetic. */
  function NextPending(pending: nat, chunk: nat, n: nat): nat
    requires 0 < chunk && pending <= chunk
  {
    (n - Sent(Gap(pending, chunk), chunk, n)) % SIZE_MODULUS
  }

  lemma {:induction false} SentLeavesAtMostOne(i: nat, chunk: nat, n: nat)
    requires chunk > 0
    ensures i <= n ==> Sent(i, chunk, n) <= n <= Sent(i, chunk, n) + chunk
    ensures i > n ==> Sent(i, chunk, n) == i
    decreases n - i
  {
    if i + chunk < n {
      SentLeavesAtMostOne(i + chunk, chunk, n);
    }
  }

  /** The loop sends whole blocks while more than one is left: what stays behind is the last block, even a
      full one, and nothing only where there was nothing. */
  lemma {:induction false} SentExactly(i: nat, chunk: nat, n: nat) returns (k: nat)
    requires chunk > 0 && i <= n
    ensures Sent(i, chunk, n) == i + k * chunk
    ensures if i == n then k == 0 else 0 < n - (i + k * chunk) <= chunk
    decreases n - i
  {
    k := 0;
    if i + chunk < n {
      k := SentExactly(i + chunk, chunk, n);
      assert i + chunk + k * chunk == i + (k + 1) * chunk;
      k := k + 1;
    }
  }

  /** An input leaves at most one block pending exactly when it fills the gap; a shorter one wraps the
      length around. */
  lemma PendingFitsExactly(pending: nat, chunk: nat, n: nat)
    requires 0 < chunk < SIZE_MODULUS / 2 && pending <= chunk && n < SIZE_MODULUS / 2
    ensures NextPending(pending, chunk, n) <= chunk <==> n >= Gap(pending, chunk)
  {
    var i := Gap(pending, chunk);
    SentLeavesAtMostOne(i, chunk, n);
    var left := n - Sent(i, chunk, n);
    if n >= i {
      assert left % SIZE_MODULUS == left;
    } else {
      assert left % SIZE_MODULUS == left + SIZE_MODULUS;
    }
  }

  predicate AllOfLength<T>(blocks: seq<seq<T>>, n: nat) {
    forall k :: 0 <= k < |blocks| ==> |blocks[k]| == n
  }

  lemma {:induction false} LengthOfBlocks<T>(blocks: seq<seq<T>>, n: nat)
    requires AllOfLength(blocks, n)
    ensures |Concat(blocks)| == |blocks| * n
  {
    if blocks != [] {
      LengthOfBlocks(blocks[1..], n);
    }
  }

  class AudioDeviceModuleWrapper<T(0)> {
    const chunk: nat
    const pending: array<T>
    var pendingLength: nat
    var transport: bool                // audio_transport_ is set
    var delivered: seq<seq<T>>         // the blocks given to it
    var locks: nat                     // times the critical section is held

    predicate Valid()
      reads this
    {
      0 < chunk <= pending.Length && pendingLength <= chunk && AllOfLength(delivered, chunk)
    }

    /** Everything received: the blocks delivered, then what is pending. */
    function Stream(): seq<T>
      reads this, pending
      requires Valid()
    {
      Concat(delivered) + pending[..pendingLength]
    }

    constructor (sampleRate: nat, capacity: nat)
      requires 0 < sampleRate / 100 <= capacity
      ensures Valid() && Stream() == [] && chunk == sampleRate / 100 && pendingLength == 0
      ensures delivered == [] && transport && locks == 0 && fresh(pending)
    {
      chunk := sampleRate / 100;
      pending := new T[capacity];
      pendingLength, transport, delivered, locks := 0, true, [], 0;
    }

    method Deliver(block: seq<T>)
      requires Valid() && |block| == chunk
      modifies this`delivered
      ensures Valid() && delivered == old(delivered) + [block]
      ensures Concat(delivered) == old(Concat(delivered)) + block
    {
      ConcatSnoc(delivered, block);
      delivered := delivered + [block];
    }

    /** memcpy of the first `n` frames of `data` to the pending buffer. */
    method Keep(at: nat, data: seq<T>, n: nat)
      requires n <= |data| && at + n <= pending.Length
      modifies pending
      ensures pending[..at] == old(pending[..at]) && pending[at..at + n] == data[..n]
    {
      for k := 0 to n
        invariant pending[..at] == old(pending[..at]) && pending[at..at + k] == data[..k]
      {
        pending[at + k] := data[k];
      }
    }

    /** Completes and delivers the pending block, if there is one. */
    method FillGap(data: seq<T>) returns (i: nat)
      requires Valid() && |data| >= Gap(pendingLength, chunk)
      modifies this`pendingLength, this`delivered, pending
      ensures Valid() && pendingLength == 0 && i == Gap(old(pendingLength), chunk) <= |data|
      ensures Concat(delivered) == old(Stream()) + data[..i]
    {
      i := 0;
      if pendingLength > 0 {
        i := chunk - pendingLength;
        Keep(pendingLength, data, i);
        assert pending[..chunk] == old(pending[..pendingLength]) + data[..i];
        Deliver(pending[..chunk]);
        pendingLength := 0;
      }
    }

    /** The loop that sends whole blocks from the input; it leaves the last one, even a full one. */
    method SendBlocks(data: seq<T>, begun: nat) returns (i: nat)
      requires Valid() && begun <= |data| && pendingLength == 0
      modifies this`delivered
      ensures Valid() && i == Sent(begun, chunk, |data|) && begun <= i <= |data| <= i + chunk
      ensures Concat(delivered) == old(Concat(delivered)) + data[begun..i]
    {
      i := begun;
      SentLeavesAtMostOne(begun, chunk, |data|);
      while i + chunk < |data|
        invariant Valid() && begun <= i <= |data|
        invariant Concat(delivered) == old(Concat(delivered)) + data[begun..i]
        invariant Sent(i, chunk, |data|) == Sent(begun, chunk, |data|)
      {
        Deliver(data[i..i + chunk]);
        assert data[begun..i] + data[i..i + chunk] == data[begun..i + chunk];
        i := i + chunk;
      }
    }

    method KeepRest(rest: seq<T>)
      requires Valid() && pendingLength == 0 && |rest| <= chunk
      modifies this`pendingLength, pending
      ensures Valid() && pendingLength == |rest| && pending[..pendingLength] == rest
    {
      if |rest| != 0 {
        pendingLength := |rest|;
        Keep(0, rest, pendingLength);
        assert pending[..pendingLength] == pending[0..0 + pendingLength];
      }
    }

    /** Whole blocks go out, the rest is kept. */
    method Cut(data: seq<T>)
      requires Valid() && |data| >= Gap(pendingLength, chunk)
      modifies this`pendingLength, this`delivered, pending
      ensures Valid() && Stream() == old(Stream()) + data
      ensures pendingLength == |data| - Sent(Gap(old(pendingLength), chunk), chunk, |data|)
      ensures if |data| == Gap(old(pendingLength), chunk) then pendingLength == 0 else 0 < pendingLength <= chunk
    {
      ghost var k := SentExactly(Gap(pendingLength, chunk), chunk, |data|);
      ghost var before := Stream();
      var filled := FillGap(data);
      var i := SendBlocks(data, filled);
      Pieces(data, filled, i);
      assert Concat(delivered) == before + data[..i];
      KeepRest(data[i..]);
      assert Stream() == (before + data[..i]) + data[i..];
    }

    /** With no transport it returns with the critical section still held.  `overrun` tells that the
        copy into the pending block passes the end of the input; the model stops there. */
    method OnPCMData(data: seq<T>) returns (overrun: bool)
      requires Valid()
      modifies this`pendingLength, this`delivered, this`locks, pending
      ensures Valid() && locks == old(locks) + if transport then 0 else 1
      ensures overrun <==> transport && |data| < Gap(old(pendingLength), chunk)
      ensures Stream() == old(Stream()) + if transport && !overrun then data else []
      ensures |data| < SIZE_MODULUS && transport && !overrun ==> pendingLength == NextPending(old(pendingLength), chunk, |data|)
      ensures transport && !overrun ==>
                if |data| == Gap(old(pendingLength), chunk) then pendingLength == 0 else 0 < pendingLength <= chunk
      ensures !transport || overrun ==> pendingLength == old(pendingLength) && delivered == old(delivered)
    {
      overrun := false;
      locks := locks + 1;
      if !transport {
        return;
      }
      locks := locks - 1;
      if |data| < Gap(pendingLength, chunk) {
        overrun := true;
        return;
      }
      SentLeavesAtMostOne(Gap(pendingLength, chunk), chunk, |data|);
      Cut(data);
    }

    /** An input overruns exactly when it does not reach the next boundary. */
    method Receive(data: seq<T>) returns (overrun: bool)
      requires Valid() && transport
      modifies this`pendingLength, this`delivered, this`locks, pending
      ensures Valid() && (overrun <==> |data| < ToBoundary(|old(Stream())|, chunk))
      ensures Stream() == old(Stream()) + if overrun then [] else data
      ensures if overrun then pendingLength == old(pendingLength)
              else pendingLength == 0 <==> |data| == ToBoundary(|old(Stream())|, chunk)
    {
      LengthOfBlocks(delivered, chunk);
      GapIsDistance(|delivered|, pendingLength, chunk);
      overrun := OnPCMData(data);
    }
  }

  lemma Pieces<T>(data: seq<T>, i: nat, j: nat)
    requires i <= j <= |data|
    ensures data[..i] + data[i..j] == data[..j] && data[..j] + data[j..] == data
  {
  }

  /** From `total` frames to the next 10 ms boundary. */
  function ToBoundary(total: nat, chunk: nat): nat
    requires chunk > 0
  {
    if total == 0 then 0 else if total <= chunk then chunk - total else ToBoundary(total - chunk, chunk)
  }

  /** Every input reaches at least the next boundary. */
  predicate ReachBoundaries<T>(inputs: seq<seq<T>>, chunk: nat)
    requires chunk > 0
  {
    forall k :: 0 <= k < |inputs| ==> |inputs[k]| >= ToBoundary(|Concat(inputs[..k])|, chunk)
  }

  /** The gap is the distance to the next boundary, however the frames so far were cut. */
  lemma {:induction false} GapIsDistance(blocks: nat, pending: nat, chunk: nat)
    requires 0 < chunk && pending <= chunk
    ensures Gap(pending, chunk) == ToBoundary(blocks * chunk + pending, chunk)
  {
    if blocks > 0 {
      GapIsDistance(blocks - 1, pending, chunk);
      assert blocks * chunk + pending == (blocks - 1) * chunk + pending + chunk;
    }
  }

  /** Input `k` ends where the block that was pending before it does. */
  predicate FillsBlock<T>(inputs: seq<seq<T>>, k: nat, chunk: nat)
    requires k < |inputs| && chunk > 0
  {
    |inputs[k]| == ToBoundary(|Concat(inputs[..k])|, chunk)
  }

  /** Any inputs, up to the first that does not reach the next boundary: all blocks are 10 ms long, and
      together with at most one pending block they are the frames received, in order.  The last block is
      kept even when it is full, unless it was filled by the very last frame of an input. */
  method Run<T(0)>(sampleRate: nat, capacity: nat, inputs: seq<seq<T>>)
    returns (blocks: seq<seq<T>>, pending: seq<T>, taken: nat)
    requires 0 < sampleRate / 100 <= capacity
    ensures taken <= |inputs| && ReachBoundaries(inputs[..taken], sampleRate / 100)
    ensures taken < |inputs| ==> |inputs[taken]| < ToBoundary(|Concat(inputs[..taken])|, sampleRate / 100)
    ensures AllOfLength(blocks, sampleRate / 100) && |pending| <= sampleRate / 100
    ensures Concat(blocks) + pending == Concat(inputs[..taken])
    ensures pending == [] <==> taken == 0 || FillsBlock(inputs, taken - 1, sampleRate / 100)
  {
    var w := new AudioDeviceModuleWrapper<T>(sampleRate, capacity);
    taken := 0;
    while taken < |inputs|
      invariant taken <= |inputs| && ReachBoundaries(inputs[..taken], w.chunk)
      invariant w.Valid() && fresh(w) && fresh(w.pending) && w.transport && w.chunk == sampleRate / 100
      invariant w.Stream() == Concat(inputs[..taken])
      invariant w.pendingLength == 0 <==> taken == 0 || FillsBlock(inputs, taken - 1, w.chunk)
    {
      var overrun := w.Receive(inputs[taken]);
      if overrun {
        break;
      }
      ConcatSnoc(inputs[..taken], inputs[taken]);
      ReachOneMore(inputs, taken, w.chunk);
      taken := taken + 1;
    }
    blocks, pending := w.delivered, w.pending[..w.pendingLength];
  }

  lemma ReachOneMore<T>(inputs: seq<seq<T>>, n: nat, chunk: nat)
    requires chunk > 0 && n < |inputs| && ReachBoundaries(inputs[..n], chunk)
    requires |inputs[n]| >= ToBoundary(|Concat(inputs[..n])|, chunk)
    ensures ReachBoundaries(inputs[..n + 1], chunk) && inputs[..n + 1] == inputs[..n] + [inputs[n]]
  {
    var more := inputs[..n + 1];
    forall k | 0 <= k < |more|
      ensures |more[k]| >= ToBoundary(|Concat(more[..k])|, chunk)
    {
      assert more[..k] == inputs[..k];
      if k < n {
        assert inputs[..n][..k] == inputs[..k];
        assert inputs[..n][k] == inputs[k];
      }
    }
  }
}
