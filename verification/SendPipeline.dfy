/** The send path of src/network/tcp_state_machine: one buffer being written, a queue behind it,
    and completions that hand the next buffer to the socket.  TcpSendState and the statusd client
    drive it in the same way. */
module SendPipeline {
  import opened Machine
  import opened IoBuffer

  // ----- the line of submissions --------------------------------------------------------------------

  /** A caller submits bytes, or the outstanding write reports `n` bytes done. */
  datatype Event = Submit(data: seq<byte>) | Complete(n: nat)

  /** What was submitted and not acknowledged, a part a submission, the first one being written; and what
      was acknowledged. */
  datatype Line = Line(parts: seq<seq<byte>>, sent: seq<byte>)

  /** `parts` after the first `m` bytes of the first part were acknowledged. */
  function Advanced(parts: seq<seq<byte>>, m: nat): seq<seq<byte>>
    requires parts != [] && m <= |parts[0]|
  {
    if m == |parts[0]| then parts[1..] else [parts[0][m..]] + parts[1..]
  }

  function LineAfter(l: Line, e: Event): Line {
    match e
    case Submit(data) => if data == [] then l else l.(parts := l.parts + [data])
    case Complete(n) =>
      if l.parts == [] then l
      else var m := Min(n, |l.parts[0]|); Line(Advanced(l.parts, m), l.sent + l.parts[0][..m])
  }

  /** An empty submission over pending data would start a second write. */
  predicate Doubles(l: Line, e: Event) {
    e == Submit([]) && l.parts != []
  }

  /** The first `n` events. */
  function RunTo(events: seq<Event>, n: nat): Line
    requires n <= |events|
  {
    if n == 0 then Line([], []) else LineAfter(RunTo(events, n - 1), events[n - 1])
  }

  predicate NoneDoubles(events: seq<Event>, n: nat)
    requires n <= |events|
  {
    n == 0 || (NoneDoubles(events, n - 1) && !Doubles(RunTo(events, n - 1), events[n - 1]))
  }

  function Submitted(events: seq<Event>, n: nat): seq<byte>
    requires n <= |events|
  {
    if n == 0 then [] else Submitted(events, n - 1) + if events[n - 1].Submit? then events[n - 1].data else []
  }

  lemma AdvancedBytes(parts: seq<seq<byte>>, m: nat)
    requires parts != [] && m <= |parts[0]|
    ensures parts[0][..m] + Concat(Advanced(parts, m)) == Concat(parts)
  {
    var first, rest := parts[0], parts[1..];
    if m == |first| {
      assert first[..m] == first;
    } else {
      assert ([first[m..]] + rest)[1..] == rest;
      Regroup(first[..m], first[m..], Concat(rest));
      assert first[..m] + first[m..] == first;
    }
  }

  /** Whatever happens, acknowledged bytes and then pending ones are the submitted ones, in order. */
  lemma {:induction false} NothingLost(events: seq<Event>, n: nat)
    requires n <= |events|
    ensures RunTo(events, n).sent + Concat(RunTo(events, n).parts) == Submitted(events, n)
  {
    if n > 0 {
      NothingLost(events, n - 1);
      var l, e := RunTo(events, n - 1), events[n - 1];
      match e
      case Submit(data) =>
        ConcatSnoc(l.parts, data);
        Regroup(l.sent, Concat(l.parts), data);
      case Complete(k) =>
        if l.parts != [] {
          var m := Min(k, |l.parts[0]|);
          AdvancedBytes(l.parts, m);
          Regroup(l.sent, l.parts[0][..m], Concat(Advanced(l.parts, m)));
        }
    }
  }

  predicate NoneEmpty(parts: seq<seq<byte>>) {
    forall i :: 0 <= i < |parts| ==> parts[i] != []
  }

  /** A completion of n bytes acknowledges n of what is pending, as far as the part being written goes;
      the next part moves up when that one is done. */
  lemma CompletionExactly(l: Line, n: nat)
    requires l.parts != [] && NoneEmpty(l.parts)
    ensures var t, all := LineAfter(l, Complete(n)), Concat(l.parts);
            var k := if n < |l.parts[0]| then n else |l.parts[0]|;
            && k <= |all| && t.sent == l.sent + all[..k] && Concat(t.parts) == all[k..] && NoneEmpty(t.parts)
            && |t.parts| == |l.parts| - if n < |l.parts[0]| then 0 else 1
  {
    var k := if n < |l.parts[0]| then n else |l.parts[0]|;
    AdvancedBytes(l.parts, k);
    var rest := Concat(Advanced(l.parts, k));
    assert Concat(l.parts) == l.parts[0] + Concat(l.parts[1..]);
    assert (l.parts[0][..k] + rest)[k..] == rest;
  }

  // ----- the two buffers ----------------------------------------------------------------------------

  class TcpStateMachine {
    var cwiobuff: IOBuffer
    var qwiobuff: seq<IOBuffer>
    var writes: nat  // operations started on the socket and not yet completed

    ghost var queued: seq<seq<byte>>  // the unread bytes of each queued buffer
    ghost var sent: seq<byte>         // everything the socket has acknowledged
    ghost var Repr: set<object>

    /** The queued buffers are separate objects holding the queued bytes. */
    ghost predicate QueueHolds()
      reads this, Repr
    {
      && |queued| == |qwiobuff|
      && (forall i :: 0 <= i < |qwiobuff| ==>
            && qwiobuff[i] in Repr && qwiobuff[i].buffer in Repr && qwiobuff[i].Valid()
            && qwiobuff[i] != cwiobuff
            && queued[i] == qwiobuff[i].Unread() != [])
      && (forall i, j :: 0 <= i < j < |qwiobuff| ==> qwiobuff[i] != qwiobuff[j])
    }

    ghost predicate CurrentHolds()
      reads this, Repr
    {
      this in Repr && cwiobuff in Repr && cwiobuff.buffer in Repr && cwiobuff.Valid()
    }

    ghost predicate Valid()
      reads this, Repr
    {
      CurrentHolds() && QueueHolds() && (cwiobuff.Unread() == [] ==> qwiobuff == [])
    }

    /** Accepted but not acknowledged. */
    ghost function Pending(): seq<seq<byte>>
      reads this, Repr
      requires Valid()
    {
      if cwiobuff.Unread() == [] then [] else [cwiobuff.Unread()] + queued
    }

    ghost function Now(): Line
      reads this, Repr
      requires Valid()
    {
      Line(Pending(), sent)
    }

    /** A write is outstanding exactly when there is something to write, and never two. */
    ghost predicate SingleWrite()
      reads this, Repr
      requires Valid()
    {
      writes == if Pending() == [] then 0 else 1
    }

    constructor ()
      ensures Valid() && fresh(Repr) && SingleWrite() && Now() == Line([], [])
    {
      var b := new IOBuffer(0);
      cwiobuff, qwiobuff, writes := b, [], 0;
      queued, sent := [], [];
      Repr := {this, b, b.buffer};
      new;
      NothingPending();
    }

    lemma NothingPending()
      requires CurrentHolds() && cwiobuff.begin == cwiobuff.end && qwiobuff == [] && queued == []
      ensures Valid() && Pending() == []
    {
      assert |cwiobuff.Unread()| == 0;
    }

    method Adopt(copy: IOBuffer)
      requires Valid() && Pending() == []
      requires copy.Valid() && copy.Unread() != [] && copy !in Repr && copy.buffer !in Repr
      modifies this
      ensures Valid() && Repr == old(Repr) + {copy, copy.buffer}
      ensures Now() == Line([old(copy.Unread())], old(sent)) && writes == old(writes)
    {
      Repr := Repr + {copy, copy.buffer};
      cwiobuff := copy;
    }

    method Enqueue(copy: IOBuffer)
      requires Valid() && Pending() != []
      requires copy.Valid() && copy.Unread() != [] && copy !in Repr && copy.buffer !in Repr
      modifies this
      ensures Valid() && Repr == old(Repr) + {copy, copy.buffer}
      ensures Now() == Line(old(Pending()) + [old(copy.Unread())], old(sent)) && writes == old(writes)
    {
      Repr := Repr + {copy, copy.buffer};
      qwiobuff, queued := qwiobuff + [copy], queued + [copy.Unread()];
    }

    /** A copy of `data` becomes the current buffer, or goes to the end of the queue. */
    method Accept(data: IOBuffer) returns (queued: bool)
      requires Valid() && data.Valid() && data !in Repr && data.buffer !in Repr && data.Unread() != []
      modifies this
      ensures Valid() && fresh(Repr - old(Repr)) && writes == old(writes)
      ensures queued <==> old(Pending()) != []
      ensures Now() == Line(old(Pending()) + [old(data.Unread())], old(sent))
    {
      var copy := data.Clone();
      queued := !cwiobuff.Empty();
      if queued {
        Enqueue(copy);
      } else {
        Adopt(copy);
      }
    }

    /** async_write.  With nothing in `data` it starts a write of the current buffer even if one
        is outstanding: the invariant survives exactly when no caller but the completion handler
        submits an empty buffer over a non-empty one. */
    method AsyncWrite(data: IOBuffer)
      requires Valid() && data.Valid() && data !in Repr && data.buffer !in Repr
      modifies this
      ensures Valid() && fresh(Repr - old(Repr))
      ensures Now() == LineAfter(old(Now()), Submit(old(data.Unread())))
      ensures writes == old(writes) + if old(data.Unread() == [] <==> Pending() == []) then 0 else 1
      ensures old(SingleWrite()) ==> (SingleWrite() <==> !Doubles(old(Now()), Submit(old(data.Unread()))))
    {
      if !data.Empty() {
        var queued := Accept(data);
        if queued {
          return;
        }
      }
      if cwiobuff.Empty() {
        if |qwiobuff| != 0 {
          assert false; // an empty current buffer has nothing queued behind it
        } else {
          return;
        }
      }
      writes := writes + 1;
    }

    /** The front of the queue becomes the current buffer. */
    method NextBuffer()
      requires CurrentHolds() && QueueHolds() && cwiobuff.Unread() == []
      modifies this`cwiobuff, this`qwiobuff, this`queued
      ensures Valid() && Pending() == old(queued)
    {
      if |qwiobuff| != 0 {
        cwiobuff, qwiobuff, queued := qwiobuff[0], qwiobuff[1..], queued[1..];
      }
    }

    /** check_send_buffer: drops what was written and moves on to the next queued buffer. */
    method CheckSendBuffer(transferred: nat) returns (more: bool)
      requires Valid() && Pending() != [] && transferred <= |cwiobuff.Unread()|
      modifies this, cwiobuff
      ensures Valid() && Repr == old(Repr) && writes == old(writes)
      ensures Now() == LineAfter(old(Now()), Complete(transferred))
      ensures more <==> Pending() != []
    {
      Drop(transferred);
      if cwiobuff.Empty() {
        NextBuffer();
      }
      more := !cwiobuff.Empty();
    }

    method Drop(transferred: nat)
      requires Valid() && transferred <= |cwiobuff.Unread()|
      modifies this`sent, cwiobuff
      ensures CurrentHolds() && QueueHolds()
      ensures cwiobuff.Unread() == old(cwiobuff.Unread())[transferred..]
      ensures sent == old(sent) + old(cwiobuff.Unread())[..transferred]
    {
      sent := sent + cwiobuff.Unread()[..transferred];
      if transferred > 0 {
        cwiobuff.Consume(transferred);
      }
    }

    /** handle_write of TcpSendState and of the statusd client. */
    method HandleWrite(failed: bool, transferred: nat)
      requires Valid() && SingleWrite() && writes == 1 && transferred <= |cwiobuff.Unread()|
      modifies this, cwiobuff
      ensures Valid() && fresh(Repr - old(Repr))
      ensures failed ==> Now() == old(Now()) && writes == 0
      ensures !failed ==> SingleWrite() && Now() == LineAfter(old(Now()), Complete(transferred))
    {
      writes := writes - 1;
      if failed {
        return;
      }
      var more := CheckSendBuffer(transferred);
      if more {
        WriteMore();
      }
    }

    /** Starts the next write by submitting nothing. */
    method WriteMore()
      requires Valid() && Pending() != []
      modifies this
      ensures Valid() && fresh(Repr - old(Repr)) && Now() == old(Now()) && writes == old(writes) + 1
    {
      var dummy := new IOBuffer(0);
      AsyncWrite(dummy);
    }

    method PendingParts() returns (parts: seq<seq<byte>>)
      requires Valid()
      ensures parts == Pending()
    {
      if cwiobuff.Empty() {
        return [];
      }
      parts := [cwiobuff.buffer[cwiobuff.begin..cwiobuff.end]];
      for i := 0 to |qwiobuff|
        invariant parts == [cwiobuff.Unread()] + queued[..i]
      {
        parts := parts + [qwiobuff[i].buffer[qwiobuff[i].begin..qwiobuff[i].end]];
      }
    }

    method ResetCaches()
      requires Valid()
      modifies this, cwiobuff
      ensures Valid() && Repr == old(Repr) && Now() == Line([], old(sent)) && writes == old(writes)
    {
      cwiobuff.Clear();
      qwiobuff, queued := [], [];
    }
  }

  // ---------------------------------------------------------------- whole runs

  method SubmitBytes(tcp: TcpStateMachine, data: seq<byte>)
    requires tcp.Valid() && tcp.SingleWrite() && !Doubles(tcp.Now(), Submit(data))
    modifies tcp
    ensures tcp.Valid() && tcp.SingleWrite() && fresh(tcp.Repr - old(tcp.Repr))
    ensures tcp.Now() == LineAfter(old(tcp.Now()), Submit(data))
  {
    var buffer := new IOBuffer.FromBytes(data);
    tcp.AsyncWrite(buffer);
  }

  /** The socket reports `n` bytes done, or the whole buffer if it was shorter. */
  method CompleteBytes(tcp: TcpStateMachine, n: nat) returns (bytes: seq<byte>)
    requires tcp.Valid() && tcp.SingleWrite() && tcp.writes == 1
    modifies tcp, tcp.cwiobuff
    ensures tcp.Valid() && tcp.SingleWrite() && fresh(tcp.Repr - old(tcp.Repr))
    ensures tcp.Now() == LineAfter(old(tcp.Now()), Complete(n)) && tcp.sent == old(tcp.sent) + bytes
  {
    var b := tcp.cwiobuff;
    var m := Min(n, b.end - b.begin);
    bytes := b.buffer[b.begin..b.begin + m];
    assert bytes == b.Unread()[..m];
    tcp.HandleWrite(false, m);
  }

  /** One event; `refused` says that it would start a second write, and nothing was done. */
  method Step(tcp: TcpStateMachine, e: Event) returns (bytes: seq<byte>, refused: bool)
    requires tcp.Valid() && tcp.SingleWrite()
    modifies tcp, tcp.cwiobuff
    ensures tcp.Valid() && tcp.SingleWrite() && fresh(tcp.Repr - old(tcp.Repr))
    ensures refused <==> Doubles(old(tcp.Now()), e)
    ensures tcp.Now() == if refused then old(tcp.Now()) else LineAfter(old(tcp.Now()), e)
    ensures tcp.Now().sent == old(tcp.Now()).sent + bytes
  {
    bytes, refused := [], false;
    if e.Submit? {
      if e.data == [] && !tcp.cwiobuff.Empty() {
        return [], true;
      }
      SubmitBytes(tcp, e.data);
    } else if tcp.writes == 1 {
      bytes := CompleteBytes(tcp, e.n);
    }
  }

  lemma NextLine(events: seq<Event>, n: nat)
    requires n < |events|
    ensures RunTo(events, n + 1) == LineAfter(RunTo(events, n), events[n])
    ensures NoneDoubles(events, n + 1) <==> NoneDoubles(events, n) && !Doubles(RunTo(events, n), events[n])
  {
  }

  method Leave(tcp: TcpStateMachine, sent: seq<byte>) returns (final: Line, outstanding: nat)
    requires tcp.Valid() && tcp.SingleWrite() && sent == tcp.sent
    ensures final == tcp.Now() && outstanding == if final.parts == [] then 0 else 1
  {
    var parts := tcp.PendingParts();
    final, outstanding := Line(parts, sent), tcp.writes;
  }

  /** The events from `from` on. */
  method Drive(tcp: TcpStateMachine, events: seq<Event>, from: nat, sent: seq<byte>)
    returns (done: nat, final: Line, outstanding: nat)
    requires from <= |events| && NoneDoubles(events, from)
    requires tcp.Valid() && tcp.SingleWrite() && tcp.Now() == RunTo(events, from) && sent == tcp.sent
    modifies tcp.Repr
    ensures done <= |events| && NoneDoubles(events, done) && final == RunTo(events, done)
    ensures done < |events| ==> Doubles(final, events[done])
    ensures outstanding == if final.parts == [] then 0 else 1
    decreases |events| - from
  {
    done := from;
    if from < |events| {
      var bytes, refused := Step(tcp, events[from]);
      if !refused {
        NextLine(events, from);
        done, final, outstanding := Drive(tcp, events, from + 1, sent + bytes);
        return;
      }
    }
    final, outstanding := Leave(tcp, sent);
  }

  /** Any interleaving of submissions and partial or full completions: the buffers hold the line of
      submissions, and one write is outstanding exactly while something is pending.  The run stops where
      a second write would be started, which takes an empty submission over pending data. */
  method Run(events: seq<Event>) returns (done: nat, final: Line, outstanding: nat)
    ensures done <= |events| && NoneDoubles(events, done) && final == RunTo(events, done)
    ensures done < |events| ==> Doubles(final, events[done])
    ensures outstanding == if final.parts == [] then 0 else 1
  {
    var tcp := new TcpStateMachine();
    done, final, outstanding := Drive(tcp, events, 0, []);
  }

  /** An empty submission over pending data starts a second write. */
  method SubmitEmpty(tcp: TcpStateMachine)
    requires tcp.Valid() && tcp.SingleWrite() && tcp.Pending() != []
    modifies tcp
    ensures tcp.Valid() && tcp.writes == 2 && tcp.Now() == old(tcp.Now())
  {
    var dummy := new IOBuffer(0);
    tcp.AsyncWrite(dummy);
  }

  /** An input on which two writes are outstanding at once: an empty submission over one byte. */
  method EmptySubmissionDoubles(b: byte) returns (outstanding: nat, left: seq<seq<byte>>)
    ensures outstanding == 2 && left == [[b]]
  {
    var tcp := new TcpStateMachine();
    SubmitBytes(tcp, [b]);
    SubmitEmpty(tcp);
    left := tcp.PendingParts();
    outstanding := tcp.writes;
  }
}
