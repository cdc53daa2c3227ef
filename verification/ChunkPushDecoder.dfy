/** The chunked body receiver of src/network/http_state_machine.cpp in wait_complete mode: handlers
    driven by completed reads take chunks off the receive buffer and collect their payload. */
module ChunkPushDecoder {
  import opened Machine
  import opened HttpChunks

  /** The operation whose completion runs the next handler. */
  datatype Pending =
    | UntilLine            // async_read_until "\r\n", then handle_read_chunk_size
    | AtLeast(need: nat)   // async_read of at least `need` more bytes, then handle_read_chunk_body
    | Posted               // handle_read_chunk_body posted to the event loop
    | Finished             // done() was called

  datatype Report = NoReport | Body(bytes: seq<byte>) | ErrorData

  /** rcv_streambuf_, last_chunk_size_, content_buff_ and what happens next. */
  datatype State = State(rcv: seq<byte>, lastChunkSize: uint32, content: seq<byte>, pending: Pending, report: Report)

  const INITIAL := State([], 0, [], UntilLine, NoReport)

  // ---------------------------------------------------------------- the handlers, as functions

  /** `last_chunk_size_ + 2` in the source's 32-bit arithmetic. */
  function BodyLength(size: uint32): uint32 {
    Add32(size, 2)
  }

  function AwaitBody(s: State): State {
    if |s.rcv| >= BodyLength(s.lastChunkSize) then s.(pending := Posted)
    else s.(pending := AtLeast(s.lastChunkSize + 2 - |s.rcv|))
  }

  function HandleSize(s: State): State {
    if |s.rcv| <= 2 then s.(pending := Finished, report := ErrorData)
    else
      var x := ExtractHex(s.rcv, s.lastChunkSize, WORD_MODULUS);
      var s' := s.(rcv := AfterSizeLine(x), lastChunkSize := x.value);
      if x.value > 0 then AwaitBody(s') else s'.(pending := Finished, report := Body(s.content))
  }

  function HandleBody(s: State): State {
    if |s.rcv| >= BodyLength(s.lastChunkSize) then
      var n := Min(s.lastChunkSize, |s.rcv|);
      s.(content := s.content + s.rcv[..n], rcv := s.rcv[Min(n + 2, |s.rcv|)..], pending := UntilLine)
    else AwaitBody(s)
  }

  predicate Ready(s: State) {
    match s.pending
    case UntilLine => HasLine(s.rcv)
    case AtLeast(need) => need == 0
    case Posted => true
    case Finished => false
  }

  function Handle(s: State): State
    requires Ready(s)
  {
    if s.pending.UntilLine? then HandleSize(s) else HandleBody(s)
  }

  /** Bytes arrive for the outstanding read; without one they stay in the socket. */
  predicate Reading(s: State) {
    s.pending.UntilLine? || s.pending.AtLeast?
  }

  function Arrive(s: State, segment: seq<byte>): State {
    match s.pending
    case UntilLine => s.(rcv := s.rcv + segment)
    case AtLeast(need) => s.(rcv := s.rcv + segment, pending := AtLeast(if |segment| >= need then 0 else need - |segment|))
    case _ => s
  }

  // ---------------------------------------------------------------- agreement with a peer

  /** The decoder has taken the first k chunks; `future` has not arrived yet. */
  ghost predicate InSyncAt(s: State, p: Peer, k: nat, future: seq<byte>) {
    k <= |p.chunks| && match s.pending
      case UntilLine =>
        s.rcv + future == Remaining(p, k) && s.content == Payload(p.chunks[..k]) && s.report == NoReport
      case AtLeast(need) =>
        && InBody(s, p, k, future)
        && (if |s.rcv| < s.lastChunkSize + 2 then |s.rcv| + need == s.lastChunkSize + 2 else need == 0)
      case Posted => InBody(s, p, k, future) && |s.rcv| >= s.lastChunkSize + 2
      case Finished => s.rcv + future == p.rest && s.report == Body(Payload(p.chunks))
  }

  ghost predicate InBody(s: State, p: Peer, k: nat, future: seq<byte>) {
    && k < |p.chunks| && s.lastChunkSize == |p.chunks[k].data|
    && s.rcv + future == p.chunks[k].data + CRLF + Remaining(p, k + 1)
    && s.content == Payload(p.chunks[..k]) && s.report == NoReport
  }

  ghost predicate InSync(s: State, p: Peer, future: seq<byte>) {
    exists k: nat :: InSyncAt(s, p, k, future)
  }

  /** A size line that has arrived is taken off the buffer, and nothing else is. */
  lemma SizeHandled(s: State, future: seq<byte>, digits: seq<byte>, ext: seq<byte>, size: uint32, more: seq<byte>)
    requires ValidSizeText(digits, ext, size) && HasLine(s.rcv)
    requires s.rcv + future == SizeLine(digits, ext) + more
    ensures |SizeLine(digits, ext)| <= |s.rcv|
    ensures var s' := s.(rcv := s.rcv[|SizeLine(digits, ext)|..], lastChunkSize := size);
            && s'.rcv + future == more
            && HandleSize(s) == if size > 0 then AwaitBody(s') else s'.(pending := Finished, report := Body(s.content))
  {
    LineArrived(s.rcv, future, digits, ext, size, more);
    SizeLineRoundTrip(digits, ext, size, s.rcv[|SizeLine(digits, ext)|..], s.lastChunkSize, WORD_MODULUS);
  }

  /** Which size lines end the body: those with value zero, those with something else than a digit
      after the blanks, because the failed extraction leaves zero behind, and, when nothing but white
      space is buffered, any at all if the size before was zero. */
  lemma BodyEndExactly(s: State)
    requires s.pending.UntilLine?
    ensures var text := SkipSpaces(s.rcv);
            HandleSize(s).pending == Finished && HandleSize(s).report == Body(s.content) <==>
              |s.rcv| > 2 && if text == [] then s.lastChunkSize == 0 else HexValue(text[..HexPrefix(text)]) == 0
  {
    var text := SkipSpaces(s.rcv);
    assert HexPrefix(text) == 0 ==> text[..0] == [];
  }

  /** Two line ends where a size line is due do not end the body after a chunk of five bytes: the size
      is kept and seven more bytes are waited for. */
  lemma BlankLineKeepsSize(s: State)
    requires s.pending.UntilLine? && s.rcv == CRLF + CRLF && s.lastChunkSize == 5
    ensures HasLine(s.rcv) && HandleSize(s) == s.(rcv := [], pending := AtLeast(7))
  {
    assert CrlfAt(s.rcv, 0);
    assert s.rcv == [13, 10, 13, 10];
    assert SkipSpaces(s.rcv) == SkipSpaces([10, 13, 10]) == SkipSpaces([13, 10]) == SkipSpaces([10]) == [];
  }

  lemma SizeInSync(s: State, p: Peer, k: nat, future: seq<byte>)
    requires ValidPeer(p, WORD_MODULUS) && InSyncAt(s, p, k, future) && s.pending.UntilLine? && Ready(s)
    ensures InSyncAt(HandleSize(s), p, k, future)
  {
    if k < |p.chunks| {
      var c := p.chunks[k];
      RemainingUnfold(p, k);
      SizeHandled(s, future, c.digits, c.ext, |c.data|, c.data + CRLF + Remaining(p, k + 1));
    } else {
      assert p.chunks[k..] == [] && p.chunks[..k] == p.chunks;
      SizeHandled(s, future, p.zero, p.zeroExt, 0, p.rest);
    }
  }

  lemma BodyInSync(s: State, p: Peer, k: nat, future: seq<byte>)
    requires ValidPeer(p, WORD_MODULUS) && InSyncAt(s, p, k, future) && !s.pending.UntilLine? && Ready(s)
    ensures InSyncAt(HandleBody(s), p, k + 1, future)
  {
    var d := p.chunks[k].data;
    var whole, n := s.rcv + future, |d|;
    assert s.rcv[..n] == whole[..n] == d;
    assert s.rcv[n + 2..] + future == whole[n + 2..] == Remaining(p, k + 1);
    PayloadStep(p.chunks, k);
  }

  lemma HandleInSync(s: State, p: Peer, future: seq<byte>)
    requires ValidPeer(p, WORD_MODULUS) && InSync(s, p, future) && Ready(s)
    ensures InSync(Handle(s), p, future)
  {
    var k: nat :| InSyncAt(s, p, k, future);
    if s.pending.UntilLine? {
      SizeInSync(s, p, k, future);
    } else {
      BodyInSync(s, p, k, future);
    }
  }

  lemma ArriveInSync(s: State, p: Peer, segment: seq<byte>, future: seq<byte>)
    requires InSync(s, p, segment + future) && Reading(s)
    ensures InSync(Arrive(s, segment), p, future)
  {
    var k: nat :| InSyncAt(s, p, k, segment + future);
    assert s.rcv + (segment + future) == (s.rcv + segment) + future;
    assert InSyncAt(Arrive(s, segment), p, k, future);
  }

  lemma InitialInSync(p: Peer)
    requires ValidPeer(p, WORD_MODULUS)
    ensures InSync(INITIAL, p, Sent(p))
  {
    assert InSyncAt(INITIAL, p, 0, Sent(p));
  }

  /** Once everything a peer sent has arrived and no handler can run, the body is reported. */
  lemma QuietMeansReported(s: State, p: Peer)
    requires ValidPeer(p, WORD_MODULUS) && InSync(s, p, []) && !Ready(s)
    ensures s.pending == Finished && s.report == Body(Payload(p.chunks)) && s.rcv == p.rest
  {
    var k: nat :| InSyncAt(s, p, k, []);
    assert s.rcv + [] == s.rcv;
    if s.pending.UntilLine? {
      if k < |p.chunks| {
        RemainingUnfold(p, k);
        var c := p.chunks[k];
        LineArrived(s.rcv, [], c.digits, c.ext, |c.data|, c.data + CRLF + Remaining(p, k + 1));
      } else {
        assert p.chunks[k..] == [];
        LineArrived(s.rcv, [], p.zero, p.zeroExt, 0, p.rest);
      }
    }
  }

  /** How many more handlers could run: bytes first, then the kind of handler. */
  function Rank(s: State): nat {
    if !Ready(s) then 0 else if s.pending.UntilLine? then 1 else 2
  }

  lemma HandlingEnds(s: State)
    requires Ready(s)
    ensures |Handle(s).rcv| < |s.rcv| || (|Handle(s).rcv| == |s.rcv| && Rank(Handle(s)) < Rank(s))
  {
    if s.pending.UntilLine? {
      SizeLineShrinks(s.rcv, s.lastChunkSize, WORD_MODULUS);
      SkippingShrinks(s.rcv);
      SkippingShrinks(ExtractHex(s.rcv, s.lastChunkSize, WORD_MODULUS).rest);
    }
  }

  // ---------------------------------------------------------------- the handlers, as they run

  class HttpRcvBodyState {
    var rcvStreambuf: seq<byte>
    var lastChunkSize: uint32
    var contentBuff: seq<byte>
    var contentOffset: nat
    var pending: Pending
    var report: Report

    function Now(): State
      reads this
    {
      State(rcvStreambuf, lastChunkSize, contentBuff, pending, report)
    }

    constructor ()
      ensures Now() == INITIAL && contentOffset == 0
    {
      rcvStreambuf, lastChunkSize, contentBuff, contentOffset := [], 0, [], 0;
      pending, report := UntilLine, NoReport;
    }

    method ReadChunkBody()
      modifies this`pending
      ensures Now() == AwaitBody(old(Now()))
    {
      if |rcvStreambuf| >= Add32(lastChunkSize, 2) {
        pending := Posted;
      } else {
        pending := AtLeast(lastChunkSize - |rcvStreambuf| + 2);
      }
    }

    method HandleReadChunkSize()
      modifies this
      ensures Now() == HandleSize(old(Now())) && contentOffset == old(contentOffset)
    {
      if |rcvStreambuf| <= 2 {
        pending, report := Finished, ErrorData;
        return;
      }
      var x := ExtractHex(rcvStreambuf, lastChunkSize, WORD_MODULUS);
      lastChunkSize, rcvStreambuf := x.value, x.rest;
      if x.good {
        rcvStreambuf := SkipLine(x.rest);
      }
      if lastChunkSize > 0 {
        ReadChunkBody();
      } else {
        pending, report := Finished, Body(contentBuff);
      }
    }

    method HandleReadChunkBody()
      requires !pending.UntilLine?
      modifies this
      ensures Now() == HandleBody(old(Now()))
      ensures contentOffset - old(contentOffset) == if pending == UntilLine then lastChunkSize else 0
    {
      if |rcvStreambuf| >= Add32(lastChunkSize, 2) {
        var n := Min(lastChunkSize, |rcvStreambuf|);
        contentBuff := contentBuff + rcvStreambuf[..n];
        rcvStreambuf := rcvStreambuf[Min(n + 2, |rcvStreambuf|)..];
        contentOffset := contentOffset + lastChunkSize;
        pending := UntilLine;
      } else {
        ReadChunkBody();
      }
    }

    /** The event loop, until it has to wait for the network. */
    method Pump(ghost p: Peer, ghost future: seq<byte>)
      modifies this
      ensures !Ready(Now())
      ensures ValidPeer(p, WORD_MODULUS) && old(InSync(Now(), p, future)) ==> InSync(Now(), p, future)
    {
      while Ready(Now())
        invariant ValidPeer(p, WORD_MODULUS) && old(InSync(Now(), p, future)) ==> InSync(Now(), p, future)
        decreases |rcvStreambuf|, Rank(Now())
      {
        HandlingEnds(Now());
        if ValidPeer(p, WORD_MODULUS) && InSync(Now(), p, future) {
          HandleInSync(Now(), p, future);
        }
        if pending.UntilLine? {
          HandleReadChunkSize();
        } else {
          HandleReadChunkBody();
        }
      }
    }

    method Receive(segment: seq<byte>)
      requires Reading(Now())
      modifies this`rcvStreambuf, this`pending
      ensures Now() == Arrive(old(Now()), segment)
    {
      rcvStreambuf := rcvStreambuf + segment;
      if pending.AtLeast? {
        pending := AtLeast(if |segment| >= pending.need then 0 else pending.need - |segment|);
      }
    }
  }

  /** Every segmentation of what a peer sends is decoded to the concatenated payloads; of the
      bytes after the zero-size line none is consumed. */
  method Decode(segments: seq<seq<byte>>, ghost p: Peer) returns (report: Report, unread: seq<byte>, used: nat)
    requires ValidPeer(p, WORD_MODULUS) && Concat(segments) == Sent(p)
    ensures used <= |segments|
    ensures report == Body(Payload(p.chunks))
    ensures unread + Concat(segments[used..]) == p.rest
  {
    var body := new HttpRcvBodyState();
    used := 0;
    InitialInSync(p);
    body.Pump(p, Sent(p));
    while used < |segments| && body.pending != Finished
      invariant used <= |segments|
      invariant fresh(body)
      invariant !Ready(body.Now()) && InSync(body.Now(), p, Concat(segments[used..]))
    {
      ghost var future := Concat(segments[used + 1..]);
      assert segments[used..][1..] == segments[used + 1..];
      ArriveInSync(body.Now(), p, segments[used], future);
      body.Receive(segments[used]);
      used := used + 1;
      body.Pump(p, future);
    }
    if body.pending != Finished {
      assert segments[used..] == [];
      QuietMeansReported(body.Now(), p);
    }
    report, unread := body.report, body.rcvStreambuf;
  }

  /** So is every body whose sizes are printed in base 16, in either case, with or without zeros in front
      and extensions behind. */
  method DecodePrinted(segments: seq<seq<byte>>, ghost parts: seq<seq<byte>>, ghost styles: seq<Style>, ghost last: Style,
                       ghost rest: seq<byte>)
    returns (report: Report, unread: seq<byte>, used: nat)
    requires Printable(parts, styles, last, WORD_MODULUS)
    requires Concat(segments) == PrintedBody(parts, styles, last) + rest
    ensures used <= |segments|
    ensures report == Body(Concat(parts)) && unread + Concat(segments[used..]) == rest
  {
    PrinterSends(parts, styles, last, rest, WORD_MODULUS);
    report, unread, used := Decode(segments, Printer(parts, styles, last, rest));
  }
}
