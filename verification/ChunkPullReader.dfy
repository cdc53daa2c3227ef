/** Reading a chunked body on demand: LuaHttpSession loads one chunk at a time
    (src/lua/module/lua_http_session.cpp) and hands its bytes to the reader that waits for them
    (src/lua/module/lua_http_reader.cpp). */
module ChunkPullReader {
  import opened Machine
  import opened HttpChunks

  const SIZE_LIMIT := 0x1_0000_0000_0000_0000

  type sizeT = x: int | 0 <= x < 0x1_0000_0000_0000_0000

  /** LuaHttpSomeReader completes on any progress, LuaHttpExactlyReader when its buffer is full. */
  datatype Kind = AnyProgress | Exactly

  /** What the session waits for on behalf of the reader. */
  datatype Pending =
    | NoRead
    | LoadPosted              // load() posted by async_load
    | UntilLine               // async_read_until "\r\n", then handle_read_chunk_size
    | Exact(need: nat)        // async_read of exactly `need` more bytes, then handle_load_chunk_body

  /** How the waiting coroutine was resumed. */
  datatype Resumed = Waiting | WithResult(count: nat) | GivenUp

  /** rcv_streambuf_, cur_chunk_size_, cur_chunk_left_, the read under way, whether a reader was told the
      end of the body, and whether a line behind that end was taken for the size of another chunk. */
  datatype Session = Session(rcv: seq<byte>, size: sizeT, left: nat, pending: Pending, ended: bool, strayed: bool)

  /** Between operations: k chunks gone, and of the next one all but `left` bytes. */
  ghost predicate AtPosition(s: Session, p: Peer, k: nat, future: seq<byte>, placed: seq<byte>) {
    && k <= |p.chunks|
    && if s.pending.Exact? then
         && k < |p.chunks| && s.left == 0 && s.size == |p.chunks[k].data|
         && s.rcv + future == p.chunks[k].data + CRLF + Remaining(p, k + 1)
         && s.size + 2 <= |s.rcv| + s.pending.need
         && placed == Payload(p.chunks[..k])
       else if s.left > 0 then
         && k < |p.chunks| && s.left <= |p.chunks[k].data| && s.left + 2 <= |s.rcv|
         && s.rcv + future == p.chunks[k].data[|p.chunks[k].data| - s.left..] + CRLF + Remaining(p, k + 1)
         && placed == Payload(p.chunks[..k]) + p.chunks[k].data[..|p.chunks[k].data| - s.left]
       else
         s.rcv + future == Remaining(p, k) && placed == Payload(p.chunks[..k])
  }

  /** Behind the zero-size line, with nothing taken from there but lines that gave no size. */
  ghost predicate PastEnd(s: Session, p: Peer, future: seq<byte>, placed: seq<byte>) {
    && s.size == 0 && s.left == 0 && !s.pending.Exact? && placed == Payload(p.chunks)
    && |s.rcv + future| <= |p.rest| && s.rcv + future == p.rest[|p.rest| - |s.rcv + future|..]
    && (Harmless(p.rest) ==> Harmless(s.rcv + future))
  }

  ghost predicate InSync(s: Session, p: Peer, future: seq<byte>, placed: seq<byte>) {
    if s.ended then PastEnd(s, p, future, placed) else exists k: nat :: AtPosition(s, p, k, future, placed)
  }

  /** In step with the sender, or strayed behind the payload, out of text that is not harmless. */
  ghost predicate InStep(s: Session, p: Peer, future: seq<byte>, placed: seq<byte>) {
    if s.strayed then s.ended && Payload(p.chunks) <= placed && !Harmless(p.rest) else InSync(s, p, future, placed)
  }

  /** Nothing here reads as a number: there are only blanks, or something else than a digit after
      them. */
  predicate Harmless(b: seq<byte>) {
    var t := SkipSpaces(b);
    t == [] || !IsHex(t[0])
  }

  /** A read behind the end is about to take a line there for the size of another chunk. */
  predicate Strays(s: Session) {
    s.ended && s.pending.UntilLine? && HasLine(s.rcv) && ExtractHex(s.rcv, s.size, SIZE_LIMIT).value > 0
  }

  // ---------------------------------------------------------------- the session, as functions

  function HandleSize(s: Session): Session {
    var x := ExtractHex(s.rcv, s.size, SIZE_LIMIT);
    var s' := s.(rcv := AfterSizeLine(x), size := x.value, strayed := s.strayed || (s.ended && x.value > 0));
    if x.value == 0 then s'.(pending := NoRead, ended := true) else s'.(pending := Exact(x.value + 2))
  }

  function HandleBody(s: Session): Session {
    s.(left := s.size, pending := NoRead)
  }

  /** read_stream: at most `len` bytes of the current chunk, and its CRLF with the last of them. */
  function TakeCount(s: Session, len: nat): nat {
    Min(len, s.left)
  }

  function Take(s: Session, len: nat): Session
    requires s.left > 0 ==> s.left + 2 <= |s.rcv|
  {
    var n := TakeCount(s, len);
    if n == 0 then s
    else s.(rcv := s.rcv[if n == s.left then n + 2 else n..], left := s.left - n)
  }

  lemma SizeHandled(s: Session, future: seq<byte>, digits: seq<byte>, ext: seq<byte>, size: nat, more: seq<byte>)
    requires ValidSizeText(digits, ext, size) && size < SIZE_LIMIT && HasLine(s.rcv) && !s.ended
    requires s.rcv + future == SizeLine(digits, ext) + more
    ensures |SizeLine(digits, ext)| <= |s.rcv|
    ensures var s' := s.(rcv := s.rcv[|SizeLine(digits, ext)|..], size := size);
            && s'.rcv + future == more
            && HandleSize(s) == if size == 0 then s'.(pending := NoRead, ended := true) else s'.(pending := Exact(size + 2))
  {
    LineArrived(s.rcv, future, digits, ext, size, more);
    SizeLineRoundTrip(digits, ext, size, s.rcv[|SizeLine(digits, ext)|..], s.size, SIZE_LIMIT);
  }

  lemma SizeInSync(s: Session, p: Peer, future: seq<byte>, placed: seq<byte>)
    requires ValidPeer(p, SIZE_LIMIT) && InSync(s, p, future, placed)
    requires s.pending.UntilLine? && s.left == 0 && !s.ended && HasLine(s.rcv)
    ensures InSync(HandleSize(s), p, future, placed)
  {
    var k: nat :| AtPosition(s, p, k, future, placed);
    if k < |p.chunks| {
      var c := p.chunks[k];
      RemainingUnfold(p, k);
      SizeHandled(s, future, c.digits, c.ext, |c.data|, c.data + CRLF + Remaining(p, k + 1));
    } else {
      assert p.chunks[k..] == [] && p.chunks[..k] == p.chunks;
      SizeHandled(s, future, p.zero, p.zeroExt, 0, p.rest);
    }
    if HandleSize(s).ended {
      assert |p.rest| - |p.rest| == 0 && p.rest[0..] == p.rest;
    } else {
      assert AtPosition(HandleSize(s), p, k, future, placed);
    }
  }

  /** Behind the end, a line that gives no size leaves everything as it was. */
  lemma PastEndAgain(s: Session, p: Peer, future: seq<byte>, placed: seq<byte>)
    requires PastEnd(s, p, future, placed) && s.ended && !s.strayed && s.pending.UntilLine?
    requires ExtractHex(s.rcv, s.size, SIZE_LIMIT).value == 0
    ensures PastEnd(HandleSize(s), p, future, placed) && !HandleSize(s).strayed
  {
    var rcv := HandleSize(s).rcv;
    SizeLineSuffix(s.rcv, s.size, SIZE_LIMIT);
    SuffixOfSuffix(s.rcv, rcv, future, p.rest);
    if Harmless(s.rcv + future) {
      HarmlessLine(s.rcv, future);
    }
  }

  lemma SuffixOfSuffix(whole: seq<byte>, part: seq<byte>, future: seq<byte>, rest: seq<byte>)
    requires |part| <= |whole| && part == whole[|whole| - |part|..]
    requires |whole + future| <= |rest| && whole + future == rest[|rest| - |whole + future|..]
    ensures |part + future| <= |rest| && part + future == rest[|rest| - |part + future|..]
  {
    assert part + future == (whole + future)[|whole| - |part|..];
  }

  /** A line out of harmless text gives no size, and what follows stays harmless. */
  lemma HarmlessLine(rcv: seq<byte>, future: seq<byte>)
    requires Harmless(rcv + future)
    ensures var x := ExtractHex(rcv, 0, SIZE_LIMIT); x.value == 0 && Harmless(AfterSizeLine(x) + future)
  {
    var t := SkipSpaces(rcv);
    SkipSpacesConcat(rcv, future);
    SkipSpacesEnds(rcv);
    if t == [] {
      assert [] + future == future;
    } else {
      assert (t + future)[0] == t[0];
    }
  }

  lemma {:induction false} SkipSpacesEnds(b: seq<byte>)
    ensures SkipSpaces(b) != [] ==> !IsSpace(SkipSpaces(b)[0])
  {
    if b != [] && IsSpace(b[0]) {
      SkipSpacesEnds(b[1..]);
    }
  }

  lemma BodyInSync(s: Session, p: Peer, future: seq<byte>, placed: seq<byte>)
    requires ValidPeer(p, SIZE_LIMIT) && InSync(s, p, future, placed) && s.pending == Exact(0)
    ensures InSync(HandleBody(s), p, future, placed)
    ensures s.size + 2 <= |s.rcv| && s.size > 0
  {
    var k: nat :| AtPosition(s, p, k, future, placed);
    assert p.chunks[k].data[..0] == [];
    assert AtPosition(HandleBody(s), p, k, future, placed);
  }

  lemma ArriveInSync(s: Session, p: Peer, segment: seq<byte>, future: seq<byte>, placed: seq<byte>, pending: Pending)
    requires InSync(s, p, segment + future, placed)
    requires pending.Exact? == s.pending.Exact?
    requires s.pending.Exact? ==> s.pending.need <= |segment| + pending.need
    ensures InSync(s.(rcv := s.rcv + segment, pending := pending), p, future, placed)
  {
    if s.ended {
      assert s.rcv + (segment + future) == (s.rcv + segment) + future;
    } else {
      var k: nat :| AtPosition(s, p, k, segment + future, placed);
      ArriveAt(s, p, k, segment, future, placed, pending);
    }
  }

  lemma ArriveAt(s: Session, p: Peer, k: nat, segment: seq<byte>, future: seq<byte>, placed: seq<byte>, pending: Pending)
    requires AtPosition(s, p, k, segment + future, placed)
    requires pending.Exact? == s.pending.Exact?
    requires s.pending.Exact? ==> s.pending.need <= |segment| + pending.need
    ensures AtPosition(s.(rcv := s.rcv + segment, pending := pending), p, k, future, placed)
  {
    assert s.rcv + (segment + future) == (s.rcv + segment) + future;
  }

  /** The buffer holds the rest of a chunk with its CRLF: what taking n bytes leaves. */
  lemma TakeSplits(rcv: seq<byte>, future: seq<byte>, left: seq<byte>, more: seq<byte>, n: nat)
    requires |left| + 2 <= |rcv| && rcv + future == left + CRLF + more && n <= |left|
    ensures rcv[..n] == left[..n]
    ensures rcv[n..] + future == left[n..] + CRLF + more
    ensures rcv[|left| + 2..] + future == more
  {
    var whole := rcv + future;
    assert rcv[..n] == whole[..n] && rcv[n..] + future == whole[n..];
    assert rcv[|left| + 2..] + future == whole[|left| + 2..];
  }

  lemma TakePart(s: Session, p: Peer, k: nat, future: seq<byte>, placed: seq<byte>, n: nat)
    requires AtPosition(s, p, k, future, placed) && n < s.left && !s.pending.Exact?
    ensures AtPosition(s.(rcv := s.rcv[n..], left := s.left - n), p, k, future, placed + s.rcv[..n])
  {
    var d := p.chunks[k].data;
    var from := |d| - s.left;
    TakeSplits(s.rcv, future, d[from..], Remaining(p, k + 1), n);
    assert d[from..][n..] == d[from + n..];
    assert placed + s.rcv[..n] == Payload(p.chunks[..k]) + d[..from + n];
  }

  lemma TakeRest(s: Session, p: Peer, k: nat, future: seq<byte>, placed: seq<byte>)
    requires AtPosition(s, p, k, future, placed) && s.left > 0 && !s.pending.Exact?
    ensures AtPosition(s.(rcv := s.rcv[s.left + 2..], left := 0), p, k + 1, future, placed + s.rcv[..s.left])
  {
    var d := p.chunks[k].data;
    var from := |d| - s.left;
    TakeSplits(s.rcv, future, d[from..], Remaining(p, k + 1), s.left);
    PayloadStep(p.chunks, k);
    assert placed + s.rcv[..s.left] == Payload(p.chunks[..k]) + d;
  }

  /** Taking bytes hands out the next payload bytes in order, and steps over the CRLF exactly when
      the chunk is used up. */
  lemma TakeInSync(s: Session, p: Peer, future: seq<byte>, placed: seq<byte>, len: nat)
    requires InSync(s, p, future, placed)
    requires s.left > 0 && !s.pending.Exact?
    ensures s.left + 2 <= |s.rcv|
    ensures InSync(Take(s, len), p, future, placed + s.rcv[..TakeCount(s, len)])
  {
    var k: nat :| AtPosition(s, p, k, future, placed);
    if len < s.left {
      assert Take(s, len) == if len == 0 then s else s.(rcv := s.rcv[len..], left := s.left - len);
      TakePart(s, p, k, future, placed, len);
    } else {
      assert Take(s, len) == s.(rcv := s.rcv[s.left + 2..], left := 0);
      TakeRest(s, p, k, future, placed);
    }
  }

  lemma PlacedIsPrefix(s: Session, p: Peer, future: seq<byte>, placed: seq<byte>)
    requires InSync(s, p, future, placed)
    ensures placed <= Payload(p.chunks)
  {
    if s.ended {
      return;
    }
    var k: nat :| AtPosition(s, p, k, future, placed);
    PayloadPrefix(p.chunks, k);
    if k < |p.chunks| {
      PayloadStep(p.chunks, k);
      PayloadPrefix(p.chunks, k + 1);
    }
  }

  /** The bytes beyond the chunk and its CRLF that were buffered when the load began. */
  function Surplus(s: Session): int
    requires s.pending.Exact?
  {
    |s.rcv| + s.pending.need - (s.size + 2)
  }

  /** The load asks the socket for size + 2 bytes whatever is buffered.  At any moment it can never
      complete exactly when more was buffered at its start than follows the chunk. */
  lemma LoadStallsExactly(s: Session, p: Peer, k: nat, future: seq<byte>, placed: seq<byte>)
    requires AtPosition(s, p, k, future, placed) && s.pending.Exact?
    ensures Stalled(s, future) <==> Surplus(s) > |Remaining(p, k + 1)|
  {
    assert |s.rcv + future| == s.size + 2 + |Remaining(p, k + 1)|;
  }

  /** The load waits for more bytes than will ever come. */
  predicate Stalled(s: Session, future: seq<byte>) {
    s.pending.Exact? && |future| < s.pending.need
  }

  /** Once everything a peer sent has arrived, a read that still waits inside the body waits in a
      stalled load, and the chunk it waits for is in the buffer with its CRLF. */
  lemma WaitingMeansStalled(s: Session, p: Peer, placed: seq<byte>)
    requires ValidPeer(p, SIZE_LIMIT) && InSync(s, p, [], placed) && !s.ended
    requires s.pending.Exact? || (s.pending.UntilLine? && s.left == 0)
    requires s.pending.Exact? ==> s.pending.need > 0
    requires s.pending.UntilLine? ==> !HasLine(s.rcv)
    ensures Stalled(s, []) && s.size + 2 <= |s.rcv|
  {
    var k: nat :| AtPosition(s, p, k, [], placed);
    assert s.rcv + [] == s.rcv;
    if s.pending.UntilLine? {
      if k < |p.chunks| {
        RemainingUnfold(p, k);
        var c := p.chunks[k];
        LineArrived(s.rcv, [], c.digits, c.ext, |c.data|, c.data + CRLF + Remaining(p, k + 1));
      } else {
        assert p.chunks[k..] == [];
        LineArrived(s.rcv, [], p.zero, p.zeroExt, 0, p.rest);
      }
    }
  }

  // ---------------------------------------------------------------- reads behind the end

  /** What a read of `len` bytes behind the end hands out, when the next line has arrived and then
      `segment`, the bytes a load after it asks for. */
  function HandedOut(s: Session, segment: seq<byte>, len: nat): seq<byte>
  {
    var v := ExtractHex(s.rcv, s.size, SIZE_LIMIT).value;
    if v == 0 then [] else (HandleSize(s).rcv + segment)[..Min(Min(len, v), |HandleSize(s).rcv + segment|)]
  }

  /** The bytes placed stay a prefix of the payload exactly when the line taken behind the end gives
      no size. */
  lemma ReadPastEndExactly(s: Session, p: Peer, future: seq<byte>, placed: seq<byte>, segment: seq<byte>, len: nat)
    requires InSync(s, p, future, placed) && s.ended && s.pending.UntilLine? && HasLine(s.rcv) && len > 0
    requires HandleSize(s).pending.Exact? ==> |segment| == HandleSize(s).pending.need
    ensures placed + HandedOut(s, segment, len) <= Payload(p.chunks) <==> !Strays(s)
    ensures Strays(s) ==>
              var loaded := HandleBody(HandleSize(s).(rcv := HandleSize(s).rcv + segment, pending := Exact(0)));
              HandedOut(s, segment, len) == loaded.rcv[..TakeCount(loaded, len)] != []
  {
  }

  lemma BehindLineEnd(tail: seq<byte>)
    requires tail != [] && !IsSpace(tail[0])
    ensures CrlfAt(CRLF + tail, 0) && SkipSpaces(CRLF + tail) == tail
  {
    assert (CRLF + tail)[1..] == [LF] + tail && ([LF] + tail)[1..] == tail;
    assert SkipSpaces(CRLF + tail) == SkipSpaces([LF] + tail) == SkipSpaces(tail) == tail;
  }

  /** The size line of another chunk behind the line end that closes the body: a read behind the end
      strays, and is about to load the data of that chunk. */
  lemma SecondBodyStrays(s: Session, c: Chunk, more: seq<byte>)
    requires ValidChunk(c, SIZE_LIMIT) && s.ended && s.pending.UntilLine?
    requires s.rcv == CRLF + SizeLine(c.digits, c.ext) + more
    ensures Strays(s)
    ensures HandleSize(s) == s.(rcv := more, size := |c.data|, pending := Exact(|c.data| + 2), strayed := true)
  {
    var tail := SizeLine(c.digits, c.ext) + more;
    assert s.rcv == CRLF + tail;
    BehindLineEnd(tail);
    SizeLineRoundTrip(c.digits, c.ext, |c.data|, more, s.size, SIZE_LIMIT);
    assert ExtractHex(s.rcv, s.size, SIZE_LIMIT) == ExtractHex(tail, s.size, SIZE_LIMIT);
  }

  // ---------------------------------------------------------------- a session and its waiting reader

  /** pos_ is the number of bytes placed. */
  datatype Reader = Reader(kind: Kind, len: nat, bytes: seq<byte>, resumed: Resumed)

  predicate Complete(r: Reader) {
    if r.kind == Exactly then |r.bytes| == r.len else |r.bytes| > 0
  }

  datatype Link = Link(s: Session, r: Reader)

  /** What a load of size + 2 bytes leaves behind, whoever the peer is. */
  predicate ValidSession(s: Session) {
    && (s.pending.Exact? ==> s.left == 0 && s.size > 0 && s.size + 2 <= |s.rcv| + s.pending.need)
    && (s.left > 0 ==> s.left + 2 <= |s.rcv|)
    && (s.pending.UntilLine? ==> s.left == 0)
  }

  predicate ValidLink(x: Link) {
    && ValidSession(x.s) && |x.r.bytes| <= x.r.len
    && (x.r.resumed == Waiting <==> x.s.pending != NoRead)
    && (x.r.resumed.WithResult? ==> x.r.resumed.count == |x.r.bytes| > 0 && Complete(x.r))
  }

  /** notify: takes what fits into the buffer, then asks for more, resumes with a result, or gives
      up. */
  function Notified(x: Link, size: nat): Link
    requires ValidSession(x.s) && |x.r.bytes| <= x.r.len
  {
    var len := Min(size, x.r.len - |x.r.bytes|);
    var n := TakeCount(x.s, len);
    if n == 0 then x.(r := x.r.(resumed := GivenUp))
    else
      var r := x.r.(bytes := x.r.bytes + x.s.rcv[..n]);
      var s := Take(x.s, len);
      if Complete(r) then Link(s, r.(resumed := WithResult(|r.bytes|))) else Link(s.(pending := LoadPosted), r)
  }

  predicate Ready(s: Session) {
    match s.pending
    case NoRead => false
    case LoadPosted => true
    case UntilLine => HasLine(s.rcv)
    case Exact(need) => need == 0
  }

  /** One completed operation of the event loop. */
  function Turned(x: Link): Link
    requires ValidLink(x) && Ready(x.s)
  {
    match x.s.pending
    case UntilLine =>
      var s := HandleSize(x.s);
      Link(s, if s.pending == NoRead then x.r.(resumed := GivenUp) else x.r)
    case Exact(_) => Notified(x.(s := HandleBody(x.s)), x.s.size)
    case LoadPosted =>
      if x.s.left > 0 then Notified(x.(s := x.s.(pending := NoRead)), x.s.left)
      else x.(s := x.s.(pending := UntilLine))
    case NoRead => x
  }

  function Rank(s: Session): nat {
    match s.pending
    case NoRead => 0
    case Exact(need) => if need == 0 then 3 else 0
    case UntilLine => if HasLine(s.rcv) then 2 else 1
    case LoadPosted => 3
  }

  /** A turn fills the buffer further or comes closer to waiting. */
  lemma TurnProgresses(x: Link)
    requires ValidLink(x) && Ready(x.s)
    ensures ValidLink(Turned(x)) && Turned(x).r.len == x.r.len && Turned(x).r.kind == x.r.kind
    ensures |Turned(x).r.bytes| > |x.r.bytes| || (|Turned(x).r.bytes| == |x.r.bytes| && Rank(Turned(x).s) < Rank(x.s))
  {
  }

  /** The event loop, until the reader is resumed or the network has to deliver. */
  function Drained(x: Link): Link
    requires ValidLink(x)
    decreases x.r.len - |x.r.bytes|, Rank(x.s)
  {
    if Ready(x.s) then
      TurnProgresses(x);
      Drained(Turned(x))
    else x
  }

  lemma TurnInStep(x: Link, p: Peer, future: seq<byte>, before: seq<byte>)
    requires ValidPeer(p, SIZE_LIMIT) && ValidLink(x) && Ready(x.s)
    requires InStep(x.s, p, future, before + x.r.bytes)
    ensures InStep(Turned(x).s, p, future, before + Turned(x).r.bytes)
  {
    if x.s.strayed {
      TurnGrows(x);
      assert before + x.r.bytes <= before + Turned(x).r.bytes;
    } else if x.s.ended && x.s.pending.UntilLine? {
      LinePastEnd(x.s, p, future, before + x.r.bytes);
    } else {
      TurnInSync(x, p, future, before);
    }
  }

  /** A turn takes nothing back, and its end and its straying are final. */
  lemma TurnGrows(x: Link)
    requires ValidLink(x) && Ready(x.s)
    ensures x.r.bytes <= Turned(x).r.bytes
    ensures (x.s.ended ==> Turned(x).s.ended) && (x.s.strayed ==> Turned(x).s.strayed)
  {
  }

  lemma LinePastEnd(s: Session, p: Peer, future: seq<byte>, placed: seq<byte>)
    requires PastEnd(s, p, future, placed) && s.ended && !s.strayed && s.pending.UntilLine?
    ensures InStep(HandleSize(s), p, future, placed)
  {
    if ExtractHex(s.rcv, s.size, SIZE_LIMIT).value == 0 {
      PastEndAgain(s, p, future, placed);
    } else if Harmless(p.rest) {
      HarmlessLine(s.rcv, future);
      assert false;
    }
  }

  lemma TurnInSync(x: Link, p: Peer, future: seq<byte>, before: seq<byte>)
    requires ValidPeer(p, SIZE_LIMIT) && ValidLink(x) && Ready(x.s)
    requires !x.s.strayed && !(x.s.ended && x.s.pending.UntilLine?)
    requires InSync(x.s, p, future, before + x.r.bytes)
    ensures InSync(Turned(x).s, p, future, before + Turned(x).r.bytes) && !Turned(x).s.strayed
  {
    match x.s.pending
    case UntilLine => SizeInSync(x.s, p, future, before + x.r.bytes);
    case Exact(_) => BodyTurn(x, p, future, before);
    case LoadPosted => LoadTurn(x, p, future, before);
    case NoRead =>
  }

  lemma BodyTurn(x: Link, p: Peer, future: seq<byte>, before: seq<byte>)
    requires ValidPeer(p, SIZE_LIMIT) && ValidLink(x) && x.s.pending == Exact(0) && !x.s.strayed
    requires InSync(x.s, p, future, before + x.r.bytes)
    ensures InSync(Turned(x).s, p, future, before + Turned(x).r.bytes) && !Turned(x).s.strayed
  {
    BodyInSync(x.s, p, future, before + x.r.bytes);
    NotifyInSync(x.(s := HandleBody(x.s)), x.s.size, p, future, before);
  }

  lemma LoadTurn(x: Link, p: Peer, future: seq<byte>, before: seq<byte>)
    requires ValidPeer(p, SIZE_LIMIT) && ValidLink(x) && x.s.pending == LoadPosted && !x.s.strayed
    requires InSync(x.s, p, future, before + x.r.bytes)
    ensures InSync(Turned(x).s, p, future, before + Turned(x).r.bytes) && !Turned(x).s.strayed
  {
    if x.s.left > 0 {
      PendingIrrelevant(x.s, NoRead, p, future, before + x.r.bytes);
      NotifyInSync(x.(s := x.s.(pending := NoRead)), x.s.left, p, future, before);
    } else {
      PendingIrrelevant(x.s, UntilLine, p, future, before + x.r.bytes);
    }
  }

  lemma PendingIrrelevant(s: Session, pending: Pending, p: Peer, future: seq<byte>, placed: seq<byte>)
    requires InSync(s, p, future, placed) && !s.pending.Exact? && !pending.Exact?
    ensures InSync(s.(pending := pending), p, future, placed)
  {
    if !s.ended {
      var k: nat :| AtPosition(s, p, k, future, placed);
      PendingIrrelevantAt(s, pending, p, k, future, placed);
    }
  }

  lemma PendingIrrelevantAt(s: Session, pending: Pending, p: Peer, k: nat, future: seq<byte>, placed: seq<byte>)
    requires AtPosition(s, p, k, future, placed) && !s.pending.Exact? && !pending.Exact?
    ensures AtPosition(s.(pending := pending), p, k, future, placed)
  {
  }

  lemma NotifyInSync(x: Link, size: nat, p: Peer, future: seq<byte>, before: seq<byte>)
    requires ValidSession(x.s) && |x.r.bytes| <= x.r.len && x.s.left > 0 && !x.s.pending.Exact?
    requires InSync(x.s, p, future, before + x.r.bytes)
    ensures InSync(Notified(x, size).s, p, future, before + Notified(x, size).r.bytes)
  {
    var len := Min(size, x.r.len - |x.r.bytes|);
    var taken := x.s.rcv[..TakeCount(x.s, len)];
    if taken != [] {
      TakeInSync(x.s, p, future, before + x.r.bytes, len);
      Regroup(before, x.r.bytes, taken);
      PendingIrrelevant(Take(x.s, len), LoadPosted, p, future, before + (x.r.bytes + taken));
    }
  }

  lemma {:induction false} DrainInStep(x: Link, p: Peer, future: seq<byte>, before: seq<byte>)
    requires ValidPeer(p, SIZE_LIMIT) && ValidLink(x) && InStep(x.s, p, future, before + x.r.bytes)
    ensures InStep(Drained(x).s, p, future, before + Drained(x).r.bytes)
    decreases x.r.len - |x.r.bytes|, Rank(x.s)
  {
    if Ready(x.s) {
      TurnProgresses(x);
      TurnInStep(x, p, future, before);
      DrainInStep(Turned(x), p, future, before);
    }
  }

  lemma {:induction false} DrainEnds(x: Link)
    requires ValidLink(x)
    ensures ValidLink(Drained(x)) && !Ready(Drained(x).s)
    ensures Drained(x).r.len == x.r.len && Drained(x).r.kind == x.r.kind
    decreases x.r.len - |x.r.bytes|, Rank(x.s)
  {
    if Ready(x.s) {
      TurnProgresses(x);
      DrainEnds(Turned(x));
    }
  }

  // ---------------------------------------------------------------- whole runs

  /** A coroutine asks for `len` bytes, or up to `n` more bytes come in from the socket. */
  datatype Event = Read(kind: Kind, len: nat) | Transfer(n: nat)

  /** A read that was resumed, with the bytes its buffer holds. */
  datatype Finished = Finished(kind: Kind, len: nat, resumed: Resumed, bytes: seq<byte>)

  /** `wire` is what the sender has sent and the socket not yet delivered. */
  datatype World = World(s: Session, reader: Option<Reader>, wire: seq<byte>, done: seq<Finished>)

  const INITIAL := Session([], 0, 0, NoRead, false, false)

  /** How many bytes a transfer delivers; an exact read takes no more than it asked for. */
  function Delivered(w: World, n: nat): (m: nat)
    ensures m <= |w.wire|
  {
    var m := Min(n, |w.wire|);
    if w.s.pending.Exact? then Min(m, w.s.pending.need) else m
  }

  function Arrive(s: Session, bytes: seq<byte>): Session
    requires s.pending.Exact? ==> |bytes| <= s.pending.need
  {
    s.(rcv := s.rcv + bytes, pending := if s.pending.Exact? then Exact(s.pending.need - |bytes|) else s.pending)
  }

  /** A resumed reader leaves with its bytes. */
  function Settled(w: World, x: Link): World {
    if x.r.resumed == Waiting then w.(s := x.s, reader := Some(x.r))
    else w.(s := x.s, reader := None, done := w.done + [Finished(x.r.kind, x.r.len, x.r.resumed, x.r.bytes)])
  }

  /** A read of no bytes is refused.  One while another waits replaces the waiting reader in the code and
      posts a load beside the operation under way; that case is left out, and does nothing here. */
  function Happened(w: World, e: Event): World
    requires ValidWorld(w)
  {
    match e
    case Read(kind, len) =>
      if w.reader.Some? || len == 0 then w
      else Settled(w, Drained(Link(w.s.(pending := LoadPosted), Reader(kind, len, [], Waiting))))
    case Transfer(n) =>
      if w.reader.None? then w
      else
        var m := Delivered(w, n);
        Settled(w.(wire := w.wire[m..]), Drained(Link(Arrive(w.s, w.wire[..m]), w.reader.value)))
  }

  predicate ValidWorld(w: World) {
    && ValidSession(w.s) && !Ready(w.s)
    && if w.reader.None? then w.s.pending == NoRead else ValidLink(Link(w.s, w.reader.value)) && w.reader.value.resumed == Waiting
  }

  lemma HappeningsValid(w: World, e: Event)
    requires ValidWorld(w)
    ensures ValidWorld(Happened(w, e))
  {
    match e
    case Read(kind, len) =>
      if !(w.reader.Some? || len == 0) {
        DrainEnds(Link(w.s.(pending := LoadPosted), Reader(kind, len, [], Waiting)));
      }
    case Transfer(n) =>
      if w.reader.Some? {
        DrainEnds(Link(Arrive(w.s, w.wire[..Delivered(w, n)]), w.reader.value));
      }
  }

  /** The first `n` events. */
  function RunTo(events: seq<Event>, sent: seq<byte>, n: nat): (w: World)
    requires n <= |events|
    ensures ValidWorld(w)
  {
    if n == 0 then World(INITIAL, None, sent, [])
    else
      var w := RunTo(events, sent, n - 1);
      HappeningsValid(w, events[n - 1]);
      Happened(w, events[n - 1])
  }

  function Gathered(done: seq<Finished>): seq<byte> {
    if done == [] then [] else Gathered(done[..|done| - 1]) + done[|done| - 1].bytes
  }

  /** The bytes of all resumed reads and of the one that waits. */
  function Placed(w: World): seq<byte> {
    Gathered(w.done) + if w.reader.None? then [] else w.reader.value.bytes
  }

  /** A result counts the bytes placed, and an exact reader only reports a full buffer. */
  predicate Honest(f: Finished) {
    && |f.bytes| <= f.len && f.resumed != Waiting
    && (f.resumed.WithResult? ==>
          f.resumed.count == |f.bytes| > 0 && (f.kind == Exactly ==> |f.bytes| == f.len))
  }

  ghost predicate Sane(w: World, p: Peer) {
    && InStep(w.s, p, w.wire, Placed(w))
    && (forall f :: f in w.done ==> Honest(f))
    && |w.wire| <= |Sent(p)| && w.wire == Sent(p)[|Sent(p)| - |w.wire|..]
  }

  lemma SettledPlaces(w: World, x: Link)
    ensures Placed(Settled(w, x)) == Gathered(w.done) + x.r.bytes
  {
    if x.r.resumed != Waiting {
      var f := Finished(x.r.kind, x.r.len, x.r.resumed, x.r.bytes);
      assert (w.done + [f])[..|w.done|] == w.done;
      assert Gathered(w.done + [f]) + [] == Gathered(w.done) + x.r.bytes;
    }
  }

  lemma SettledSane(w: World, x: Link, p: Peer)
    requires ValidLink(x) && InStep(x.s, p, w.wire, Gathered(w.done) + x.r.bytes)
    requires forall f :: f in w.done ==> Honest(f)
    requires |w.wire| <= |Sent(p)| && w.wire == Sent(p)[|Sent(p)| - |w.wire|..]
    ensures Sane(Settled(w, x), p)
  {
    SettledPlaces(w, x);
  }

  lemma HappeningsSane(w: World, e: Event, p: Peer)
    requires ValidPeer(p, SIZE_LIMIT) && ValidWorld(w) && Sane(w, p)
    ensures Sane(Happened(w, e), p)
  {
    match e
    case Read(kind, len) =>
      if !(w.reader.Some? || len == 0) {
        ReadSane(w, Reader(kind, len, [], Waiting), p);
      }
    case Transfer(n) =>
      if w.reader.Some? {
        TransferSane(w, w.reader.value, Delivered(w, n), p);
      }
  }

  lemma ReadSane(w: World, r: Reader, p: Peer)
    requires ValidPeer(p, SIZE_LIMIT) && ValidWorld(w) && Sane(w, p) && w.reader.None?
    requires r.bytes == [] && r.resumed == Waiting
    ensures Sane(Settled(w, Drained(Link(w.s.(pending := LoadPosted), r))), p)
  {
    var before, x := Gathered(w.done), Link(w.s.(pending := LoadPosted), r);
    if !w.s.strayed {
      PendingIrrelevant(w.s, LoadPosted, p, w.wire, before + []);
    }
    DrainInStep(x, p, w.wire, before);
    DrainEnds(x);
    SettledSane(w, Drained(x), p);
  }

  lemma TransferInStep(w: World, r: Reader, m: nat, p: Peer)
    requires ValidWorld(w) && Sane(w, p) && w.reader == Some(r)
    requires m <= |w.wire| && (w.s.pending.Exact? ==> m <= w.s.pending.need)
    ensures InStep(Arrive(w.s, w.wire[..m]), p, w.wire[m..], Gathered(w.done) + r.bytes)
  {
    assert w.wire == w.wire[..m] + w.wire[m..];
    if !w.s.strayed {
      ArriveInSync(w.s, p, w.wire[..m], w.wire[m..], Gathered(w.done) + r.bytes, Arrive(w.s, w.wire[..m]).pending);
    }
  }

  lemma TransferSane(w: World, r: Reader, m: nat, p: Peer)
    requires ValidPeer(p, SIZE_LIMIT) && ValidWorld(w) && Sane(w, p) && w.reader == Some(r)
    requires m <= |w.wire| && (w.s.pending.Exact? ==> m <= w.s.pending.need)
    ensures Sane(Settled(w.(wire := w.wire[m..]), Drained(Link(Arrive(w.s, w.wire[..m]), r))), p)
  {
    var before, x := Gathered(w.done), Link(Arrive(w.s, w.wire[..m]), r);
    TransferInStep(w, r, m, p);
    DrainInStep(x, p, w.wire[m..], before);
    DrainEnds(x);
    SettledSane(w.(wire := w.wire[m..]), Drained(x), p);
  }

  lemma InitiallySane(p: Peer)
    ensures Sane(World(INITIAL, None, Sent(p), []), p)
  {
    assert AtPosition(INITIAL, p, 0, Sent(p), []);
    assert [] + [] == Placed(World(INITIAL, None, Sent(p), [])) == [];
  }

  lemma {:induction false} RunSane(events: seq<Event>, n: nat, p: Peer)
    requires ValidPeer(p, SIZE_LIMIT) && n <= |events|
    ensures Sane(RunTo(events, Sent(p), n), p)
  {
    if n == 0 {
      InitiallySane(p);
    } else {
      RunSane(events, n - 1, p);
      HappeningsSane(RunTo(events, Sent(p), n - 1), events[n - 1], p);
    }
  }

  /** Any sequence of reads, one at a time, against any timing of arrivals.  Unless a read behind the end
      strayed, session and sender stay in step, so that every chunk's CRLF is taken once, and the bytes of
      the resumed reads and of the one that waits are in order a prefix of the payload, all of it once the
      end was seen.  When all has arrived, a read inside the body waits only in a stalled load, for a chunk
      that is in the buffer.  A read that strays only adds to the payload, and none does when what follows
      the body is harmless.  Always, a reader resumes with a result only when its own condition holds. */
  lemma RunSafe(events: seq<Event>, n: nat, p: Peer)
    requires ValidPeer(p, SIZE_LIMIT) && n <= |events|
    ensures var w := RunTo(events, Sent(p), n);
            && Sane(w, p) && (Harmless(p.rest) ==> !w.s.strayed)
            && (!w.s.strayed ==> Placed(w) <= Payload(p.chunks) && (w.s.ended ==> Placed(w) == Payload(p.chunks)))
            && (w.s.strayed ==> Payload(p.chunks) <= Placed(w))
            && (w.wire == [] && !w.s.ended && w.reader.Some? ==> Stalled(w.s, []) && w.s.size + 2 <= |w.s.rcv|)
  {
    var w := RunTo(events, Sent(p), n);
    RunSane(events, n, p);
    if !w.s.strayed {
      PlacedIsPrefix(w.s, p, w.wire, Placed(w));
      if w.wire == [] && !w.s.ended && w.reader.Some? {
        WaitingMeansStalled(w.s, p, Placed(w));
      }
    }
  }

  /** The same for a body whose sizes are printed in base 16: what is placed are its parts, in order. */
  lemma PrintedRunSafe(events: seq<Event>, n: nat, parts: seq<seq<byte>>, styles: seq<Style>, last: Style, rest: seq<byte>)
    requires Printable(parts, styles, last, SIZE_LIMIT) && n <= |events|
    ensures var w := RunTo(events, PrintedBody(parts, styles, last) + rest, n);
            !w.s.strayed ==> Placed(w) <= Concat(parts) && (w.s.ended ==> Placed(w) == Concat(parts))
  {
    PrinterSends(parts, styles, last, rest, SIZE_LIMIT);
    RunSafe(events, n, Printer(parts, styles, last, rest));
  }

  // ---------------------------------------------------------------- when a reader is resumed

  /** The buffer holds what the reader waits for: any byte, or all it asked for. */
  predicate Due(kind: Kind, len: nat, bytes: seq<byte>) {
    bytes != [] && (kind == AnyProgress || |bytes| == len)
  }

  predicate PromptLink(x: Link) {
    && x.r.len > 0
    && (x.r.resumed == Waiting ==> !Due(x.r.kind, x.r.len, x.r.bytes))
    && (Due(x.r.kind, x.r.len, x.r.bytes) ==> x.r.resumed == WithResult(|x.r.bytes|))
  }

  lemma TurnPrompt(x: Link)
    requires ValidLink(x) && Ready(x.s) && PromptLink(x)
    ensures PromptLink(Turned(x))
  {
  }

  lemma {:induction false} DrainPrompt(x: Link)
    requires ValidLink(x) && PromptLink(x)
    ensures PromptLink(Drained(x))
    decreases x.r.len - |x.r.bytes|, Rank(x.s)
  {
    if Ready(x.s) {
      TurnProgresses(x);
      TurnPrompt(x);
      DrainPrompt(Turned(x));
    }
  }

  /** Whoever waits has nothing that is due, and whoever had it was told so. */
  predicate Prompt(w: World) {
    && (w.reader.Some? ==>
          var r := w.reader.value; r.len > 0 && if r.kind == AnyProgress then r.bytes == [] else |r.bytes| < r.len)
    && forall f :: f in w.done && f.bytes != [] && (f.kind == AnyProgress || |f.bytes| == f.len) ==>
                     f.resumed == WithResult(|f.bytes|)
  }

  lemma SettledPrompt(w: World, x: Link)
    requires ValidLink(x) && PromptLink(x) && Prompt(w.(reader := None))
    ensures Prompt(Settled(w, x))
  {
  }

  lemma HappeningPrompt(w: World, e: Event)
    requires ValidWorld(w) && Prompt(w)
    ensures Prompt(Happened(w, e))
  {
    match e
    case Read(kind, len) =>
      if !(w.reader.Some? || len == 0) {
        var x := Link(w.s.(pending := LoadPosted), Reader(kind, len, [], Waiting));
        DrainPrompt(x);
        DrainEnds(x);
        SettledPrompt(w, Drained(x));
      }
    case Transfer(n) =>
      if w.reader.Some? {
        var m := Delivered(w, n);
        var x := Link(Arrive(w.s, w.wire[..m]), w.reader.value);
        DrainPrompt(x);
        DrainEnds(x);
        SettledPrompt(w.(wire := w.wire[m..]), Drained(x));
      }
  }

  /** In every run: a reader of any progress waits only while its buffer is empty, and one that wants it
      full only while it is not; a resumed one whose condition was met got the number of its bytes as
      result. */
  lemma {:induction false} RunPrompt(events: seq<Event>, sent: seq<byte>, n: nat)
    requires n <= |events|
    ensures Prompt(RunTo(events, sent, n))
  {
    if n > 0 {
      RunPrompt(events, sent, n - 1);
      HappeningPrompt(RunTo(events, sent, n - 1), events[n - 1]);
    }
  }

  // ---------------------------------------------------------------- runs that stall, runs that stray

  /** A read with nothing left of a chunk, and no line in the buffer, waits for a line. */
  lemma ReadWaits(w: World, kind: Kind, len: nat)
    requires ValidWorld(w) && w.reader.None? && len > 0 && w.s.left == 0 && !HasLine(w.s.rcv)
    ensures Happened(w, Read(kind, len)) == w.(s := w.s.(pending := UntilLine), reader := Some(Reader(kind, len, [], Waiting)))
  {
    var x := Link(w.s.(pending := LoadPosted), Reader(kind, len, [], Waiting));
    assert Drained(x) == Drained(Turned(x)) == Turned(x);
  }

  /** A line arrives, which gives a size: whatever came with it, the reader waits for size + 2 more
      bytes. */
  lemma LineStartsLoad(w: World, r: Reader, n: nat)
    requires ValidWorld(w) && w.reader == Some(r) && w.s.pending.UntilLine?
    requires var a := Arrive(w.s, w.wire[..Delivered(w, n)]); HasLine(a.rcv) && HandleSize(a).pending.Exact?
    ensures var m := Delivered(w, n);
            Happened(w, Transfer(n)) == w.(s := HandleSize(Arrive(w.s, w.wire[..m])), wire := w.wire[m..])
  {
    var x := Link(Arrive(w.s, w.wire[..Delivered(w, n)]), r);
    assert Drained(x) == Drained(Turned(x)) == Turned(x) == Link(HandleSize(x.s), r);
  }

  /** Whoever reads a body that is not empty and arrives in one piece waits for ever, and gets nothing. */
  lemma OnePieceStalls(p: Peer, kind: Kind, len: nat)
    requires ValidPeer(p, SIZE_LIMIT) && p.chunks != [] && len > 0
    ensures var w := RunTo([Read(kind, len), Transfer(|Sent(p)|)], Sent(p), 2);
            w.wire == [] && w.reader.Some? && Stalled(w.s, []) && !w.s.ended && Placed(w) == []
  {
    var events, start, c := [Read(kind, len), Transfer(|Sent(p)|)], World(INITIAL, None, Sent(p), []), p.chunks[0];
    assert RunTo(events, Sent(p), 0) == start;
    ReadWaits(start, kind, len);
    var w := RunTo(events, Sent(p), 1);
    assert w == Happened(start, events[0]);
    var a := Arrive(w.s, w.wire[..|Sent(p)|]);
    assert w.wire[..|Sent(p)|] == Sent(p) && [] + Sent(p) == Sent(p) == a.rcv && a.rcv + [] == a.rcv;
    RemainingUnfold(p, 0);
    LineArrived(a.rcv, [], c.digits, c.ext, |c.data|, c.data + CRLF + Remaining(p, 1));
    SizeHandled(a, [], c.digits, c.ext, |c.data|, c.data + CRLF + Remaining(p, 1));
    LineStartsLoad(w, w.reader.value, |Sent(p)|);
  }

  /** Ends no later than its first line. */
  predicate Tight(b: seq<byte>) {
    forall i :: 0 <= i < |b| - 2 ==> !CrlfAt(b, i)
  }

  /** While a size line is awaited, nothing that follows it comes in with it. */
  predicate Careful(w: World, e: Event) {
    e.Transfer? && w.reader.Some? && w.s.pending.UntilLine? ==> Tight(w.s.rcv + w.wire[..Delivered(w, e.n)])
  }

  predicate CarefulRun(events: seq<Event>, sent: seq<byte>, n: nat)
    requires n <= |events|
  {
    n == 0 || (CarefulRun(events, sent, n - 1) && Careful(RunTo(events, sent, n - 1), events[n - 1]))
  }

  /** Bytes that come in one at a time are careful. */
  lemma {:induction false} OneByteCareful(events: seq<Event>, sent: seq<byte>, n: nat)
    requires n <= |events| && forall i :: 0 <= i < n ==> events[i].Transfer? ==> events[i].n <= 1
    ensures CarefulRun(events, sent, n)
  {
    if n > 0 {
      OneByteCareful(events, sent, n - 1);
      var w, e := RunTo(events, sent, n - 1), events[n - 1];
      if e.Transfer? && w.reader.Some? && w.s.pending.UntilLine? {
        var b := w.s.rcv + w.wire[..Delivered(w, e.n)];
        forall i | 0 <= i < |b| - 2 ensures !CrlfAt(b, i) {
          assert !CrlfAt(w.s.rcv, i);
        }
      }
    }
  }

  /** Nothing is buffered beyond what the session is at. */
  predicate NoSurplus(s: Session) {
    if s.pending.Exact? then Surplus(s) == 0
    else if s.left > 0 then |s.rcv| == s.left + 2
    else if s.pending.UntilLine? then Tight(s.rcv)
    else s.rcv == []
  }

  lemma SizeNoSurplus(s: Session, p: Peer, future: seq<byte>, placed: seq<byte>)
    requires ValidPeer(p, SIZE_LIMIT) && InSync(s, p, future, placed)
    requires s.pending.UntilLine? && s.left == 0 && !s.ended && HasLine(s.rcv) && Tight(s.rcv)
    ensures NoSurplus(HandleSize(s))
  {
    var k: nat :| AtPosition(s, p, k, future, placed);
    if k < |p.chunks| {
      var c := p.chunks[k];
      RemainingUnfold(p, k);
      SizeHandled(s, future, c.digits, c.ext, |c.data|, c.data + CRLF + Remaining(p, k + 1));
      TightLine(s.rcv, future, c.digits, c.ext, |c.data|, c.data + CRLF + Remaining(p, k + 1));
    } else {
      assert p.chunks[k..] == [];
      SizeHandled(s, future, p.zero, p.zeroExt, 0, p.rest);
      TightLine(s.rcv, future, p.zero, p.zeroExt, 0, p.rest);
    }
  }

  lemma TightLine(rcv: seq<byte>, future: seq<byte>, digits: seq<byte>, ext: seq<byte>, size: nat, more: seq<byte>)
    requires ValidSizeText(digits, ext, size) && rcv + future == SizeLine(digits, ext) + more
    requires HasLine(rcv) && Tight(rcv)
    ensures |rcv| == |SizeLine(digits, ext)|
  {
    LineArrived(rcv, future, digits, ext, size, more);
    assert CrlfAt(rcv, |SizeLine(digits, ext)| - 2);
  }

  lemma TurnNoSurplus(x: Link, p: Peer, future: seq<byte>, before: seq<byte>)
    requires ValidPeer(p, SIZE_LIMIT) && ValidLink(x) && Ready(x.s) && !x.s.ended
    requires InSync(x.s, p, future, before + x.r.bytes) && NoSurplus(x.s)
    ensures Turned(x).s.ended || NoSurplus(Turned(x).s)
  {
    match x.s.pending
    case UntilLine => SizeNoSurplus(x.s, p, future, before + x.r.bytes);
    case Exact(_) => NotifyNoSurplus(x.(s := HandleBody(x.s)), x.s.size);
    case LoadPosted =>
      if x.s.left > 0 {
        NotifyNoSurplus(x.(s := x.s.(pending := NoRead)), x.s.left);
      }
    case NoRead =>
  }

  lemma NotifyNoSurplus(x: Link, size: nat)
    requires ValidSession(x.s) && |x.r.bytes| <= x.r.len && x.s.pending == NoRead && x.s.left > 0 && NoSurplus(x.s)
    ensures NoSurplus(Notified(x, size).s)
  {
  }

  lemma {:induction false} DrainNoSurplus(x: Link, p: Peer, future: seq<byte>, before: seq<byte>)
    requires ValidPeer(p, SIZE_LIMIT) && ValidLink(x) && !x.s.strayed
    requires InSync(x.s, p, future, before + x.r.bytes) && (x.s.ended || NoSurplus(x.s))
    ensures Drained(x).s.ended || NoSurplus(Drained(x).s)
    decreases x.r.len - |x.r.bytes|, Rank(x.s)
  {
    if x.s.ended {
      DrainStaysEnded(x);
    } else if Ready(x.s) {
      TurnProgresses(x);
      TurnNoSurplus(x, p, future, before);
      TurnInSync(x, p, future, before);
      DrainNoSurplus(Turned(x), p, future, before);
    }
  }

  lemma {:induction false} DrainStaysEnded(x: Link)
    requires ValidLink(x) && x.s.ended
    ensures Drained(x).s.ended
    decreases x.r.len - |x.r.bytes|, Rank(x.s)
  {
    if Ready(x.s) {
      TurnProgresses(x);
      DrainStaysEnded(Turned(x));
    }
  }

  lemma {:induction false} CarefulNoSurplus(events: seq<Event>, n: nat, p: Peer)
    requires ValidPeer(p, SIZE_LIMIT) && n <= |events| && CarefulRun(events, Sent(p), n)
    ensures var w := RunTo(events, Sent(p), n); w.s.ended || NoSurplus(w.s)
  {
    if n > 0 {
      CarefulNoSurplus(events, n - 1, p);
      RunSane(events, n - 1, p);
      HappeningNoSurplus(RunTo(events, Sent(p), n - 1), events[n - 1], p);
    }
  }

  lemma HappeningNoSurplus(w: World, e: Event, p: Peer)
    requires ValidPeer(p, SIZE_LIMIT) && ValidWorld(w) && Sane(w, p) && Careful(w, e)
    requires w.s.ended || NoSurplus(w.s)
    ensures var t := Happened(w, e); t.s.ended || NoSurplus(t.s)
  {
    match e
    case Read(kind, len) =>
      if !(w.reader.Some? || len == 0) {
        ReadNoSurplus(w, Reader(kind, len, [], Waiting), p);
      }
    case Transfer(n) =>
      if w.reader.Some? {
        TransferNoSurplus(w, w.reader.value, Delivered(w, n), p);
      }
  }

  lemma ReadNoSurplus(w: World, r: Reader, p: Peer)
    requires ValidPeer(p, SIZE_LIMIT) && ValidWorld(w) && Sane(w, p) && w.reader.None?
    requires r.bytes == [] && r.resumed == Waiting && (w.s.ended || NoSurplus(w.s))
    ensures var x := Drained(Link(w.s.(pending := LoadPosted), r)); x.s.ended || NoSurplus(x.s)
  {
    var x := Link(w.s.(pending := LoadPosted), r);
    if w.s.ended {
      DrainStaysEnded(x);
    } else {
      PendingIrrelevant(w.s, LoadPosted, p, w.wire, Gathered(w.done) + []);
      DrainNoSurplus(x, p, w.wire, Gathered(w.done));
    }
  }

  lemma TransferNoSurplus(w: World, r: Reader, m: nat, p: Peer)
    requires ValidPeer(p, SIZE_LIMIT) && ValidWorld(w) && Sane(w, p) && w.reader == Some(r)
    requires m <= |w.wire| && (w.s.pending.Exact? ==> m <= w.s.pending.need)
    requires w.s.ended || NoSurplus(w.s)
    requires w.s.pending.UntilLine? ==> Tight(w.s.rcv + w.wire[..m])
    ensures var x := Drained(Link(Arrive(w.s, w.wire[..m]), r)); x.s.ended || NoSurplus(x.s)
  {
    var x := Link(Arrive(w.s, w.wire[..m]), r);
    if w.s.ended {
      DrainStaysEnded(x);
    } else {
      TransferInStep(w, r, m, p);
      DrainNoSurplus(x, p, w.wire[m..], Gathered(w.done));
    }
  }

  /** What follows chunk k, or the zero-size line, on the wire. */
  function Behind(p: Peer, k: nat): seq<byte>
    requires k <= |p.chunks|
  {
    if k < |p.chunks| then Remaining(p, k + 1) else p.rest
  }

  /** All bytes of the first k chunks have been placed, and of the next, or of the zero-size line, some
      are still on the wire. */
  ghost predicate AwaitsChunk(p: Peer, k: nat, wire: seq<byte>, placed: seq<byte>) {
    k <= |p.chunks| && placed == Payload(p.chunks[..k]) && |wire| > |Behind(p, k)|
  }

  lemma LineAwaited(s: Session, p: Peer, k: nat, future: seq<byte>, placed: seq<byte>)
    requires ValidPeer(p, SIZE_LIMIT) && AtPosition(s, p, k, future, placed)
    requires s.pending.UntilLine? && s.left == 0 && !HasLine(s.rcv)
    ensures AwaitsChunk(p, k, future, placed)
  {
    if k < |p.chunks| {
      var c := p.chunks[k];
      RemainingUnfold(p, k);
      LineArrived(s.rcv, future, c.digits, c.ext, |c.data|, c.data + CRLF + Remaining(p, k + 1));
    } else {
      assert p.chunks[k..] == [];
      LineArrived(s.rcv, future, p.zero, p.zeroExt, 0, p.rest);
    }
    assert |s.rcv + future| == |s.rcv| + |future|;
  }

  /** When arrivals are careful no load stalls: inside the body a read waits only for a chunk, or for the
      zero-size line, that has not come in completely, and all that came in before has been placed. */
  lemma CarefulNeverStalls(events: seq<Event>, n: nat, p: Peer)
    requires ValidPeer(p, SIZE_LIMIT) && n <= |events| && CarefulRun(events, Sent(p), n)
    ensures var w := RunTo(events, Sent(p), n);
            && (!w.s.ended ==> !Stalled(w.s, w.wire))
            && (!w.s.ended && w.reader.Some? ==> w.wire != [] && exists k: nat :: AwaitsChunk(p, k, w.wire, Placed(w)))
  {
    var w := RunTo(events, Sent(p), n);
    RunSane(events, n, p);
    CarefulNoSurplus(events, n, p);
    if !w.s.ended && w.reader.Some? {
      var k: nat :| AtPosition(w.s, p, k, w.wire, Placed(w));
      if w.s.pending.Exact? {
        LoadStallsExactly(w.s, p, k, w.wire, Placed(w));
        assert |w.s.rcv + w.wire| == w.s.size + 2 + |Remaining(p, k + 1)|;
        assert AwaitsChunk(p, k, w.wire, Placed(w));
      } else {
        LineAwaited(w.s, p, k, w.wire, Placed(w));
      }
    }
  }

  /** A line arrives that ends the body: the reader gives up. */
  lemma LineEndsBody(w: World, r: Reader, n: nat)
    requires ValidWorld(w) && w.reader == Some(r) && w.s.pending.UntilLine?
    requires var a := Arrive(w.s, w.wire[..Delivered(w, n)]); HasLine(a.rcv) && HandleSize(a).pending == NoRead
    ensures var m := Delivered(w, n);
            Happened(w, Transfer(n)) ==
              World(HandleSize(Arrive(w.s, w.wire[..m])), None, w.wire[m..], w.done + [Finished(r.kind, r.len, GivenUp, r.bytes)])
  {
    var x := Link(Arrive(w.s, w.wire[..Delivered(w, n)]), r);
    var y := Turned(x);
    assert Drained(x) == Drained(y) == y;
  }

  /** A read that finds a line behind the end which gives a size. */
  lemma ReadStrays(w: World, kind: Kind, len: nat)
    requires ValidWorld(w) && w.reader.None? && len > 0 && w.s.left == 0
    requires var s := w.s.(pending := UntilLine); HasLine(s.rcv) && HandleSize(s).pending.Exact?
    ensures Happened(w, Read(kind, len)) ==
            w.(s := HandleSize(w.s.(pending := UntilLine)), reader := Some(Reader(kind, len, [], Waiting)))
  {
    var x := Link(w.s.(pending := LoadPosted), Reader(kind, len, [], Waiting));
    var y := Turned(x);
    assert y == x.(s := w.s.(pending := UntilLine));
    assert Drained(x) == Drained(y) == Drained(Turned(y)) == Turned(y);
  }

  /** A load that comes in places what the buffer takes, first bytes first. */
  lemma LoadPlaces(w: World, r: Reader, n: nat)
    requires ValidWorld(w) && w.reader == Some(r) && w.s.pending.Exact? && r.bytes == []
    requires w.s.rcv == [] && w.s.pending.need == w.s.size + 2 == |w.wire| == n && r.len > 0
    ensures var t := Happened(w, Transfer(n));
            t.s.strayed == w.s.strayed && Placed(t) == Gathered(w.done) + w.wire[..Min(r.len, w.s.size)]
  {
    var x := Link(Arrive(w.s, w.wire), r);
    assert w.wire[..n] == w.wire && [] + w.wire == w.wire;
    var y := Turned(x);
    assert y.r.bytes == w.wire[..Min(r.len, w.s.size)];
    if y.s.pending == LoadPosted {
      assert y.s.rcv == w.wire[w.s.size + 2..] == [];
      var z := Turned(y);
      assert Drained(x) == Drained(y) == Drained(z) == z;
    } else {
      assert Drained(x) == Drained(y) == y;
    }
    SettledPlaces(w.(wire := w.wire[n..]), Drained(x));
  }

  /** A body without chunks comes in, with the bytes `behind` behind its end. */
  lemma EmptyBodyEnds(events: seq<Event>, kind: Kind, len: nat, behind: seq<byte>, wire: seq<byte>)
    requires len > 0 && |events| >= 2 && events[0] == Read(kind, len)
    requires events[1] == Transfer(|SizeLine([48], []) + behind|)
    ensures RunTo(events, SizeLine([48], []) + behind + wire, 2) ==
            World(Session(behind, 0, 0, NoRead, true, false), None, wire, [Finished(kind, len, GivenUp, [])])
  {
    var first := SizeLine([48], []) + behind;
    var sent := first + wire;
    var w0 := World(INITIAL, None, sent, []);
    assert RunTo(events, sent, 0) == w0;
    ReadWaits(w0, kind, len);
    var w1 := RunTo(events, sent, 1);
    assert w1 == Happened(w0, events[0]);
    assert sent[..|first|] == first && sent[|first|..] == wire;
    var a := Arrive(w1.s, first);
    ZeroDigit();
    assert a.rcv == first && first + wire == SizeLine([48], []) + (behind + wire);
    LineArrived(a.rcv, wire, [48], [], 0, behind + wire);
    SizeHandled(a, wire, [48], [], 0, behind + wire);
    assert first[|SizeLine([48], [])|..] == behind;
    LineEndsBody(w1, w1.reader.value, |first|);
    assert RunTo(events, sent, 2) == Happened(w1, events[1]);
  }

  /** A run that strays: behind a body without chunks the size line of another chunk comes in; the next
      read takes that chunk's data for the body's. */
  lemma SecondBodyIsRead(c: Chunk, kind: Kind, len: nat)
    requires ValidChunk(c, SIZE_LIMIT) && len > 0
    ensures var p := Peer([], [48], [], CRLF + EncodeChunk(c));
            var w := RunTo(StrayingRun(c, kind, len), Sent(p), 4);
            && ValidPeer(p, SIZE_LIMIT) && w.s.strayed
            && Payload(p.chunks) == [] && Placed(w) == c.data[..Min(len, |c.data|)] != []
  {
    var behind, wire := CRLF + SizeLine(c.digits, c.ext), c.data + CRLF;
    var p, sent := Peer([], [48], [], CRLF + EncodeChunk(c)), SizeLine([48], []) + behind + wire;
    var events := StrayingRun(c, kind, len);
    ZeroDigit();
    assert Sent(p) == sent;
    StrayingRunLoads(c, kind, len);
    var t := RunTo(events, sent, 3);
    LoadPlaces(t, t.reader.value, |c.data| + 2);
    assert RunTo(events, sent, 4) == Happened(t, events[3]);
    assert Gathered(t.done) == Gathered([]) + [];
    assert wire[..Min(len, |c.data|)] == c.data[..Min(len, |c.data|)];
  }

  lemma StrayingRunLoads(c: Chunk, kind: Kind, len: nat)
    requires ValidChunk(c, SIZE_LIMIT) && len > 0
    ensures var wire := c.data + CRLF;
            RunTo(StrayingRun(c, kind, len), SizeLine([48], []) + (CRLF + SizeLine(c.digits, c.ext)) + wire, 3) ==
              World(Session([], |c.data|, 0, Exact(|c.data| + 2), true, true), Some(Reader(kind, len, [], Waiting)), wire,
                    [Finished(kind, len, GivenUp, [])])
  {
    var behind, wire := CRLF + SizeLine(c.digits, c.ext), c.data + CRLF;
    var sent, events := SizeLine([48], []) + behind + wire, StrayingRun(c, kind, len);
    EmptyBodyEnds(events, kind, len, behind, wire);
    var w := RunTo(events, sent, 2);
    SecondBodyLoads(w, c, kind, len);
    assert RunTo(events, sent, 3) == Happened(w, events[2]);
  }

  function StrayingRun(c: Chunk, kind: Kind, len: nat): seq<Event> {
    var first := SizeLine([48], []) + (CRLF + SizeLine(c.digits, c.ext));
    [Read(kind, len), Transfer(|first|), Read(kind, len), Transfer(|c.data| + 2)]
  }

  lemma SecondBodyLoads(w: World, c: Chunk, kind: Kind, len: nat)
    requires ValidWorld(w) && w.reader.None? && w.s.ended && w.s.left == 0 && len > 0
    requires ValidChunk(c, SIZE_LIMIT) && w.s.rcv == CRLF + SizeLine(c.digits, c.ext)
    ensures var s := w.s.(rcv := [], size := |c.data|, pending := Exact(|c.data| + 2), strayed := true);
            Happened(w, Read(kind, len)) == w.(s := s, reader := Some(Reader(kind, len, [], Waiting)))
  {
    var b := w.s.(pending := UntilLine);
    assert b.rcv == CRLF + SizeLine(c.digits, c.ext) + [] && CrlfAt(b.rcv, 0);
    SecondBodyStrays(b, c, []);
    ReadStrays(w, kind, len);
  }

  lemma ZeroDigit()
    ensures ValidSizeText([48], [], 0)
  {
    assert HexValue([48]) == HexValue([48][..0]) * 16 + 0;
  }

  // ---------------------------------------------------------------- the objects

  class LuaHttpReader {
    const kind: Kind
    const buff: array<byte>
    var pos: nat
    var resumed: Resumed

    predicate Valid()
      reads this
    {
      pos <= buff.Length
    }

    function Now(): Reader
      reads this, buff
      requires Valid()
    {
      Reader(kind, buff.Length, buff[..pos], resumed)
    }

    constructor (kind: Kind, buff: array<byte>)
      ensures Valid() && this.buff == buff && Now() == Reader(kind, buff.Length, [], Waiting)
    {
      this.kind, this.buff, pos, resumed := kind, buff, 0, Waiting;
    }

    method Completed() returns (completed: bool)
      requires Valid()
      ensures completed == Complete(Now())
    {
      completed := if kind == Exactly then pos == buff.Length else pos > 0;
    }

    method Notify(session: LuaHttpSession, ok: bool, size: nat)
      requires Valid() && ValidSession(session.Now()) && session.pending == NoRead
      modifies this`pos, this`resumed, buff, session`rcvStreambuf, session`curChunkLeft, session`pending
      ensures Valid()
      ensures Link(session.Now(), Now()) ==
              if ok then Notified(old(Link(session.Now(), Now())), size) else old(Link(session.Now(), Now().(resumed := GivenUp)))
    {
      if !ok {
        resumed := GivenUp;
        return;
      }
      var readLen := Min(size, buff.Length - pos);
      readLen := session.ReadStream(buff, pos, readLen);
      if readLen == 0 {
        resumed := GivenUp;
        return;
      }
      ghost var start := pos;
      pos := pos + readLen;
      assert buff[..pos] == buff[..start] + buff[start..pos];
      var completed := Completed();
      if !completed {
        session.AsyncLoad();
        return;
      }
      resumed := WithResult(pos);
    }
  }

  class LuaHttpSession {
    var rcvStreambuf: seq<byte>
    var curChunkSize: sizeT
    var curChunkLeft: nat
    var pending: Pending
    var ended: bool    // a reader was told the end of the body
    var strayed: bool  // a line behind it gave a size

    function Now(): Session
      reads this
    {
      Session(rcvStreambuf, curChunkSize, curChunkLeft, pending, ended, strayed)
    }

    constructor ()
      ensures Now() == INITIAL
    {
      rcvStreambuf, curChunkSize, curChunkLeft, pending, ended, strayed := [], 0, 0, NoRead, false, false;
    }

    method AsyncLoad()
      modifies this`pending
      ensures Now() == old(Now()).(pending := LoadPosted)
    {
      pending := LoadPosted;
    }

    method Load(reader: LuaHttpReader)
      requires reader.Valid() && ValidLink(Link(Now(), reader.Now())) && pending == LoadPosted
      modifies this, reader`pos, reader`resumed, reader.buff
      ensures reader.Valid() && Link(Now(), reader.Now()) == Turned(old(Link(Now(), reader.Now())))
    {
      if curChunkLeft > 0 {
        pending := NoRead;
        reader.Notify(this, true, curChunkLeft);
      } else {
        pending := UntilLine;
      }
    }

    method HandleReadChunkSize(reader: LuaHttpReader)
      requires reader.Valid() && ValidLink(Link(Now(), reader.Now())) && pending == UntilLine && Ready(Now())
      modifies this, reader`pos, reader`resumed, reader.buff
      ensures reader.Valid() && Link(Now(), reader.Now()) == Turned(old(Link(Now(), reader.Now())))
    {
      ReadSize();
      if pending == NoRead {
        reader.Notify(this, false, 0);
      }
    }

    /** Takes the size line and starts to load the chunk, or ends the body. */
    method ReadSize()
      modifies this
      ensures Now() == HandleSize(old(Now()))
    {
      var x := ExtractHex(rcvStreambuf, curChunkSize, SIZE_LIMIT);
      curChunkSize, rcvStreambuf := x.value, x.rest;
      if x.good {
        rcvStreambuf := SkipLine(x.rest);
      }
      strayed := strayed || (ended && curChunkSize > 0);
      if curChunkSize == 0 {
        pending, ended := NoRead, true;
      } else {
        pending := Exact(curChunkSize + 2);
      }
    }

    method HandleLoadChunkBody(reader: LuaHttpReader)
      requires reader.Valid() && ValidLink(Link(Now(), reader.Now())) && pending == Exact(0)
      modifies this, reader`pos, reader`resumed, reader.buff
      ensures reader.Valid() && Link(Now(), reader.Now()) == Turned(old(Link(Now(), reader.Now())))
    {
      pending := NoRead;
      curChunkLeft := curChunkSize;
      reader.Notify(this, true, curChunkSize);
    }

    method ReadStream(buff: array<byte>, at: nat, len: nat) returns (n: nat)
      requires ValidSession(Now()) && at + len <= buff.Length
      modifies this`rcvStreambuf, this`curChunkLeft, buff
      ensures n == TakeCount(old(Now()), len)
      ensures Now() == Take(old(Now()), len)
      ensures buff[..] == old(buff[..at]) + old(rcvStreambuf)[..n] + old(buff[at + n..])
    {
      n := 0;
      if len == 0 || curChunkLeft == 0 {
        return;
      }
      n := Min(len, curChunkLeft);
      forall i | 0 <= i < n {
        buff[at + i] := rcvStreambuf[i];
      }
      rcvStreambuf := rcvStreambuf[n..];
      curChunkLeft := curChunkLeft - n;
      if curChunkLeft == 0 {
        rcvStreambuf := rcvStreambuf[2..];
      }
    }

    /** The event loop dispatches completed operations. */
    method Pump(reader: LuaHttpReader)
      requires reader.Valid() && ValidLink(Link(Now(), reader.Now()))
      modifies this, reader`pos, reader`resumed, reader.buff
      ensures reader.Valid() && Link(Now(), reader.Now()) == Drained(old(Link(Now(), reader.Now())))
    {
      while Ready(Now())
        invariant reader.Valid() && ValidLink(Link(Now(), reader.Now()))
        invariant Drained(Link(Now(), reader.Now())) == Drained(old(Link(Now(), reader.Now())))
        decreases reader.buff.Length - reader.pos, Rank(Now())
      {
        TurnProgresses(Link(Now(), reader.Now()));
        if pending.UntilLine? {
          HandleReadChunkSize(reader);
        } else if pending.Exact? {
          HandleLoadChunkBody(reader);
        } else {
          Load(reader);
        }
      }
    }

    method Receive(bytes: seq<byte>)
      requires pending.Exact? ==> |bytes| <= pending.need
      modifies this`rcvStreambuf, this`pending
      ensures Now() == Arrive(old(Now()), bytes)
    {
      rcvStreambuf := rcvStreambuf + bytes;
      if pending.Exact? {
        pending := Exact(pending.need - |bytes|);
      }
    }
  }

  /** The objects, driven by the events, stand where RunTo says. */
  method Run(events: seq<Event>, sent: seq<byte>) returns (final: World)
    ensures final == RunTo(events, sent, |events|)
  {
    var session := new LuaHttpSession();
    var reader: LuaHttpReader? := null;
    var wire, done := sent, [];
    for n := 0 to |events|
      invariant fresh(session) && (reader != null ==> fresh(reader) && fresh(reader.buff) && reader.Valid())
      invariant RunTo(events, sent, n) == World(session.Now(), if reader == null then None else Some(reader.Now()), wire, done)
    {
      ghost var w := RunTo(events, sent, n);
      var e := events[n];
      if e.Read? {
        if reader == null && e.len > 0 {
          reader := StartRead(session, e.kind, e.len);
        }
      } else if reader != null {
        wire := TransferTo(session, reader, e.n, wire);
      }
      if reader != null && reader.resumed != Waiting {
        done := done + [Finished(reader.kind, reader.buff.Length, reader.resumed, reader.buff[..reader.pos])];
        reader := null;
      }
    }
    final := World(session.Now(), if reader == null then None else Some(reader.Now()), wire, done);
  }

  /** LuaHttpSession::read, and what the event loop can do for it at once. */
  method StartRead(session: LuaHttpSession, kind: Kind, len: nat) returns (reader: LuaHttpReader)
    requires ValidSession(session.Now()) && session.pending == NoRead && len > 0
    modifies session
    ensures fresh(reader) && fresh(reader.buff) && reader.Valid()
    ensures Link(session.Now(), reader.Now()) ==
            Drained(Link(old(session.Now()).(pending := LoadPosted), Reader(kind, len, [], Waiting)))
  {
    var buff := new byte[len](_ => 0);
    reader := new LuaHttpReader(kind, buff);
    session.AsyncLoad();
    session.Pump(reader);
  }

  /** Up to `n` more bytes of `wire` come in. */
  method TransferTo(session: LuaHttpSession, reader: LuaHttpReader, n: nat, wire: seq<byte>) returns (rest: seq<byte>)
    requires reader.Valid() && ValidLink(Link(session.Now(), reader.Now()))
    modifies session, reader`pos, reader`resumed, reader.buff
    ensures reader.Valid()
    ensures var m := Delivered(World(old(session.Now()), None, wire, []), n);
            && rest == wire[m..]
            && Link(session.Now(), reader.Now()) == Drained(Link(Arrive(old(session.Now()), wire[..m]), old(reader.Now())))
  {
    var m := Min(n, |wire|);
    if session.pending.Exact? {
      m := Min(m, session.pending.need);
    }
    session.Receive(wire[..m]);
    session.Pump(reader);
    rest := wire[m..];
  }
}
