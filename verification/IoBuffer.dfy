/** The byte buffer of src/utility/iobuffer.h: an array with a window of unread bytes.  Copying a
    handle shares the array; clone does not. */
module IoBuffer {
  import opened Machine

  // ----- the window, as a value -------------------------------------------------------------------

  /** The array's bytes and the two offsets. */
  datatype Window = Window(store: seq<byte>, begin: nat, end: nat)

  type Buffer = w: Window | w.begin <= w.end <= |w.store| witness Window([], 0, 0)

  function Unread(w: Buffer): seq<byte> {
    w.store[w.begin..w.end]
  }

  function ToFront(w: Buffer, length: nat): Buffer
    requires length <= |w.store|
  {
    Window(Unread(w) + w.store[w.end - w.begin..], 0, length)
  }

  /** What a program may do with one buffer; FillFrom names another one, or the same. */
  datatype Call = Consume(n: nat) | Produce(n: nat) | Resize(n: nat) | Align | Clear | FillFrom(source: nat)

  /** The bounds that the code asserts. */
  predicate InBounds(w: Buffer, c: Call) {
    match c
    case Consume(n) => n <= |Unread(w)|
    case Produce(n) => n <= |w.store| - w.end
    case Resize(n) => n <= |w.store|
    case _ => true
  }

  /** What a call does; `data` is the unread part of the source of a fill. */
  function Called(w: Buffer, c: Call, data: seq<byte>): Buffer
    requires InBounds(w, c)
  {
    match c
    case Consume(n) => if w.begin + n == w.end then w.(begin := 0, end := 0) else w.(begin := w.begin + n)
    case Produce(n) => w.(end := w.end + n)
    case Resize(n) => if w.begin + n <= |w.store| then w.(end := w.begin + n) else ToFront(w, n)
    case Align => if w.begin == 0 then w else if w.begin == w.end then w.(begin := 0, end := 0) else ToFront(w, w.end - w.begin)
    case Clear => w.(begin := 0, end := 0)
    case FillFrom(_) =>
      var n := Min(|data|, |w.store| - w.end);
      Window(w.store[..w.end] + data[..n] + w.store[w.end + n..], w.begin, w.end + n)
  }

  lemma Part(store: seq<byte>, begin: nat, end: nat, m: nat)
    requires begin + m <= end <= |store|
    ensures store[begin..end][..m] == store[begin..begin + m]
  {
  }

  lemma ResizeActs(w: Buffer, n: nat)
    requires n <= |w.store|
    ensures var t, m := Called(w, Resize(n), []), Min(n, |Unread(w)|);
            |t.store| == |w.store| && |Unread(t)| == n && Unread(t)[..m] == Unread(w)[..m]
  {
    var m := Min(n, |Unread(w)|);
    if w.begin + n <= |w.store| {
      Part(w.store, w.begin, w.begin + n, m);
      Part(w.store, w.begin, w.end, m);
    } else {
      var t := ToFront(w, n);
      Part(t.store, 0, n, m);
      assert t.store[0..m] == Unread(w)[..m];
    }
  }

  lemma FillActs(w: Buffer, data: seq<byte>, n: nat)
    requires n == Min(|data|, |w.store| - w.end)
    ensures var t := Called(w, FillFrom(0), data);
            |t.store| == |w.store| && Unread(t) == Unread(w) + data[..n]
  {
    var t := Called(w, FillFrom(0), data);
    assert t.store[w.begin..w.end + n] == w.store[w.begin..w.end] + data[..n];
  }

  /** The buffer acts as a byte sequence: what each call does to the unread bytes, wherever they lie, and
      to the room behind them; a buffer read to its end has all its room again. */
  lemma ActsAsBytes(w: Buffer, c: Call, data: seq<byte>)
    requires InBounds(w, c)
    ensures var u, t := Unread(w), Called(w, c, data);
            && |t.store| == |w.store|
            && (var room, left := |w.store| - w.end, |t.store| - t.end;
                match c
                case Consume(n) => left == if n == |u| then |w.store| else room
                case Produce(n) => left == room - n
                case Resize(n) => left == if n <= |u| + room then |u| + room - n else |w.store| - n
                case Align => left == |w.store| - |u|
                case Clear => left == |w.store|
                case FillFrom(_) => left == room - Min(|data|, room))
            && match c
               case Consume(n) => Unread(t) == u[n..]
               case Produce(n) => u <= Unread(t) && |Unread(t)| == |u| + n && t.store == w.store
               case Resize(n) => |Unread(t)| == n && Unread(t)[..Min(n, |u|)] == u[..Min(n, |u|)]
               case Align => Unread(t) == u && t.begin == 0
               case Clear => Unread(t) == []
               case FillFrom(_) => Unread(t) == u + data[..Min(|data|, |w.store| - w.end)]
  {
    match c
    case Produce(n) => Part(w.store, w.begin, w.end + n, |Unread(w)|);
    case Resize(n) => ResizeActs(w, n);
    case FillFrom(_) => FillActs(w, data, Min(|data|, |w.store| - w.end));
    case _ =>
  }

  // ----- the buffer ---------------------------------------------------------------------------------

  class IOBuffer {
    var begin: nat
    var end: nat
    const buffer: array<byte>

    predicate Valid()
      reads this
    {
      begin <= end <= buffer.Length
    }

    /** The bytes a reader sees. */
    function Unread(): (u: seq<byte>)
      reads this, buffer
      requires Valid()
      ensures |u| == end - begin
    {
      buffer[begin..end]
    }

    function Now(): Buffer
      reads this, buffer
      requires Valid()
    {
      Window(buffer[..], begin, end)
    }

    /** All `capacity` bytes count as unread, whatever they are. */
    constructor (capacity: nat)
      ensures Valid() && fresh(buffer) && begin == 0 && end == capacity == buffer.Length
    {
      buffer := new byte[capacity](_ => 0);
      begin, end := 0, capacity;
    }

    constructor FromBytes(bytes: seq<byte>)
      ensures Valid() && fresh(buffer) && begin == 0 && end == |bytes| == buffer.Length && Unread() == bytes
    {
      buffer := new byte[|bytes|](i requires 0 <= i < |bytes| => bytes[i]);
      begin, end := 0, |bytes|;
    }

    /** What assigning one IOBuffer to another does: new offsets on the same array. */
    constructor Handle(other: IOBuffer)
      requires other.Valid()
      ensures Valid() && buffer == other.buffer && begin == other.begin && end == other.end
      ensures Unread() == other.Unread()
    {
      buffer, begin, end := other.buffer, other.begin, other.end;
    }

    method Clone() returns (c: IOBuffer)
      requires Valid()
      ensures fresh(c) && fresh(c.buffer) && c.Valid()
      ensures c.buffer[..] == buffer[..] && c.begin == begin && c.end == end && c.Unread() == Unread()
    {
      c := new IOBuffer.FromBytes(buffer[..]);
      c.begin, c.end := begin, end;
    }

    predicate Empty()
      reads this
    {
      begin == end
    }

    method Clear()
      modifies this
      ensures Valid() && Unread() == []
      ensures begin == end == 0
    {
      begin, end := 0, 0;
    }

    method Consume(count: nat)
      requires Valid() && count <= |Unread()|
      modifies this
      ensures Valid() && Unread() == old(Unread())[count..] && Now() == Called(old(Now()), Call.Consume(count), [])
    {
      begin := begin + count;
      if Empty() {
        Clear();
      }
    }

    /** The next `count` bytes of the array become unread. */
    method Produce(count: nat)
      requires Valid() && count <= buffer.Length - end
      modifies this
      ensures Valid() && Unread() == old(Unread()) + buffer[old(end)..old(end) + count]
      ensures Now() == Called(old(Now()), Call.Produce(count), [])
    {
      end := end + count;
    }

    /** memmove of the unread bytes to the front of the array. */
    method MoveToFront()
      requires Valid()
      modifies buffer
      ensures buffer[..end - begin] == old(Unread())
      ensures buffer[end - begin..] == old(buffer[end - begin..])
    {
      ghost var u := Unread();
      var n := end - begin;
      forall i | 0 <= i < n {
        buffer[i] := buffer[begin + i];
      }
    }

    /** A longer window keeps the unread bytes as its beginning, a shorter one keeps their
        beginning, whether or not they have to move. */
    method Resize(length: nat)
      requires Valid() && length <= buffer.Length
      modifies this, buffer
      ensures Valid() && |Unread()| == length
      ensures var n := Min(length, |old(Unread())|); Unread()[..n] == old(Unread())[..n]
      ensures Now() == Called(old(Now()), Call.Resize(length), [])
    {
      if begin + length <= buffer.Length {
        end := begin + length;
      } else {
        ghost var w := Now();
        MoveToFront();
        assert buffer[..] == buffer[..end - begin] + buffer[end - begin..];
        end := length;
        begin := 0;
        assert Now() == ToFront(w, length);
        ResizeActs(w, length);
      }
    }

    method Align()
      requires Valid()
      modifies this, buffer
      ensures Valid() && begin == 0 && Unread() == old(Unread())
      ensures Now() == Called(old(Now()), Call.Align, [])
    {
      if begin != 0 {
        if begin != end {
          MoveToFront();
          assert buffer[..] == buffer[..end - begin] + buffer[end - begin..];
          end := end - begin;
          begin := 0;
        } else {
          Clear();
        }
      }
    }

    /** memcpy behind the window. */
    method CopyIn(source: seq<byte>)
      requires Valid() && end + |source| <= buffer.Length
      modifies buffer
      ensures buffer[..] == old(buffer[..end]) + source + old(buffer[end + |source|..])
    {
      var to := end;
      forall i | 0 <= i < |source| {
        buffer[to + i] := source[i];
      }
    }

    /** Appends the longest prefix of `data` that fits behind the window.  Only memcpy's own demand is
        made: where both handles share the array, source and target must not overlap, as they never do
        for a buffer filled from itself. */
    method Fill(data: IOBuffer) returns (n: nat)
      requires Valid() && data.Valid()
      requires data.buffer == buffer ==>
                 var n := Min(|data.Unread()|, buffer.Length - end); data.begin + n <= end || end + n <= data.begin
      modifies this`end, buffer
      ensures Valid() && n == Min(|old(data.Unread())|, buffer.Length - old(end))
      ensures Unread() == old(Unread()) + old(data.Unread())[..n]
      ensures Now() == Called(old(Now()), FillFrom(0), old(data.Unread()))
    {
      var free := buffer.Length - end;
      n := Min(data.end - data.begin, free);
      var source := data.buffer[data.begin..data.begin + n];
      assert source == data.Unread()[..n];
      ActsAsBytes(Now(), FillFrom(0), data.Unread());
      CopyIn(source);
      end := end + n;
    }
  }

  // ----- any number of buffers ----------------------------------------------------------------------

  /** A call on buffer `i`, or a clone of it, which becomes the next buffer. */
  datatype Op = On(i: nat, call: Call) | CloneOf(i: nat)

  /** The calls a program may make: the buffers exist and the asserted bounds hold. */
  predicate Allowed(ws: seq<Buffer>, op: Op) {
    && op.i < |ws|
    && (op.On? ==> InBounds(ws[op.i], op.call) && (op.call.FillFrom? ==> op.call.source < |ws|))
  }

  function Data(ws: seq<Buffer>, c: Call): seq<byte>
    requires c.FillFrom? ==> c.source < |ws|
  {
    if c.FillFrom? then Unread(ws[c.source]) else []
  }

  function Stepped(ws: seq<Buffer>, op: Op): seq<Buffer> {
    if !Allowed(ws, op) then ws
    else if op.CloneOf? then ws + [ws[op.i]]
    else ws[op.i := Called(ws[op.i], op.call, Data(ws, op.call))]
  }

  /** One buffer made of `bytes`, after the first `n` operations; those that are not allowed are left
      out. */
  function RunTo(bytes: seq<byte>, ops: seq<Op>, n: nat): seq<Buffer>
    requires n <= |ops|
  {
    if n == 0 then [Window(bytes, 0, |bytes|)] else Stepped(RunTo(bytes, ops, n - 1), ops[n - 1])
  }

  /** A buffer changes by calls on itself only: from the moment it exists, whatever is done to its
      original, to its clones or to others leaves its bytes alone. */
  lemma {:induction false} OnlyOwnCallsChange(bytes: seq<byte>, ops: seq<Op>, m: nat, n: nat, i: nat)
    requires m <= n <= |ops| && i < |RunTo(bytes, ops, m)|
    requires forall k :: m <= k < n ==> !(ops[k].On? && ops[k].i == i)
    ensures i < |RunTo(bytes, ops, n)| && RunTo(bytes, ops, n)[i] == RunTo(bytes, ops, m)[i]
    decreases n
  {
    if m < n {
      OnlyOwnCallsChange(bytes, ops, m, n - 1, i);
    }
  }

  /** A clone starts with the bytes of its original and keeps them whatever else is done. */
  lemma CloneKeeps(bytes: seq<byte>, ops: seq<Op>, m: nat, n: nat)
    requires m < n <= |ops| && ops[m].CloneOf? && Allowed(RunTo(bytes, ops, m), ops[m])
    requires forall k :: m < k < n ==> !(ops[k].On? && ops[k].i == |RunTo(bytes, ops, m)|)
    ensures var before := RunTo(bytes, ops, m);
            |before| < |RunTo(bytes, ops, n)| && RunTo(bytes, ops, n)[|before|] == before[ops[m].i]
  {
    OnlyOwnCallsChange(bytes, ops, m + 1, n, |RunTo(bytes, ops, m)|);
  }

  /** The objects hold the windows, and share nothing. */
  ghost predicate Holds(pool: seq<IOBuffer>, ws: seq<Buffer>)
    reads pool, set i | 0 <= i < |pool| :: pool[i].buffer
  {
    && |pool| == |ws|
    && (forall i :: 0 <= i < |pool| ==> pool[i].Valid() && pool[i].Now() == ws[i])
    && (forall i, j :: 0 <= i < j < |pool| ==> pool[i] != pool[j] && pool[i].buffer != pool[j].buffer)
  }

  method Perform(b: IOBuffer, c: Call, data: IOBuffer)
    requires b.Valid() && data.Valid() && InBounds(b.Now(), c) && (data == b || data.buffer != b.buffer)
    modifies b, b.buffer
    ensures b.Valid() && b.Now() == Called(old(b.Now()), c, if c.FillFrom? then old(data.Unread()) else [])
  {
    match c {
      case Consume(n) => b.Consume(n);
      case Produce(n) => b.Produce(n);
      case Resize(n) => b.Resize(n);
      case Align => b.Align();
      case Clear => b.Clear();
      case FillFrom(_) => var n := b.Fill(data);
    }
  }

  method Step(pool: seq<IOBuffer>, op: Op, ghost ws: seq<Buffer>) returns (now: seq<IOBuffer>)
    requires Holds(pool, ws)
    modifies pool, set i | 0 <= i < |pool| :: pool[i].buffer
    ensures Holds(now, Stepped(ws, op)) && pool <= now
    ensures forall i :: |pool| <= i < |now| ==> fresh(now[i]) && fresh(now[i].buffer)
  {
    now := pool;
    var ok := MayCall(pool, op, ws);
    if ok {
      if op.CloneOf? {
        var c := pool[op.i].Clone();
        now := pool + [c];
      } else {
        CallOn(pool, op, ws);
      }
    }
  }

  method CallOn(pool: seq<IOBuffer>, op: Op, ghost ws: seq<Buffer>)
    requires Holds(pool, ws) && op.On? && Allowed(ws, op)
    modifies pool, set i | 0 <= i < |pool| :: pool[i].buffer
    ensures Holds(pool, Stepped(ws, op))
  {
    var b := pool[op.i];
    var data := if op.call.FillFrom? then pool[op.call.source] else b;
    Perform(b, op.call, data);
  }

  /** Objects on arrays, under any operations: they hold what RunTo says, so none is ever changed by a
      call on another. */
  method Run(bytes: seq<byte>, ops: seq<Op>) returns (final: seq<seq<byte>>)
    ensures var ws := RunTo(bytes, ops, |ops|);
            |final| == |ws| && forall i :: 0 <= i < |ws| ==> final[i] == Unread(ws[i])
  {
    var first := new IOBuffer.FromBytes(bytes);
    var pool := [first];
    for n := 0 to |ops|
      invariant Holds(pool, RunTo(bytes, ops, n))
      invariant forall i :: 0 <= i < |pool| ==> fresh(pool[i]) && fresh(pool[i].buffer)
    {
      pool := Step(pool, ops[n], RunTo(bytes, ops, n));
    }
    final := [];
    for i := 0 to |pool|
      invariant |final| == i && forall k :: 0 <= k < i ==> final[k] == pool[k].Unread()
    {
      final := final + [pool[i].buffer[pool[i].begin..pool[i].end]];
    }
  }

  method MayCall(pool: seq<IOBuffer>, op: Op, ghost ws: seq<Buffer>) returns (ok: bool)
    requires Holds(pool, ws)
    ensures ok == Allowed(ws, op)
  {
    if op.i >= |pool| {
      return false;
    }
    ok := op.CloneOf? || (InBounds(pool[op.i].Now(), op.call) && (op.call.FillFrom? ==> op.call.source < |pool|));
  }
}
