/** The websocket service of src/lua/module/lua_lws_service.cpp at the granularity of its critical
    sections.  Writers queue messages and mark the connection; the service thread turns marks into
    writable requests; each writable callback sends one message. */
module LwsService {

  type Wsi = nat       // a connection handle of the library
  type Text = string

  /** A table entry: the session's two flags and the messages waiting to be sent. */
  datatype WsiObj = WsiObj(closing: bool, closed: bool, queue: seq<Text>)

  datatype Reason = Writeable | Established | Receive | Gone

  /** What lws_write returns. */
  datatype WriteResult = Full | Partial | Failed

  /** The library owns `pending`, the connections owed a writable callback, `alive`, those it has not
      closed, and `established`, those that are connected.  `given` records the messages passed to
      lws_write since a handle was last returned for a new connection. */
  datatype State = State(running: bool, table: map<Wsi, WsiObj>, writeableSet: set<Wsi>, pending: set<Wsi>,
                         alive: set<Wsi>, established: set<Wsi>, given: map<Wsi, seq<Text>>)

  /** The critical sections and what happens outside: Forgotten means that the library dropped the
      writable request of a connection that is not established yet. */
  datatype Event =
    | Started(protocols: nat, created: bool, begun: bool)
    | Connected(w: Wsi)
    | Wrote(w: Wsi, data: Text)
    | FlaggedClosing(w: Wsi)
    | FlaggedClosed(w: Wsi)
    | Closed(w: Wsi)
    | Callback(w: Wsi, reason: Reason, result: WriteResult)
    | Round
    | AllClosed(known: set<Wsi>)
    | Stopped(known: set<Wsi>)
    | Forgotten(w: Wsi)

  // ----- the steps, as functions ------------------------------------------------------------------

  const INITIAL := State(false, map[], {}, {}, {}, {}, map[])

  datatype StartCode = Success | InvalidParam | LwsError | Timeout

  predicate Live(s: State, w: Wsi) {
    w in s.table && w in s.alive && !s.table[w].closing && !s.table[w].closed
  }

  function Marked(s: State, w: Wsi): State {
    s.(writeableSet := s.writeableSet + {w})
  }

  /** start: nothing for a running service; otherwise it needs protocols, a context from the library and a
      thread that reports in time.  Marks left from before a stop stay. */
  function AfterStart(s: State, protocols: nat, created: bool, begun: bool): (State, StartCode) {
    if s.running then (s, Success)
    else if protocols == 0 then (s, InvalidParam)
    else if !created then (s, LwsError)
    else if !begun then (s, Timeout)
    else (s.(running := true), Success)
  }

  /** The library returned `w`, which it does not use yet; refused when the service does not run. */
  function AfterConnect(s: State, w: Wsi): State {
    if !s.running || w in s.alive then s
    else
      Marked(s.(table := s.table[w := WsiObj(false, false, [])], alive := s.alive + {w},
                established := s.established - {w}, pending := s.pending - {w}, given := s.given[w := []]), w)
  }

  function AfterWrite(s: State, w: Wsi, data: Text): State {
    if !s.running || w !in s.table then s
    else Marked(s.(table := s.table[w := s.table[w].(queue := s.table[w].queue + [data])]), w)
  }

  function AfterClose(s: State, w: Wsi): State {
    if !s.running || w !in s.table then s else Marked(s, w)
  }

  /** on_writable and its result. */
  function AfterWritable(s: State, w: Wsi, result: WriteResult): (State, int)
    requires w in s.table && w in s.given
  {
    var q := s.table[w].queue;
    if q == [] then (s, 0)
    else
      var sent := s.(table := s.table[w := s.table[w].(queue := q[1..])], given := s.given[w := s.given[w] + [q[0]]]);
      if result == Full then (sent.(pending := sent.pending + {w}), 0) else (sent, -1)
  }

  /** inner_callback on state `s` and its result. */
  function AfterInner(s: State, w: Wsi, reason: Reason, result: WriteResult): (State, int)
    requires w in s.table ==> w in s.given
  {
    if w !in s.table then (s, 0)
    else if s.table[w].closing then (s.(table := s.table - {w}), -1)
    else if reason == Writeable then AfterWritable(s, w, result)
    else if reason == Established then (Marked(s, w), 0)
    else (s, 0)
  }

  /** A callback of the library: it owes no writable callback once one is made, and closes the
      connection on -1. */
  function AfterCallback(s: State, w: Wsi, reason: Reason, result: WriteResult): State
    requires w in s.table ==> w in s.given
  {
    if w !in s.alive || (reason == Writeable && w !in s.pending) then s
    else
      var called := s.(pending := if reason == Writeable then s.pending - {w} else s.pending,
                       established := if reason == Established then s.established + {w} else s.established);
      var (t, ret) := AfterInner(called, w, reason, result);
      if ret == -1 || reason == Gone then t.(alive := t.alive - {w}) else t
  }

  /** check_writeable, run by the service thread between rounds. */
  function AfterRound(s: State): State {
    s.(pending := s.pending + Requests(s, {}), writeableSet := {})
  }

  /** The marked connections not in `rest` for which a callback is requested. */
  function Requests(s: State, rest: set<Wsi>): set<Wsi> {
    set w | w in s.writeableSet && w !in rest && w in s.table && !s.table[w].closed
  }

  /** The table part of close_all: closed sessions leave the table, the others start closing and those
      whose session knows its handle are marked. */
  function AfterCloseAll(s: State, known: set<Wsi>): State {
    var marked := set w | w in s.table && !s.table[w].closed && !s.table[w].closing && w in known;
    s.(table := map w | w in s.table && !s.table[w].closed :: s.table[w].(closing := true),
       writeableSet := if s.running then s.writeableSet + marked else s.writeableSet)
  }

  /** stop: the table is cleared and the library's context destroyed. */
  function AfterStop(s: State, known: set<Wsi>): State {
    var t := if s.running then AfterCloseAll(s, known) else s;
    t.(running := false, table := map[], pending := {}, alive := {}, established := {})
  }

  function WithFlags(s: State, w: Wsi, closing: bool, closed: bool): State
    requires w in s.table
  {
    s.(table := s.table[w := s.table[w].(closing := closing, closed := closed)])
  }

  predicate ValidState(s: State) {
    forall w :: w in s.table ==> w in s.given
  }

  /** One event, when it is possible. */
  function Stepped(s: State, e: Event): (t: State)
    requires ValidState(s)
    ensures ValidState(t)
  {
    match e
    case Started(protocols, created, begun) => AfterStart(s, protocols, created, begun).0
    case Connected(w) => AfterConnect(s, w)
    case Wrote(w, data) => AfterWrite(s, w, data)
    case FlaggedClosing(w) => if w in s.table then WithFlags(s, w, true, s.table[w].closed) else s
    case FlaggedClosed(w) => if w in s.table then WithFlags(s, w, s.table[w].closing, true) else s
    case Closed(w) => AfterClose(s, w)
    case Callback(w, reason, result) => AfterCallback(s, w, reason, result)
    case Round => AfterRound(s)
    case AllClosed(known) => AfterCloseAll(s, known)
    case Stopped(known) => AfterStop(s, known)
    case Forgotten(w) => if w in s.established then s else s.(pending := s.pending - {w})
  }

  function RunTo(events: seq<Event>, n: nat): (s: State)
    requires n <= |events|
    ensures ValidState(s)
  {
    if n == 0 then INITIAL else Stepped(RunTo(events, n - 1), events[n - 1])
  }

  // ----- what every run keeps ---------------------------------------------------------------------

  /** The messages written on the connection `w` stands for after `n` events: those written since the
      library returned the handle, while the service ran and knew it. */
  function Written(events: seq<Event>, n: nat, w: Wsi): seq<Text>
    requires n <= |events|
  {
    if n == 0 then []
    else
      var before, s := Written(events, n - 1, w), RunTo(events, n - 1);
      match events[n - 1]
      case Connected(v) => if v == w && s.running && w !in s.alive then [] else before
      case Wrote(v, data) => if v == w && s.running && w in s.table then before + [data] else before
      case _ => before
  }

  /** A wakeup for `w` is on its way. */
  predicate Armed(s: State, w: Wsi) {
    w in s.writeableSet || w in s.pending
  }

  predicate Waiting(s: State, w: Wsi) {
    Live(s, w) && s.table[w].queue != []
  }

  /** No wakeup is lost, unless the library forgets it before the connection is established, and then
      the callback for Established marks the connection again. */
  lemma StepKeepsArmed(s: State, e: Event, w: Wsi)
    requires ValidState(s)
    requires Waiting(s, w) ==> Armed(s, w) || w !in s.established
    ensures var t := Stepped(s, e); Waiting(t, w) ==> Armed(t, w) || w !in t.established
  {
  }

  lemma StepKeepsStrictlyArmed(s: State, e: Event, w: Wsi)
    requires ValidState(s) && e != Forgotten(w)
    requires Waiting(s, w) ==> Armed(s, w)
    ensures var t := Stepped(s, e); Waiting(t, w) ==> Armed(t, w)
  {
  }

  /** What reached the library, then what waits, is `written`. */
  predicate Ordered(s: State, w: Wsi, written: seq<Text>)
    requires ValidState(s)
  {
    && (w in s.given ==> s.given[w] <= written)
    && (w in s.table ==> s.given[w] + s.table[w].queue == written)
  }

  lemma WritableKeepsOrder(s: State, v: Wsi, result: WriteResult, w: Wsi, written: seq<Text>)
    requires ValidState(s) && Ordered(s, w, written) && v in s.table
    ensures var t := AfterWritable(s, v, result).0; ValidState(t) && Ordered(t, w, written)
  {
    if v == w && s.table[w].queue != [] {
      var q := s.table[w].queue;
      assert (s.given[w] + [q[0]]) + q[1..] == s.given[w] + q;
    }
  }

  lemma InnerKeepsOrder(s: State, v: Wsi, reason: Reason, result: WriteResult, w: Wsi, written: seq<Text>)
    requires ValidState(s) && Ordered(s, w, written)
    ensures var t := AfterInner(s, v, reason, result).0; ValidState(t) && Ordered(t, w, written)
  {
    if v in s.table {
      WritableKeepsOrder(s, v, result, w, written);
    }
  }

  lemma CallbackKeepsOrder(s: State, v: Wsi, reason: Reason, result: WriteResult, w: Wsi, written: seq<Text>)
    requires ValidState(s) && Ordered(s, w, written)
    ensures var t := AfterCallback(s, v, reason, result); ValidState(t) && Ordered(t, w, written)
  {
    var called := s.(pending := if reason == Writeable then s.pending - {v} else s.pending,
                     established := if reason == Established then s.established + {v} else s.established);
    InnerKeepsOrder(called, v, reason, result, w, written);
  }

  lemma StepKeepsOrder(s: State, e: Event, w: Wsi, written: seq<Text>, written': seq<Text>)
    requires ValidState(s) && Ordered(s, w, written)
    requires written' == match e
                         case Connected(v) => if v == w && s.running && w !in s.alive then [] else written
                         case Wrote(v, data) => if v == w && s.running && w in s.table then written + [data] else written
                         case _ => written
    ensures Ordered(Stepped(s, e), w, written')
  {
    if e.Callback? {
      CallbackKeepsOrder(s, e.w, e.reason, e.result, w, written);
    }
  }

  /** In every interleaving of the critical sections: a live connection with messages waiting is marked,
      is owed a writable callback or is still being connected; what reached the library, then what
      waits, is what was written; and without a forgotten request the wakeup is there at every moment. */
  lemma {:induction false} RunSafe(events: seq<Event>, n: nat, w: Wsi)
    requires n <= |events|
    ensures var s := RunTo(events, n);
            && (Waiting(s, w) ==> Armed(s, w) || w !in s.established)
            && Ordered(s, w, Written(events, n, w))
    ensures Forgotten(w) !in events[..n] ==> (Waiting(RunTo(events, n), w) ==> Armed(RunTo(events, n), w))
  {
    if n > 0 {
      RunSafe(events, n - 1, w);
      var s, e := RunTo(events, n - 1), events[n - 1];
      StepKeepsArmed(s, e, w);
      StepKeepsOrder(s, e, w, Written(events, n - 1, w), Written(events, n, w));
      assert events[..n] == events[..n - 1] + [e];
      if Forgotten(w) !in events[..n] {
        StepKeepsStrictlyArmed(s, e, w);
      }
    }
  }

  function Callbacks(s: State, w: Wsi, k: nat): (t: State)
    requires ValidState(s)
    ensures ValidState(t)
  {
    if k == 0 then s else Stepped(Callbacks(s, w, k - 1), Callback(w, Writeable, Full))
  }

  lemma OneSent(t: State, w: Wsi)
    requires ValidState(t) && Live(t, w) && w in t.pending && t.table[w].queue != []
    ensures var u := Stepped(t, Callback(w, Writeable, Full));
            && Live(u, w) && w in u.pending && u.table[w].queue == t.table[w].queue[1..]
            && u.given[w] == t.given[w] + [t.table[w].queue[0]]
  {
  }

  lemma RoundRequests(s: State, w: Wsi)
    requires ValidState(s) && Live(s, w) && Armed(s, w)
    ensures var t := Stepped(s, Round); t.table == s.table && t.given == s.given && Live(t, w) && w in t.pending
  {
  }

  /** A stop leaves nothing of the connections but marks, and those wake nobody after another start: they
      request no callback until the library returns the same handle for a new connection. */
  lemma RestartIsClean(s: State, known: set<Wsi>)
    requires ValidState(s)
    ensures var t := AfterStart(AfterStop(s, known), 1, true, true).0;
            t.running && t.table == map[] && t.pending == t.alive == t.established == {} && Requests(t, {}) == {}
  {
    assert forall w :: w !in Requests(AfterStart(AfterStop(s, known), 1, true, true).0, {});
  }

  /** From any state in which a live connection is armed, one round and one callback a message send
      everything that waits, in order, provided the library accepts it. */
  lemma {:induction false} DrainSends(s: State, w: Wsi, k: nat)
    requires ValidState(s) && Live(s, w) && Armed(s, w) && k <= |s.table[w].queue|
    ensures var t, q := Callbacks(Stepped(s, Round), w, k), s.table[w].queue;
            && Live(t, w) && t.table[w].queue == q[k..] && t.given[w] == s.given[w] + q[..k]
            && (k < |q| ==> w in t.pending)
  {
    var q := s.table[w].queue;
    RoundRequests(s, w);
    if k == 0 {
      assert q[0..] == q && s.given[w] + q[..0] == s.given[w];
    } else {
      DrainSends(s, w, k - 1);
      var t := Callbacks(Stepped(s, Round), w, k - 1);
      OneSent(t, w);
      assert q[k - 1..][1..] == q[k..];
      assert t.given[w] + [q[k - 1]] == s.given[w] + q[..k];
    }
  }

  /** A message the library does not take whole is lost with its connection: it counts as given, what is
      behind it waits for ever, and the connection is closed. */
  lemma FailedWriteCloses(s: State, w: Wsi, result: WriteResult)
    requires ValidState(s) && Live(s, w) && w in s.pending && s.table[w].queue != [] && result != Full
    ensures var t, q := Stepped(s, Callback(w, Writeable, result)), s.table[w].queue;
            w !in t.alive && t.given[w] == s.given[w] + [q[0]] && w in t.table && t.table[w].queue == q[1..]
  {
  }

  /** A closing connection is gone with its next callback, whatever that is about. */
  lemma ClosingLeaves(s: State, w: Wsi, reason: Reason, result: WriteResult)
    requires ValidState(s) && w in s.alive && w in s.table && s.table[w].closing && (reason == Writeable ==> w in s.pending)
    ensures var t := Stepped(s, Callback(w, reason, result)); w !in t.table && w !in t.alive && t.given == s.given
  {
  }

  /** close_all ends every connection whose session knows its handle: marked and closing at once, owed a
      callback after the next round, and gone with that callback. */
  lemma CloseAllEnds(s: State, known: set<Wsi>, w: Wsi, result: WriteResult)
    requires ValidState(s) && s.running && Live(s, w) && w in known
    ensures var closing := Stepped(s, AllClosed(known));
            var asked := Stepped(closing, Round);
            var t := Stepped(asked, Callback(w, Writeable, result));
            && w in closing.table && closing.table[w].closing && w in closing.writeableSet
            && w in asked.pending && w !in t.table && w !in t.alive
  {
    var asked := Stepped(Stepped(s, AllClosed(known)), Round);
    ClosingLeaves(asked, w, Writeable, result);
  }

  /** A new connection is asked for by the next round, before anything is written on it. */
  lemma ConnectedIsAsked(s: State, w: Wsi)
    requires ValidState(s) && s.running && w !in s.alive
    ensures var t := Stepped(Stepped(s, Connected(w)), Round);
            Live(t, w) && w in t.pending && t.table[w].queue == [] && t.given[w] == []
  {
  }

  /** A session's own close: it sets its flag and marks its connection, which is gone after one round and
      one callback. */
  lemma CloseEnds(s: State, w: Wsi, result: WriteResult)
    requires ValidState(s) && s.running && Live(s, w)
    ensures var asked := Stepped(Stepped(Stepped(s, FlaggedClosing(w)), Closed(w)), Round);
            var t := Stepped(asked, Callback(w, Writeable, result));
            w in asked.pending && w !in t.table && w !in t.alive
  {
    var asked := Stepped(Stepped(Stepped(s, FlaggedClosing(w)), Closed(w)), Round);
    ClosingLeaves(asked, w, Writeable, result);
  }

  /** The service runs exactly when some start had protocols, a context and its thread, and no stop came
      after it. */
  lemma {:induction false} RunningExactly(events: seq<Event>, n: nat)
    requires n <= |events|
    ensures RunTo(events, n).running <==>
            exists i :: 0 <= i < n && events[i].Started? && events[i].protocols > 0 && events[i].created && events[i].begun
                        && forall k :: i < k < n ==> !events[k].Stopped?
  {
    if n > 0 {
      RunningExactly(events, n - 1);
      var e := events[n - 1];
      RunningStep(RunTo(events, n - 1), e);
      if RunTo(events, n - 1).running && !e.Stopped? {
        var i :| 0 <= i < n - 1 && events[i].Started? && events[i].protocols > 0 && events[i].created && events[i].begun
                 && forall k :: i < k < n - 1 ==> !events[k].Stopped?;
        assert forall k :: i < k < n ==> !events[k].Stopped?;
      }
    }
  }

  lemma RunningStep(s: State, e: Event)
    requires ValidState(s)
    ensures Stepped(s, e).running <==>
            (e.Started? && e.protocols > 0 && e.created && e.begun) || (s.running && !e.Stopped?)
  {
  }

  /** What is not running takes no connection, no message and no close. */
  lemma StoppedRefuses(s: State, e: Event)
    requires ValidState(s) && !s.running && (e.Connected? || e.Wrote? || e.Closed?)
    ensures Stepped(s, e) == s
  {
  }

  // ----- the service --------------------------------------------------------------------------------

  class LuaLwsService {
    var running: bool
    var table: map<Wsi, WsiObj>
    var writeableSet: set<Wsi>
    var pending: set<Wsi>
    var alive: set<Wsi>
    var established: set<Wsi>
    var given: map<Wsi, seq<Text>>

    function Now(): State
      reads this
    {
      State(running, table, writeableSet, pending, alive, established, given)
    }

    constructor ()
      ensures Now() == INITIAL
    {
      running, table, writeableSet, pending, alive, established := false, map[], {}, {}, {}, {};
      given := map[];
    }

    /** `created` and `begun` say whether the library makes a context and the thread reports in time. */
    method Start(protocols: nat, created: bool, begun: bool) returns (ret: StartCode)
      modifies this`running
      ensures (Now(), ret) == AfterStart(old(Now()), protocols, created, begun)
    {
      if running {
        return Success;
      }
      if protocols == 0 {
        return InvalidParam;
      }
      if !created {
        return LwsError;
      }
      if !begun {
        return Timeout;
      }
      running := true;
      ret := Success;
    }

    method NotifyWriteable(w: Wsi)
      modifies this`writeableSet
      ensures Now() == Marked(old(Now()), w)
    {
      writeableSet := writeableSet + {w};
    }

    /** What the library does when it opens a connection. */
    method OpenHandle(w: Wsi)
      modifies this
      ensures Now() == old(Now()).(alive := old(alive) + {w}, established := old(established) - {w},
                                   pending := old(pending) - {w}, given := old(given)[w := []])
    {
      alive, established, pending := alive + {w}, established - {w}, pending - {w};
      given := given[w := []];
    }

    method Connect(w: Wsi)
      requires w !in alive
      modifies this
      ensures Now() == AfterConnect(old(Now()), w)
    {
      if !running {
        return;
      }
      OpenHandle(w);
      table := table[w := WsiObj(false, false, [])];
      NotifyWriteable(w);
    }

    method Write(w: Wsi, data: Text)
      modifies this
      ensures Now() == AfterWrite(old(Now()), w, data)
    {
      if !running || w !in table {
        return;
      }
      var obj := table[w];
      table := table[w := obj.(queue := obj.queue + [data])];
      NotifyWriteable(w);
    }

    method Close(w: Wsi)
      modifies this
      ensures Now() == AfterClose(old(Now()), w)
    {
      if !running || w !in table {
        return;
      }
      NotifyWriteable(w);
    }

    /** The session sets its flags outside the service's mutex. */
    method SetFlags(w: Wsi, closing: bool, closed: bool)
      requires w in table
      modifies this
      ensures Now() == WithFlags(old(Now()), w, closing, closed)
    {
      table := table[w := table[w].(closing := closing, closed := closed)];
    }

    method OnWritable(w: Wsi, result: WriteResult) returns (ret: int)
      requires w in table && w in given
      modifies this
      ensures (Now(), ret) == AfterWritable(old(Now()), w, result)
    {
      ret := 0;
      var obj := table[w];
      if obj.queue == [] {
        return;
      }
      var data := obj.queue[0];
      table := table[w := obj.(queue := obj.queue[1..])];
      given := given[w := given[w] + [data]];
      if result != Full {
        return -1;
      }
      pending := pending + {w};
    }

    method InnerCallback(w: Wsi, reason: Reason, result: WriteResult) returns (ret: int)
      requires w in table ==> w in given
      modifies this
      ensures (Now(), ret) == AfterInner(old(Now()), w, reason, result)
    {
      ret := 0;
      if w !in table {
        return;
      }
      var obj := table[w];
      if obj.closing {
        table := table - {w};
        ret := -1;
      } else if reason == Writeable {
        ret := OnWritable(w, result);
      } else if reason == Established {
        NotifyWriteable(w);
      }
    }

    /** The library's side of a callback. */
    method LibraryCalls(w: Wsi, reason: Reason, result: WriteResult)
      requires ValidState(Now()) && w in alive && (reason == Writeable ==> w in pending)
      modifies this
      ensures Now() == AfterCallback(old(Now()), w, reason, result)
    {
      if reason == Writeable {
        pending := pending - {w};
      } else if reason == Established {
        established := established + {w};
      }
      var ret := InnerCallback(w, reason, result);
      if ret == -1 || reason == Gone {
        alive := alive - {w};
      }
    }

    method Request(w: Wsi)
      modifies this`pending
      ensures Now() == AfterRequest(old(Now()), w)
    {
      if w in table && !table[w].closed {
        pending := pending + {w};
      }
    }

    method CheckWriteable()
      modifies this
      ensures Now() == AfterRound(old(Now()))
    {
      ghost var before := Now();
      var rest := writeableSet;
      while rest != {}
        invariant PartRequested(before, Now(), rest)
        decreases |rest|
      {
        var w :| w in rest;
        ghost var was := Now();
        Request(w);
        OneMoreRequest(before, was, Now(), rest, w);
        rest := rest - {w};
      }
      AllAreRequested(before, Now());
      writeableSet := {};
    }

    method CloseAll(known: set<Wsi>)
      modifies this
      ensures Now() == AfterCloseAll(old(Now()), known)
    {
      ghost var before := Now();
      var rest := table.Keys;
      while rest != {}
        invariant PartClosed(before, Now(), known, rest)
        decreases |rest|
      {
        var w :| w in rest;
        ghost var was := Now();
        CloseSession(w, w in known);
        OneMoreClosed(before, was, Now(), known, rest, w);
        rest := rest - {w};
      }
      AllAreClosed(before, Now(), known);
    }

    /** What close_all does to one entry. */
    method CloseSession(w: Wsi, known: bool)
      requires w in table
      modifies this
      ensures Now() == ClosedOne(old(Now()), w, known)
    {
      var obj := table[w];
      if obj.closed {
        table := table - {w};
      } else if !obj.closing {
        SetFlags(w, true, false);
        if known {
          Close(w);
        }
      }
    }

    method Stop(known: set<Wsi>)
      modifies this
      ensures Now() == AfterStop(old(Now()), known)
    {
      if running {
        CloseAll(known);
      }
      running, table := false, map[];
      pending, alive, established := {}, {}, {};
    }

    /** One event, when it is possible. */
    method Handle(e: Event)
      requires ValidState(Now())
      modifies this
      ensures Now() == Stepped(old(Now()), e)
    {
      match e {
        case Started(protocols, created, begun) => var ret := Start(protocols, created, begun);
        case Connected(w) => if w !in alive { Connect(w); }
        case Wrote(w, data) => Write(w, data);
        case FlaggedClosing(w) => if w in table { SetFlags(w, true, table[w].closed); }
        case FlaggedClosed(w) => if w in table { SetFlags(w, table[w].closing, true); }
        case Closed(w) => Close(w);
        case Callback(w, reason, result) =>
          if w in alive && (reason == Writeable ==> w in pending) { LibraryCalls(w, reason, result); }
        case Round => CheckWriteable();
        case AllClosed(known) => CloseAll(known);
        case Stopped(known) => Stop(known);
        case Forgotten(w) => if w !in established { pending := pending - {w}; }
      }
    }
  }

  function AfterRequest(s: State, w: Wsi): State {
    s.(pending := s.pending + if w in s.table && !s.table[w].closed then {w} else {})
  }

  /** The marked connections not in `rest` have had their requests. */
  ghost predicate PartRequested(before: State, now: State, rest: set<Wsi>) {
    rest <= before.writeableSet && now == before.(pending := before.pending + Requests(before, rest))
  }

  lemma OneMoreRequest(before: State, was: State, now: State, rest: set<Wsi>, w: Wsi)
    requires PartRequested(before, was, rest) && w in rest && now == AfterRequest(was, w)
    ensures PartRequested(before, now, rest - {w})
  {
    assert Requests(before, rest - {w}) ==
           Requests(before, rest) + if w in before.table && !before.table[w].closed then {w} else {};
  }

  lemma AllAreRequested(before: State, now: State)
    requires PartRequested(before, now, {})
    ensures now.(writeableSet := {}) == AfterRound(before)
  {
  }

  /** What close_all does to the entry of `w`. */
  function ClosedOne(s: State, w: Wsi, known: bool): State
    requires w in s.table
  {
    var obj := s.table[w];
    if obj.closed then s.(table := s.table - {w})
    else if obj.closing then s
    else
      var t := WithFlags(s, w, true, false);
      if known then AfterClose(t, w) else t
  }

  /** The entries in `rest` are as before; of the others the closed ones are gone, the rest closing. */
  ghost predicate PartClosed(before: State, now: State, known: set<Wsi>, rest: set<Wsi>) {
    && rest <= before.table.Keys
    && now == before.(table := now.table, writeableSet := now.writeableSet)
    && (forall w :: w in now.table <==> w in before.table && (w in rest || !before.table[w].closed))
    && (forall w :: w in now.table ==>
          now.table[w] == if w in rest then before.table[w] else before.table[w].(closing := true))
    && now.writeableSet == before.writeableSet + NewlyMarked(before, known, rest)
  }

  function NewlyMarked(s: State, known: set<Wsi>, rest: set<Wsi>): set<Wsi> {
    if !s.running then {}
    else set w | w in s.table && w !in rest && !s.table[w].closed && !s.table[w].closing && w in known
  }

  lemma OneMoreClosed(before: State, was: State, now: State, known: set<Wsi>, rest: set<Wsi>, w: Wsi)
    requires PartClosed(before, was, known, rest) && w in rest && w in was.table
    requires now == ClosedOne(was, w, w in known)
    ensures PartClosed(before, now, known, rest - {w})
  {
    var obj := before.table[w];
    assert was.table[w] == obj;
    assert NewlyMarked(before, known, rest - {w}) ==
           NewlyMarked(before, known, rest) + if before.running && !obj.closed && !obj.closing && w in known then {w} else {};
  }

  lemma AllAreClosed(before: State, now: State, known: set<Wsi>)
    requires PartClosed(before, now, known, {})
    ensures now == AfterCloseAll(before, known)
  {
    assert now.table == AfterCloseAll(before, known).table;
  }

  /** The service, driven by the events, stands where RunTo says. */
  method Run(events: seq<Event>) returns (final: State)
    ensures final == RunTo(events, |events|)
  {
    var service := new LuaLwsService();
    for n := 0 to |events|
      invariant fresh(service) && service.Now() == RunTo(events, n)
    {
      service.Handle(events[n]);
    }
    final := service.Now();
  }
}
