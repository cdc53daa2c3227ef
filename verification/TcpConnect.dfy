/** TcpConnectState of src/network/tcp_state_machine.cpp: trying a list of endpoints one after another
    under a total and a per-endpoint time limit. */
module TcpConnect {
  import opened Machine

  type Endpoint = nat

  const CHECK_PERIOD := 200
  const ENDPOINT_TIMEOUT := 10000

  datatype Error = TimedOut | Other(code: int)

  datatype Outcome =
    | Connected(index: nat, endpoint: Endpoint)
    | ConnectFail(error: Error)
    | HandshakeFail(index: nat, error: Error)
    | Timeout

  /** One call of done(), with the attempts made and the time that has passed by then. */
  datatype Report = Report(outcome: Outcome, tried: nat, spent: nat)

  /** The input event: endpoints, the index to start from, the total limit and whether to use TLS. */
  datatype Config = Config(endpoints: seq<Endpoint>, start: int, timeout: int, tls: bool)

  /** `attempts` lists the indexes given to async_connect and `handshakes` the number of attempts made
      when each TLS handshake started; `pending` and `shaking` are those not yet completed.  `orphans`
      counts the timers another execute has replaced while they were running. */
  datatype State = State(index: nat, tried: nat, spent: nat, endpointSpent: nat, timer: bool, orphans: nat, connected: bool,
                         attempts: seq<nat>, pending: set<nat>, handshakes: seq<nat>, shaking: set<nat>,
                         reports: seq<Report>)

  /** What the network, the TLS library and the timer may report, in any order; a completion that is
      not outstanding does not happen. */
  datatype Event = Complete(attempt: nat, error: Option<Error>) | Shook(handshake: nat, error: Option<Error>) | Tick

  // ----- the intended schedule --------------------------------------------------------------------

  /** The index the first attempt uses. */
  function First(start: int, n: nat): nat {
    if 0 <= start < n then start else 0
  }

  /** The index attempt `i`, counted from 0, carries. */
  function IndexOfAttempt(first: nat, n: nat, i: nat): nat
    requires n > 0
  {
    first + Min(i, n - 1)
  }

  /** The first n attempts visit every endpoint exactly once, in cyclic order. */
  lemma EveryEndpointOnce(first: nat, n: nat, e: nat) returns (i: nat)
    requires first < n && e < n
    ensures i < n && IndexOfAttempt(first, n, i) % n == e
    ensures forall j: nat :: j < n && IndexOfAttempt(first, n, j) % n == e ==> j == i
  {
    i := if e >= first then e - first else e + n - first;
    Wraps(first + i, n);
    forall j: nat | j < n && IndexOfAttempt(first, n, j) % n == e ensures j == i {
      Wraps(first + j, n);
    }
  }

  lemma Wraps(x: nat, n: nat)
    requires n > 0 && x < 2 * n
    ensures x % n == if x < n then x else x - n
  {
    if x >= n {
      assert x == 1 * n + (x - n);
    }
  }

  /** A completion is told from the current attempt by its index alone.  After `tried` attempts the
      completion of attempt `i` passes that test exactly when it is the last one, or when both belong to
      the attempts that re-use the last index: an older attempt is mistaken for the current one exactly
      when i >= n - 1 and more than n attempts were made. */
  lemma CurrentExactly(first: nat, n: nat, i: nat, tried: nat)
    requires n > 0 && i < tried
    ensures IndexOfAttempt(first, n, i) == IndexOfAttempt(first, n, tried - 1) <==> i == tried - 1 || i >= n - 1
    ensures i < tried - 1 && i >= n - 1 ==> tried > n
  {
  }

  /** A handshake, too, is reported for its own endpoint exactly when no endpoint was tried since. */
  lemma SameEndpointExactly(first: nat, n: nat, i: nat, tried: nat)
    requires first < n && i < tried
    ensures IndexOfAttempt(first, n, i) % n == IndexOfAttempt(first, n, tried - 1) % n <==> i == tried - 1 || i >= n - 1
  {
    Wraps(IndexOfAttempt(first, n, i), n);
    Wraps(IndexOfAttempt(first, n, tried - 1), n);
  }

  // ----- the steps, as functions ------------------------------------------------------------------

  const INITIAL := State(0, 0, 0, 0, false, 0, false, [], {}, [], {}, [])

  function Attempted(s: State, index: nat): State {
    s.(index := index, tried := s.tried + 1, attempts := s.attempts + [index], pending := s.pending + {|s.attempts|})
  }

  function Reported(s: State, outcome: Outcome): State {
    s.(reports := s.reports + [Report(outcome, s.tried, s.spent)])
  }

  /** execute() with at least one endpoint.  It sets no counter back: only a start index in range
        replaces the current one. */
  function Executed(c: Config, s: State): State {
    Attempted(s, if 0 <= c.start < |c.endpoints| then c.start else s.index)
    .(timer := true, orphans := s.orphans + if s.timer then 1 else 0)
  }

  function Begun(c: Config): State {
    Executed(c, INITIAL)
  }

  function Succeeded(c: Config, s: State): State
    requires c.endpoints != []
  {
    var at := s.index % |c.endpoints|;
    Reported(s.(connected := true, timer := false), Connected(at, c.endpoints[at]))
  }

  /** handle_connect: a completion with an old index changes nothing; a failure moves on while endpoints
      remain, and then only a timeout reconnects and anything else ends; a TLS connection goes on to the
      handshake. */
  function ConnectDone(c: Config, s: State, error: Option<Error>, completed: nat): State
    requires c.endpoints != []
  {
    if completed != s.index then s
    else if error.Some? then
      if s.tried >= |c.endpoints| && error.value != TimedOut then Reported(s, ConnectFail(error.value))
      else Attempted(s.(endpointSpent := 0), if s.tried < |c.endpoints| then s.index + 1 else s.index)
    else if c.tls then s.(shaking := s.shaking + {|s.handshakes|}, handshakes := s.handshakes + [s.tried])
    else Succeeded(c, s)
  }

  /** handle_period_timeout. */
  function PeriodOver(c: Config, s: State): State
    requires c.endpoints != []
  {
    var t := s.(spent := s.spent + CHECK_PERIOD, endpointSpent := s.endpointSpent + CHECK_PERIOD);
    if t.spent >= c.timeout then Reported(t.(timer := false), Timeout)
    else if t.endpointSpent >= ENDPOINT_TIMEOUT then ConnectDone(c, t, Some(TimedOut), t.index)
    else t
  }

  /** handle_handshake carries no index: whichever attempt the handshake belonged to, the outcome is
      reported for the endpoint tried last. */
  function HandshakeDone(c: Config, s: State, error: Option<Error>): State
    requires c.endpoints != []
  {
    if error.Some? then Reported(s, HandshakeFail(s.index % |c.endpoints|, error.value)) else Succeeded(c, s)
  }

  function Stepped(c: Config, s: State, e: Event): State
    requires c.endpoints != [] && Valid(c, s)
  {
    match e
    case Complete(i, error) => if i in s.pending then ConnectDone(c, s.(pending := s.pending - {i}), error, s.attempts[i]) else s
    case Shook(h, error) => if h in s.shaking then HandshakeDone(c, s.(shaking := s.shaking - {h}), error) else s
    case Tick => if s.timer then PeriodOver(c, s) else s
  }

  function RunTo(c: Config, events: seq<Event>, n: nat): (s: State)
    requires c.endpoints != [] && n <= |events|
    ensures Valid(c, s)
  {
    if n == 0 then
      BegunValid(c);
      Begun(c)
    else
      var s := RunTo(c, events, n - 1);
      SteppedValid(c, s, events[n - 1]);
      Stepped(c, s, events[n - 1])
  }

  // ----- what every run keeps ---------------------------------------------------------------------

  /** A report says what the schedule allows after `r.tried` attempts. */
  predicate Sound(c: Config, attempts: seq<nat>, r: Report) {
    && 0 < r.tried <= |attempts| && c.endpoints != []
    && var at := attempts[r.tried - 1] % |c.endpoints|;
       match r.outcome
       case Connected(i, e) => i == at && e == c.endpoints[at]
       case ConnectFail(err) => err != TimedOut && r.tried >= |c.endpoints|
       case HandshakeFail(i, _) => c.tls && i == at
       case Timeout => r.spent >= c.timeout
  }

  /** Attempts follow the schedule, every report is one it allows, and the timer runs while the total
      limit has not passed, or something has been reported. */
  ghost predicate Valid(c: Config, s: State) {
    && c.endpoints != [] && s.tried == |s.attempts| > 0
    && (forall i :: 0 <= i < |s.attempts| ==> s.attempts[i] == IndexOfAttempt(First(c.start, |c.endpoints|), |c.endpoints|, i))
    && s.index == s.attempts[|s.attempts| - 1]
    && (forall i :: i in s.pending ==> i < |s.attempts|)
    && (forall h :: h in s.shaking ==> c.tls && h < |s.handshakes|)
    && (forall h :: 0 <= h < |s.handshakes| ==> 0 < s.handshakes[h] <= s.tried)
    && (forall r :: r in s.reports ==> Sound(c, s.attempts, r))
    && (s.timer && s.spent > 0 ==> s.spent < c.timeout) && (s.timer || s.reports != [])
  }

  lemma BegunValid(c: Config)
    requires c.endpoints != []
    ensures Valid(c, Begun(c))
  {
  }

  lemma AttemptValid(c: Config, s: State)
    requires Valid(c, s)
    ensures Valid(c, Attempted(s.(endpointSpent := 0), if s.tried < |c.endpoints| then s.index + 1 else s.index))
  {
    forall r | r in s.reports ensures Sound(c, s.attempts + [s.index], r) && Sound(c, s.attempts + [s.index + 1], r) {
      assert Sound(c, s.attempts, r);
    }
  }

  lemma ReportValid(c: Config, s: State, outcome: Outcome)
    requires Valid(c, s) && Sound(c, s.attempts, Report(outcome, s.tried, s.spent))
    ensures Valid(c, Reported(s, outcome)) && Valid(c, Reported(s.(timer := false), outcome))
    ensures Valid(c, Reported(s.(connected := true, timer := false), outcome))
  {
  }

  lemma ConnectDoneValid(c: Config, s: State, error: Option<Error>, completed: nat)
    requires Valid(c, s)
    ensures Valid(c, ConnectDone(c, s, error, completed))
  {
    if completed == s.index {
      if error.None? {
        if !c.tls {
          var at := s.index % |c.endpoints|;
          ReportValid(c, s, Connected(at, c.endpoints[at]));
        }
      } else if s.tried >= |c.endpoints| && error.value != TimedOut {
        ReportValid(c, s, ConnectFail(error.value));
      } else {
        AttemptValid(c, s);
      }
    }
  }

  lemma TimeoutValid(c: Config, t: State)
    requires Valid(c, t.(spent := 0)) && t.spent >= c.timeout
    ensures Valid(c, Reported(t.(timer := false), Timeout))
  {
  }

  lemma LaterValid(c: Config, s: State)
    requires Valid(c, s)
    ensures var t := s.(spent := s.spent + CHECK_PERIOD, endpointSpent := s.endpointSpent + CHECK_PERIOD);
            Valid(c, t.(spent := 0)) && (t.spent < c.timeout ==> Valid(c, t))
  {
  }

  lemma PeriodOverValid(c: Config, s: State)
    requires Valid(c, s) && s.timer
    ensures Valid(c, PeriodOver(c, s))
  {
    var t := s.(spent := s.spent + CHECK_PERIOD, endpointSpent := s.endpointSpent + CHECK_PERIOD);
    LaterValid(c, s);
    if t.spent >= c.timeout {
      TimeoutValid(c, t);
    } else if t.endpointSpent >= ENDPOINT_TIMEOUT {
      ConnectDoneValid(c, t, Some(TimedOut), t.index);
    }
  }

  lemma SteppedValid(c: Config, s: State, e: Event)
    requires Valid(c, s)
    ensures Valid(c, Stepped(c, s, e))
  {
    match e
    case Complete(i, error) =>
      if i in s.pending {
        ConnectDoneValid(c, s.(pending := s.pending - {i}), error, s.attempts[i]);
      }
    case Shook(h, error) =>
      if h in s.shaking {
        var t, at := s.(shaking := s.shaking - {h}), s.index % |c.endpoints|;
        if error.Some? {
          ReportValid(c, t, HandshakeFail(at, error.value));
        } else {
          ReportValid(c, t, Connected(at, c.endpoints[at]));
        }
      }
    case Tick =>
      if s.timer {
        PeriodOverValid(c, s);
      }
  }

  function Ticks(events: seq<Event>, n: nat): nat
    requires n <= |events|
  {
    if n == 0 then 0 else Ticks(events, n - 1) + if events[n - 1].Tick? then 1 else 0
  }

  lemma StepTimes(c: Config, s: State, e: Event)
    requires Valid(c, s)
    ensures var t := Stepped(c, s, e); t.timer ==> s.timer && t.spent == s.spent + if e.Tick? then CHECK_PERIOD else 0
  {
  }

  lemma StepReports(c: Config, s: State, e: Event)
    requires Valid(c, s)
    ensures var t := Stepped(c, s, e);
            || t.reports == s.reports
            || (|t.reports| == |s.reports| + 1 && t.reports[..|s.reports|] == s.reports
                && t.attempts == s.attempts && t.reports[|s.reports|].tried == |s.attempts|)
  {
  }

  /** While the timer runs it has counted every tick. */
  lemma {:induction false} TimerCounts(c: Config, events: seq<Event>, n: nat)
    requires c.endpoints != [] && n <= |events|
    ensures var s := RunTo(c, events, n); s.timer ==> s.spent == Ticks(events, n) * CHECK_PERIOD
  {
    if n > 0 {
      TimerCounts(c, events, n - 1);
      StepTimes(c, RunTo(c, events, n - 1), events[n - 1]);
    }
  }

  /** Any run: attempt i targets the endpoint i places after the start, cyclically, and from the last one
      on the same again; every report is one the schedule allows; and once the timer has ticked for the
      total limit something has been reported. */
  lemma RunSafe(c: Config, events: seq<Event>, n: nat)
    requires c.endpoints != [] && n <= |events|
    ensures var s := RunTo(c, events, n);
            && (forall i :: 0 <= i < |s.attempts| ==>
                  s.attempts[i] == IndexOfAttempt(First(c.start, |c.endpoints|), |c.endpoints|, i))
            && s.attempts[0] == (if 0 <= c.start < |c.endpoints| then c.start else 0)
            && (forall r :: r in s.reports ==> Sound(c, s.attempts, r))
            && (forall h :: h in s.shaking ==> 0 < s.handshakes[h] <= s.tried)
            && (Ticks(events, n) > 0 && Ticks(events, n) * CHECK_PERIOD >= c.timeout ==> s.reports != [])
  {
    TimerCounts(c, events, n);
  }

  /** What a report says it says of its own moment: the event that adds it starts no attempt, and the
      number of attempts in it is the number made so far. */
  lemma ReportedAtOnce(c: Config, events: seq<Event>, n: nat)
    requires c.endpoints != [] && n < |events|
    ensures var s, t := RunTo(c, events, n), RunTo(c, events, n + 1);
            || t.reports == s.reports
            || (|t.reports| == |s.reports| + 1 && t.reports[..|s.reports|] == s.reports
                && t.attempts == s.attempts && t.reports[|s.reports|].tried == |s.attempts|)
  {
    StepReports(c, RunTo(c, events, n), events[n]);
  }

  /** What a completion does, case by case.  It is ignored unless its attempt passes for the current one;
      then a connection is reported, or with TLS its handshake begins, and an error starts the next attempt
      at once, on the same endpoint again after the last, unless it ends the state. */
  lemma CompletionExactly(c: Config, s: State, i: nat, error: Option<Error>)
    requires Valid(c, s) && i in s.pending
    ensures var t, n, at := Stepped(c, s, Complete(i, error)), |c.endpoints|, s.attempts[i] % |c.endpoints|;
            if i < s.tried - 1 && i < n - 1 then t == s.(pending := s.pending - {i})
            else if error == None && !c.tls then
              && t.reports == s.reports + [Report(Connected(at, c.endpoints[at]), s.tried, s.spent)]
              && t.connected && !t.timer && t.attempts == s.attempts && t.handshakes == s.handshakes
            else if error == None then
              && t.handshakes == s.handshakes + [s.tried] && t.shaking == s.shaking + {|s.handshakes|}
              && t.reports == s.reports && t.attempts == s.attempts && t.timer == s.timer && t.connected == s.connected
            else if s.tried < n || error == Some(TimedOut) then
              && t.attempts == s.attempts + [s.attempts[s.tried - 1] + if s.tried < n then 1 else 0]
              && t.pending == s.pending - {i} + {s.tried} && t.endpointSpent == 0
              && t.reports == s.reports && t.timer == s.timer && t.connected == s.connected
            else
              && t.reports == s.reports + [Report(ConnectFail(error.value), s.tried, s.spent)]
              && t.attempts == s.attempts && t.timer == s.timer && t.connected == s.connected
  {
    CurrentExactly(First(c.start, |c.endpoints|), |c.endpoints|, i, s.tried);
  }

  /** A tick that reaches the total limit reports it, whatever else is under way, and stops the timer. */
  lemma LimitExactly(c: Config, s: State)
    requires Valid(c, s) && s.timer
    ensures var t := Stepped(c, s, Tick);
            if s.spent + 200 >= c.timeout then
              t.reports == s.reports + [Report(Timeout, s.tried, s.spent + 200)] && !t.timer && t.attempts == s.attempts
            else t.reports == s.reports && t.timer && t.spent == s.spent + 200
                 && |t.attempts| == |s.attempts| + if s.endpointSpent + 200 >= 10000 then 1 else 0
  {
  }

  /** A completion ends the state as a failure exactly when its attempt passes for the current one, all
      endpoints were tried and the error is no timeout. */
  lemma FailureExactly(c: Config, s: State, i: nat, error: Error)
    requires Valid(c, s) && i in s.pending
    ensures Stepped(c, s, Complete(i, Some(error))).reports != s.reports <==>
              (i == s.tried - 1 || i >= |c.endpoints| - 1) && s.tried >= |c.endpoints| && error != TimedOut
  {
    CurrentExactly(First(c.start, |c.endpoints|), |c.endpoints|, i, s.tried);
  }

  /** A state executed again when it has already tried as many endpoints as there are fails on the first
      completion that is an error other than a timeout, whatever endpoints remain; a new state does so
      exactly when there is one endpoint. */
  lemma ExecutedAgain(c: Config, s: State, error: Error)
    requires c.endpoints != [] && error != TimedOut
    ensures var t := Executed(c, s);
            ConnectDone(c, t, Some(error), t.index).reports != t.reports <==> s.tried + 1 >= |c.endpoints|
  {
    var t := Executed(c, s);
    assert Reported(t, ConnectFail(error)).reports != t.reports;
  }

  /** The endpoint handshake `h` was made with: that of the attempt it belongs to. */
  function ShakenEndpoint(c: Config, s: State, h: nat): nat
    requires Valid(c, s) && h < |s.handshakes|
  {
    s.attempts[s.handshakes[h] - 1] % |c.endpoints|
  }

  /** A handshake that completes ends the state, however many endpoints remain and whichever attempt it
      belongs to.  Failed or not, it is reported for its own endpoint exactly when no endpoint was tried
      since it began, or when it belongs to the attempts that re-use the last index. */
  lemma HandshakeExactly(c: Config, s: State, h: nat, error: Option<Error>)
    requires Valid(c, s) && h in s.shaking
    ensures var t := Stepped(c, s, Shook(h, error));
            |t.reports| == |s.reports| + 1 && t.reports[..|s.reports|] == s.reports
            && t.attempts == s.attempts && t.pending == s.pending && t.shaking == s.shaking - {h}
            && var outcome, own := t.reports[|s.reports|].outcome, ShakenEndpoint(c, s, h);
               var ownOne := s.handshakes[h] == s.tried || s.handshakes[h] >= |c.endpoints|;
               if error.Some? then outcome == HandshakeFail(own, error.value) <==> ownOne
               else t.connected && !t.timer && (outcome == Connected(own, c.endpoints[own]) <==> ownOne)
  {
    SameEndpointExactly(First(c.start, |c.endpoints|), |c.endpoints|, s.handshakes[h] - 1, s.tried);
    var t := Stepped(c, s, Shook(h, error));
    assert t.reports[..|s.reports|] == s.reports;
  }

  /** So it is at every moment of every run: whatever happened before, the next completion of a
      handshake is judged by the attempt the handshake recorded when it began. */
  lemma RunHandshakes(c: Config, events: seq<Event>, n: nat, h: nat, error: Option<Error>)
    requires c.endpoints != [] && n < |events| && events[n] == Shook(h, error) && h in RunTo(c, events, n).shaking
    ensures var s, t := RunTo(c, events, n), RunTo(c, events, n + 1);
            && 0 < s.handshakes[h] <= s.tried && |t.reports| == |s.reports| + 1
            && var outcome, own := t.reports[|s.reports|].outcome, ShakenEndpoint(c, s, h);
               outcome == (if error.Some? then HandshakeFail(own, error.value) else Connected(own, c.endpoints[own]))
               <==> s.handshakes[h] == s.tried || s.handshakes[h] >= |c.endpoints|
  {
    HandshakeExactly(c, RunTo(c, events, n), h, error);
  }

  /** A tick within the total limit counts, and at the endpoint limit starts another attempt. */
  lemma OneTick(c: Config, s: State)
    requires Valid(c, s) && s.timer && s.spent + CHECK_PERIOD < c.timeout
    ensures var t := s.(spent := s.spent + CHECK_PERIOD);
            Stepped(c, s, Tick) ==
              if s.endpointSpent + CHECK_PERIOD < ENDPOINT_TIMEOUT then t.(endpointSpent := s.endpointSpent + CHECK_PERIOD)
              else Attempted(t.(endpointSpent := 0), if s.tried < |c.endpoints| then s.index + 1 else s.index)
  {
  }

  function Waits(n: nat): (events: seq<Event>)
    ensures |events| == n && forall i :: 0 <= i < n ==> events[i] == Tick
  {
    seq(n, _ => Tick)
  }

  // ----- an old handshake is blamed on the next endpoint ------------------------------------------

  /** Two endpoints with TLS: the first connects, its handshake runs into the endpoint limit and the
      second is tried. */
  lemma {:induction false} AfterConnectAndTicks(c: Config, events: seq<Event>, n: nat)
    requires |c.endpoints| == 2 && c.start == 0 && c.timeout == 30000 && c.tls && 1 <= n <= 51 <= |events|
    requires events[0] == Complete(0, None) && forall i :: 1 <= i < 51 ==> events[i] == Tick
    ensures var s := RunTo(c, events, n);
            && s.timer && !s.connected && s.spent == (n - 1) * CHECK_PERIOD && s.reports == [] && s.handshakes == [1] && s.shaking == {0}
            && (n < 51 ==> s.tried == 1 && s.index == 0 && s.endpointSpent == (n - 1) * CHECK_PERIOD && s.pending == {})
            && (n == 51 ==> s.tried == 2 && s.index == 1 && s.pending == {1})
  {
    if n == 1 {
      assert RunTo(c, events, 0) == Begun(c);
      assert Begun(c).pending - {0} == {};
      assert RunTo(c, events, 1) == Stepped(c, Begun(c), Complete(0, None));
    } else {
      AfterConnectAndTicks(c, events, n - 1);
      OneTick(c, RunTo(c, events, n - 1));
      assert RunTo(c, events, n) == Stepped(c, RunTo(c, events, n - 1), Tick);
    }
  }

  /** The abort of the first handshake ends the state as a failure of the second endpoint, whose attempt
      is still under way; had it completed in time, the second endpoint would be reported as connected. */
  lemma OldHandshakeEnds(a: Endpoint, b: Endpoint)
    ensures var c := Config([a, b], 0, 30000, true);
            var before := [Complete(0, None)] + Waits(50);
            var failed := RunTo(c, before + [Shook(0, Some(Other(1)))], 52);
            var shaken := RunTo(c, before + [Shook(0, None)], 52);
            && failed.reports == [Report(HandshakeFail(1, Other(1)), 2, 10000)] && failed.pending == {1}
            && shaken.reports == [Report(Connected(1, b), 2, 10000)] && shaken.pending == {1} && shaken.connected
  {
    EndsWith(Config([a, b], 0, 30000, true), Some(Other(1)));
    EndsWith(Config([a, b], 0, 30000, true), None);
  }

  lemma EndsWith(c: Config, error: Option<Error>)
    requires |c.endpoints| == 2 && c.start == 0 && c.timeout == 30000 && c.tls
    ensures var t := RunTo(c, [Complete(0, None)] + Waits(50) + [Shook(0, error)], 52);
            && t.pending == {1} && t.connected == error.None?
            && t.reports == [Report(if error.Some? then HandshakeFail(1, error.value) else Connected(1, c.endpoints[1]), 2, 10000)]
  {
    var events := [Complete(0, None)] + Waits(50) + [Shook(0, error)];
    AfterConnectAndTicks(c, events, 51);
    var s := RunTo(c, events, 51);
    assert events[51] == Shook(0, error) && RunTo(c, events, 52) == Stepped(c, s, events[51]);
    Wraps(1, 2);
  }

  // ----- an old abort ends the state --------------------------------------------------------------

  lemma {:induction false} AfterTicks(c: Config, events: seq<Event>, n: nat)
    requires |c.endpoints| == 1 && c.timeout == 20000 && n <= 50 <= |events|
    requires forall i :: 0 <= i < 50 ==> events[i] == Tick
    ensures var s := RunTo(c, events, n);
            && s.timer && s.spent == n * CHECK_PERIOD && s.reports == []
            && (n < 50 ==> s.tried == 1 && s.endpointSpent == n * CHECK_PERIOD && s.pending == {0})
            && (n == 50 ==> s.tried == 2 && s.pending == {0, 1})
  {
    if n == 0 {
      assert RunTo(c, events, 0) == Begun(c);
    } else {
      AfterTicks(c, events, n - 1);
      OneTick(c, RunTo(c, events, n - 1));
      assert RunTo(c, events, n) == Stepped(c, RunTo(c, events, n - 1), Tick);
    }
  }

  /** An input on which a stale completion does end the state: one endpoint, whose attempt runs into the
      endpoint limit, so that it is tried again; the first attempt is then aborted with its socket, and
      that abort is reported as the failure while the second attempt is still under way. */
  lemma StaleAbortEnds(endpoint: Endpoint)
    ensures var s := RunTo(Config([endpoint], 0, 20000, false), Waits(50) + [Complete(0, Some(Other(1)))], 51);
            s.reports == [Report(ConnectFail(Other(1)), 2, 10000)] && 1 in s.pending
  {
    var c, events := Config([endpoint], 0, 20000, false), Waits(50) + [Complete(0, Some(Other(1)))];
    AfterTicks(c, events, 50);
    assert RunTo(c, events, 51) == Stepped(c, RunTo(c, events, 50), events[50]);
  }

  // ----- the state, as an object ------------------------------------------------------------------

  class TcpConnectState {
    const config: Config
    var index: nat
    var total: nat
    var tried: nat
    var spent: nat
    var endpointSpent: nat
    var totalTimeout: int
    var timer: bool
    var orphans: nat
    var connected: bool
    var attempts: seq<nat>
    var pending: set<nat>
    var handshakes: seq<nat>
    var shaking: set<nat>
    var reports: seq<Report>

    function Now(): State
      reads this
    {
      State(index, tried, spent, endpointSpent, timer, orphans, connected, attempts, pending, handshakes, shaking, reports)
    }

    /** What execute() sets up for the handlers. */
    predicate Ready()
      reads this
    {
      total == |config.endpoints| > 0 && totalTimeout == config.timeout
    }

    constructor (config: Config)
      ensures Now() == INITIAL && this.config == config
    {
      this.config := config;
      index, total, tried, spent, endpointSpent := 0, 0, 0, 0, 0;
      totalTimeout, timer, orphans, connected := ENDPOINT_TIMEOUT, false, 0, false;
      attempts, handshakes, reports, pending, shaking := [], [], [], {}, {};
    }

    method AsyncConnect(index: nat)
      modifies this`attempts, this`pending
      ensures attempts == old(attempts) + [index] && pending == old(pending) + {|old(attempts)|}
    {
      pending := pending + {|attempts|};
      attempts := attempts + [index];
    }

    method Done(outcome: Outcome)
      modifies this`reports
      ensures Now() == Reported(old(Now()), outcome)
    {
      reports := reports + [Report(outcome, tried, spent)];
    }

    /** False for the error the state machine reports when there is no endpoint.  A timer that runs is
        replaced, not cancelled. */
    method Execute() returns (ok: bool)
      modifies this
      ensures ok <==> config.endpoints != []
      ensures if ok then Ready() && Now() == Executed(config, old(Now())) else Now() == old(Now())
    {
      if |config.endpoints| == 0 {
        return false;
      }
      total := |config.endpoints|;
      if config.start >= 0 && config.start < total {
        index := config.start;
      }
      Attempt();
      totalTimeout := config.timeout;
      StartTimer();
      ok := true;
    }

    /** async_connect to the endpoint `index` stands for, counted as an attempt. */
    method Attempt()
      modifies this`attempts, this`pending, this`tried
      ensures Now() == Attempted(old(Now()), index)
    {
      AsyncConnect(index);
      tried := tried + 1;
    }

    method StartTimer()
      modifies this`timer, this`orphans
      ensures Now() == old(Now()).(timer := true, orphans := old(orphans) + if old(timer) then 1 else 0)
    {
      if timer {
        orphans := orphans + 1;
      }
      timer := true;
    }

    method HandleConnect(error: Option<Error>, completed: nat)
      requires Ready()
      modifies this
      ensures Ready() && Now() == ConnectDone(config, old(Now()), error, completed)
    {
      if completed != index {
        return;
      }
      if error.Some? {
        if tried < total {
          index := index + 1;
        } else if error.value != TimedOut {
          Done(ConnectFail(error.value));
          return;
        }
        endpointSpent := 0;
        Attempt();
        return;
      }
      if config.tls {
        shaking := shaking + {|handshakes|};
        handshakes := handshakes + [tried];
        return;
      }
      Succeed();
    }

    /** Reports the endpoint tried last as connected. */
    method Succeed()
      requires Ready()
      modifies this
      ensures Ready() && Now() == Succeeded(config, old(Now()))
    {
      var at := index % total;
      connected := true;
      timer := false;
      Done(Connected(at, config.endpoints[at]));
    }

    method HandlePeriodTimeout()
      requires Ready()
      modifies this
      ensures Ready() && Now() == PeriodOver(config, old(Now()))
    {
      spent := spent + CHECK_PERIOD;
      endpointSpent := endpointSpent + CHECK_PERIOD;
      if spent >= totalTimeout {
        timer := false;
        Done(Timeout);
      } else if endpointSpent >= ENDPOINT_TIMEOUT {
        HandleConnect(Some(TimedOut), index);
      }
    }

    method HandleHandshake(error: Option<Error>)
      requires Ready()
      modifies this
      ensures Ready() && Now() == HandshakeDone(config, old(Now()), error)
    {
      if error.Some? {
        Done(HandshakeFail(index % total, error.value));
        return;
      }
      Succeed();
    }

    method Handle(e: Event)
      requires Ready() && Valid(config, Now())
      modifies this
      ensures Ready() && Now() == Stepped(config, old(Now()), e)
    {
      if e.Complete? {
        if e.attempt in pending {
          pending := pending - {e.attempt};
          HandleConnect(e.error, attempts[e.attempt]);
        }
      } else if e.Shook? {
        if e.handshake in shaking {
          shaking := shaking - {e.handshake};
          HandleHandshake(e.error);
        }
      } else if timer {
        HandlePeriodTimeout();
      }
    }
  }

  /** The state, driven by the events, stands where RunTo says; without an endpoint it does not start. */
  method Run(config: Config, events: seq<Event>) returns (ok: bool, final: State)
    ensures ok <==> config.endpoints != []
    ensures final == if ok then RunTo(config, events, |events|) else INITIAL
  {
    var state := new TcpConnectState(config);
    ok := state.Execute();
    if ok {
      for n := 0 to |events|
        invariant fresh(state) && state.Ready() && state.config == config && state.Now() == RunTo(config, events, n)
      {
        state.Handle(events[n]);
      }
    }
    final := state.Now();
  }
}
