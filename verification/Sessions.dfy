/** The session pool: src/state/simple_state_machine.cpp, src/session/bee_session.cpp,
    src/session/session_manager.cpp and the calls src/service/bee_entrance.cpp makes on them. */
module Sessions {
  import opened Machine

  // States; INVALID is the value the table is filled with, NO_STATE the one SwitchState tests for.
  const IDLE := 0
  const OPENING := 1
  const READY := 2
  const CLOSING := 3
  const STATES := 4
  const INVALID := 5
  const NO_STATE := -1

  // Inputs.
  const OPEN := 0
  const OPENED := 1
  const EXECUTE := 2
  const CLOSE := 3
  const CLOSED := 4
  const INPUTS := 5

  const DEFAULT_COUNT := 16

  datatype Code = Success | InvalidState | InvalidParam | NullPointer | NotFound
    | NotSupported | NotRegistered | NotOpened | Insufficient | InvalidSession | EngineError(n: int)

  /** A registered service: the code it serves and the client object behind it. */
  datatype Service = Service(code: int, client: nat)

  // ----- the transition table -------------------------------------------------------------------

  function Next(s: int, e: int): int {
    if s == IDLE && e == OPEN then OPENING
    else if s == OPENING && e == OPENED then READY
    else if s == OPENING && e == CLOSE then CLOSING
    else if s == READY && e == EXECUTE then READY
    else if s == READY && e == CLOSE then CLOSING
    else if s == CLOSING && e == CLOSED then IDLE
    else INVALID
  }

  function Transitions(): (t: seq<seq<int>>)
    ensures |t| == STATES
    ensures forall s :: 0 <= s < STATES ==> |t[s]| == INPUTS && forall e :: 0 <= e < INPUTS ==> t[s][e] == Next(s, e)
  {
    seq(STATES, s => seq(INPUTS, e => Next(s, e)))
  }

  /** The state after `inputs`; -2 once a switch is made from the sentinel, which has no table row. */
  function After(s: int, inputs: seq<int>): int
    decreases |inputs|
  {
    if inputs == [] then s
    else if 0 <= s < STATES then After(Next(s, inputs[0]), inputs[1..])
    else -2
  }

  function Count(inputs: seq<int>, e: int): nat {
    if inputs == [] then 0 else (if inputs[0] == e then 1 else 0) + Count(inputs[1..], e)
  }

  /** How many openings, and how many closings, are under way in a state. */
  function Opens(s: int): int { if s == IDLE then 0 else 1 }
  function Closes(s: int): int { if s == CLOSING then 1 else 0 }

  /** While a machine stays inside its table, openings and closings balance: whatever the run, a state
      other than Idle has exactly one OPEN not yet matched by CLOSED, and only Closing has a CLOSE
      waiting for its CLOSED. */
  lemma {:induction false} InsideRunsBalance(s: int, inputs: seq<int>)
    requires 0 <= s < STATES && 0 <= After(s, inputs) < STATES
    ensures Opens(s) + Count(inputs, OPEN) - Count(inputs, CLOSED) == Opens(After(s, inputs))
    ensures Closes(s) + Count(inputs, CLOSE) - Count(inputs, CLOSED) == Closes(After(s, inputs))
    decreases |inputs|
  {
    if inputs != [] {
      var t := Next(s, inputs[0]);
      LeavingIsForEver(t, inputs[1..]);
      InsideRunsBalance(t, inputs[1..]);
    }
  }

  /** Nothing comes back from the sentinel. */
  lemma {:induction false} LeavingIsForEver(s: int, inputs: seq<int>)
    requires 0 <= After(s, inputs) < STATES
    ensures 0 <= s < STATES
    decreases |inputs|
  {
    if inputs != [] {
      LeavingIsForEver(Next(s, inputs[0]), inputs[1..]);
    }
  }

  lemma AfterOne(s: int, e: int)
    ensures After(s, [e]) == if 0 <= s < STATES then Next(s, e) else -2
  {
    assert [e][1..] == [];
  }

  /** What close() does to the state, CLOSE then CLOSED, is inside the table exactly from Opening and
      Ready.  From Idle or Closing the first switch reports success and moves to the sentinel. */
  lemma CloseInsideExactly(s: int)
    requires 0 <= s < STATES
    ensures After(s, [CLOSE, CLOSED]) == IDLE <==> s == OPENING || s == READY
    ensures s == IDLE || s == CLOSING ==> After(s, [CLOSE]) == INVALID && After(s, [CLOSE, CLOSED]) == -2
  {
    assert [CLOSE, CLOSED][1..] == [CLOSED];
    AfterOne(s, CLOSE);
    AfterOne(Next(s, CLOSE), CLOSED);
  }

  method CodesOf(caps: seq<int>) returns (codes: set<int>)
    ensures codes == set c | c in caps
  {
    codes := {};
    for i := 0 to |caps|
      invariant codes == set c | c in caps[..i]
    {
      codes := codes + {caps[i]};
    }
    assert caps[..|caps|] == caps;
  }

  // ----- one session ----------------------------------------------------------------------------

  /** The fields of a session that its manager and its clients depend on. */
  datatype View = View(current: int, engine: bool, services: map<int, Service>, capabilities: set<int>)

  /** A session between two calls of its manager. */
  predicate Sound(v: View) {
    && v.services.Keys <= v.capabilities
    && (forall c :: c in v.services ==> v.services[c].code == c)
    && ((v.current == IDLE && v.capabilities == {}) || (v.current == READY && v.engine))
  }

  const NEW := View(IDLE, false, map[], {})

  /** How open and close end: with a code, or by looking up a transition of the sentinel, behind the
      rows of the table. */
  datatype Ending = Returns(code: Code) | OffTable

  /** BeeSession with its base class SimpleStateMachine. */
  class BeeSession {
    const id: int
    var table: seq<seq<int>>
    var current: int
    var last: int
    var engine: bool                  // lua_engine_ is not null
    var ios: bool                     // ios_ is not null
    var liveId: string
    var services: map<int, Service>
    var capabilities: set<int>

    predicate TableBuilt()
      reads this
    {
      table == Transitions()
    }

    function Now(): View
      reads this
    {
      View(current, engine, services, capabilities)
    }

    predicate Valid()
      reads this
    {
      TableBuilt() && Sound(Now())
    }

    constructor (id: int)
      ensures this.id == id && current == last == IDLE && !engine && !ios && liveId == ""
      ensures services == map[] && capabilities == {}
      ensures |table| == STATES && forall s :: 0 <= s < STATES ==> |table[s]| == INPUTS
    {
      this.id := id;
      current, last, engine, ios, liveId := IDLE, IDLE, false, false, "";
      services, capabilities := map[], {};
      table := seq(STATES, _ => seq(INPUTS, _ => 0));
    }

    method InitStateMachine()
      requires |table| == STATES && forall s :: 0 <= s < STATES ==> |table[s]| == INPUTS
      modifies this`table
      ensures TableBuilt()
    {
      for i := 0 to STATES
        invariant |table| == STATES && forall s :: 0 <= s < STATES ==> |table[s]| == INPUTS
        invariant forall s, e :: 0 <= s < i && 0 <= e < INPUTS ==> table[s][e] == INVALID
      {
        for j := 0 to INPUTS
          invariant |table| == STATES && forall s :: 0 <= s < STATES ==> |table[s]| == INPUTS
          invariant forall s, e :: 0 <= s < i && 0 <= e < INPUTS ==> table[s][e] == INVALID
          invariant forall e :: 0 <= e < j ==> table[i][e] == INVALID
        {
          Put(i, j, INVALID);
        }
      }
      Put(IDLE, OPEN, OPENING);
      Put(OPENING, OPENED, READY);
      Put(OPENING, CLOSE, CLOSING);
      Put(READY, EXECUTE, READY);
      Put(READY, CLOSE, CLOSING);
      Put(CLOSING, CLOSED, IDLE);
      assert forall s :: 0 <= s < STATES ==> table[s] == Transitions()[s];
    }

    method Put(s: int, e: int, t: int)
      requires 0 <= s < |table| && 0 <= e < |table[s]|
      modifies this`table
      ensures table == old(table)[s := old(table)[s][e := t]]
    {
      table := table[s := table[s][e := t]];
    }

    /** Needs a current state with a table row.  Refuses nothing but an input number out of range: the
        table holds INVALID, never NO_STATE, where a transition is undefined. */
    method SwitchState(ev: int) returns (ok: bool)
      requires TableBuilt() && 0 <= current < STATES
      modifies this`current, this`last
      ensures ok <==> 0 <= ev < INPUTS
      ensures ok ==> current == Next(old(current), ev) && last == old(current)
      ensures !ok ==> current == old(current) && last == old(last)
    {
      if ev < 0 || ev >= INPUTS {
        return false;
      }
      var next := table[current][ev];
      if next == NO_STATE {
        return false;
      }
      last := current;
      current := next;
      ok := true;
    }

    method ResetState()
      modifies this`current, this`last
      ensures current == last == IDLE
    {
      current, last := 0, 0;
    }

    /** `result` is what the engine's own open returns, `caps` what it reports.  The call runs off the
        table exactly when the engine opens in a session that was not Idle. */
    method Open(result: Code, live: string, caps: seq<int>) returns (end: Ending)
      requires TableBuilt() && 0 <= current < STATES
      modifies this
      ensures end.OffTable? <==> result == Success && old(current) != IDLE
      ensures end.Returns? ==> end.code == result
      ensures engine && liveId == live && table == old(table) && services == old(services)
      ensures end == Returns(Success) ==> current == READY && ios && capabilities == set c | c in caps
      ensures result != Success ==> current == last == IDLE && capabilities == old(capabilities)
    {
      var ret := Success;
      var switched := SwitchState(OPEN);
      if !switched {
        ret := InvalidState;
      } else {
        liveId := live;
        engine := true;
        ret := result;
        if ret == Success {
          if current >= STATES {
            return OffTable;
          }
          switched := SwitchState(OPENED);
          if !switched {
            ret := InvalidState;
          } else {
            ios := true;
            capabilities := CodesOf(caps);
          }
        }
      }
      if ret != Success {
        ResetState();
      }
      end := Returns(ret);
    }

    /** Runs off the table exactly from Idle and from Closing. */
    method Close() returns (end: Ending)
      requires TableBuilt() && 0 <= current < STATES
      modifies this
      ensures end.OffTable? <==> old(current) == IDLE || old(current) == CLOSING
      ensures end.Returns? ==> end.code == Success && current == IDLE && liveId == "" && services == map[] && capabilities == {}
      ensures !engine && !ios && table == old(table)
    {
      var switched := SwitchState(CLOSE);
      if !switched {
        return Returns(InvalidState);
      }
      ios := false;
      engine := false;
      if current >= STATES {
        return OffTable;
      }
      switched := SwitchState(CLOSED);
      liveId := "";
      services, capabilities := map[], {};
      end := Returns(Success);
    }

    /** `result` is what the engine's execute returns. */
    method Execute(svc: int, result: Code) returns (ret: Code)
      requires Valid()
      modifies this`current, this`last
      ensures Valid() && current == old(current)
      ensures ret == (if !engine then NotOpened else if svc !in services then NotRegistered else result)
    {
      if !engine {
        return NotOpened;
      }
      if svc !in services {
        return NotRegistered;
      }
      var switched := SwitchState(EXECUTE);
      if !switched {
        return InvalidState;
      }
      ret := result;
    }

    /** A second registration of a code keeps the first service. */
    method RegSvc(svc: Option<Service>) returns (ret: Code)
      requires Valid()
      modifies this`services
      ensures Valid()
      ensures ret == (if svc.None? then NullPointer else if svc.value.code < 0 then InvalidParam
                      else if svc.value.code !in capabilities then NotSupported else Success)
      ensures services == if ret == Success && svc.value.code !in old(services) then old(services)[svc.value.code := svc.value] else old(services)
    {
      if svc.None? {
        return NullPointer;
      }
      var s := svc.value;
      if s.code < 0 {
        return InvalidParam;
      }
      if s.code !in capabilities {
        return NotSupported;
      }
      if s.code !in services {
        services := services[s.code := s];
      }
      ret := Success;
    }

    /** Erases by code, whichever client the entry belongs to. */
    method UnregSvc(svc: Option<Service>) returns (ret: Code)
      requires Valid()
      modifies this`services
      ensures Valid()
      ensures ret == (if svc.None? || svc.value.code < 0 then InvalidParam else if svc.value.code !in old(services) then NotFound else Success)
      ensures services == if ret == Success then old(services) - {svc.value.code} else old(services)
    {
      if svc.None? || svc.value.code < 0 {
        return InvalidParam;
      }
      if svc.value.code !in services {
        return NotFound;
      }
      services := services - {svc.value.code};
      ret := Success;
    }
  }

  // ----- the pool as its clients see it -----------------------------------------------------------

  /** What an open session lends: the codes it supports and the services registered under them. */
  datatype Lease = Lease(caps: set<int>, services: map<int, Service>)

  /** `size` is 0 while the manager is not initialized. */
  datatype Pool = Pool(size: nat, open: map<int, Lease>)

  datatype Call =
    | Init(count: nat)
    | Uninit
    | OpenIdle(result: Code, live: string, caps: seq<int>)
    | CloseBusy(id: int)
    | Run(id: int, code: int, result: Code)
    | Register(id: int, svc: Service)
    | Unregister(id: int, svc: Service)

  datatype Reply = Done(ok: bool) | Opened(id: int, code: Code) | Returned(code: Code)

  const EMPTY := Pool(0, map[])

  /** The pool's meaning of one call: the reply `r` it may give and the pool `q` it leaves. */
  predicate Step(p: Pool, call: Call, r: Reply, q: Pool) {
    match call
    case Init(n) =>
      r == Done(true) && q == if p.size > 0 then p else Pool(if n == 0 then DEFAULT_COUNT else n, map[])
    case Uninit =>
      r == Done(true) && q == EMPTY
    case OpenIdle(result, _, caps) =>
      if |p.open| == p.size then r == Opened(-1, Insufficient) && q == p
      else if result != Success then r == Opened(-1, result) && q == p
      else
        && r.Opened? && r.code == Success && 0 <= r.id < p.size && r.id !in p.open
        && q == p.(open := p.open[r.id := Lease(set c | c in caps, map[])])
    case CloseBusy(id) =>
      r == Done(id in p.open) && q == p.(open := p.open - {id})
    case Run(id, svc, result) =>
      q == p && r == Returned(if id !in p.open then InvalidSession else if svc !in p.open[id].services then NotRegistered else result)
    case Register(id, s) =>
      if id !in p.open then r == Returned(InvalidSession) && q == p
      else if s.code < 0 then r == Returned(InvalidParam) && q == p
      else if s.code !in p.open[id].caps then r == Returned(NotSupported) && q == p
      else
        && r == Returned(Success)
        && var l := p.open[id];
           q == if s.code in l.services then p else p.(open := p.open[id := l.(services := l.services[s.code := s])])
    case Unregister(id, s) =>
      if id !in p.open then r == Returned(InvalidSession) && q == p
      else if s.code < 0 then r == Returned(InvalidParam) && q == p
      else if s.code !in p.open[id].services then r == Returned(NotFound) && q == p
      else
        && r == Returned(Success)
        && var l := p.open[id];
           q == p.(open := p.open[id := l.(services := l.services - {s.code})])
  }

  /** `pools` is a run answering `calls` with `replies` from a manager not yet initialized. */
  predicate Explains(calls: seq<Call>, replies: seq<Reply>, pools: seq<Pool>) {
    && |replies| == |calls| && |pools| == |calls| + 1
    && pools[0] == EMPTY
    && forall i :: 0 <= i < |calls| ==> Step(pools[i], calls[i], replies[i], pools[i + 1])
  }

  // The pool's side of a session's own answer.

  lemma RegisterStep(p: Pool, id: int, s: Service, ret: Code, services: map<int, Service>)
    requires id in p.open
    requires ret == if s.code < 0 then InvalidParam else if s.code !in p.open[id].caps then NotSupported else Success
    requires services == if ret == Success && s.code !in p.open[id].services then p.open[id].services[s.code := s] else p.open[id].services
    ensures Step(p, Register(id, s), Returned(ret), p.(open := p.open[id := Lease(p.open[id].caps, services)]))
  {
    assert p.open[id := p.open[id]] == p.open;
  }

  lemma UnregisterStep(p: Pool, id: int, s: Service, ret: Code, services: map<int, Service>)
    requires id in p.open
    requires ret == if s.code < 0 then InvalidParam else if s.code !in p.open[id].services then NotFound else Success
    requires services == if ret == Success then p.open[id].services - {s.code} else p.open[id].services
    ensures Step(p, Unregister(id, s), Returned(ret), p.(open := p.open[id := Lease(p.open[id].caps, services)]))
  {
    assert p.open[id := p.open[id]] == p.open;
  }

  lemma SameLease(p: Pool, id: int)
    requires id in p.open
    ensures p.(open := p.open[id := p.open[id]]) == p
  {
    assert p.open[id := p.open[id]] == p.open;
  }

  predicate PoolSafe(p: Pool) {
    && (forall id :: id in p.open ==> 0 <= id < p.size)
    && (forall id :: id in p.open ==> p.open[id].services.Keys <= p.open[id].caps)
    && (forall id, c :: id in p.open && c in p.open[id].services ==> 0 <= c)
  }

  lemma {:induction false} PoolsSafe(calls: seq<Call>, replies: seq<Reply>, pools: seq<Pool>, i: nat)
    requires Explains(calls, replies, pools) && i <= |calls|
    ensures PoolSafe(pools[i])
    decreases i
  {
    if i > 0 {
      PoolsSafe(calls, replies, pools, i - 1);
      assert Step(pools[i - 1], calls[i - 1], replies[i - 1], pools[i]);
    }
  }

  /** An id stays open, whatever else is called, until it is closed or the manager is torn down. */
  lemma {:induction false} StaysOpen(calls: seq<Call>, replies: seq<Reply>, pools: seq<Pool>, id: int, i: nat, j: nat)
    requires Explains(calls, replies, pools) && i <= j <= |calls| && id in pools[i].open
    requires forall k :: i <= k < j ==> calls[k] != CloseBusy(id) && calls[k] != Uninit
    ensures id in pools[j].open
    decreases j
  {
    if i < j {
      StaysOpen(calls, replies, pools, id, i, j - 1);
      assert Step(pools[j - 1], calls[j - 1], replies[j - 1], pools[j]);
      PoolsSafe(calls, replies, pools, j - 1);
    }
  }

  /** No session is lent twice: between two opens that return the same id there is a close of that id,
      or a teardown. */
  lemma NeverLentTwice(calls: seq<Call>, replies: seq<Reply>, pools: seq<Pool>, i: nat, j: nat)
    requires Explains(calls, replies, pools) && i < j < |calls|
    requires replies[i].Opened? && replies[j].Opened? && replies[i].id == replies[j].id >= 0
    ensures exists k :: i < k < j && (calls[k] == CloseBusy(replies[i].id) || calls[k] == Uninit)
  {
    assert Step(pools[i], calls[i], replies[i], pools[i + 1]);
    assert Step(pools[j], calls[j], replies[j], pools[j + 1]);
    if forall k :: i < k < j ==> calls[k] != CloseBusy(replies[i].id) && calls[k] != Uninit {
      StaysOpen(calls, replies, pools, replies[i].id, i + 1, j);
      assert false;
    }
  }

  // What the history of calls and replies says, without the pool.

  predicate Ends(call: Call, id: int) {
    call == CloseBusy(id) || call == Uninit
  }

  predicate Registers(call: Call, reply: Reply, id: int, code: int) {
    call.Register? && call.id == id && call.svc.code == code && reply == Returned(Success)
  }

  predicate Withdraws(call: Call, id: int, code: int) {
    Ends(call, id) || (call.Unregister? && call.id == id && call.svc.code == code)
  }

  /** Before call `j` the id was lent, and has not been given back since. */
  predicate LentAt(calls: seq<Call>, replies: seq<Reply>, id: int, j: nat)
    requires j <= |calls| == |replies|
  {
    exists i :: 0 <= i < j && replies[i] == Opened(id, Success) && forall k :: i < k < j ==> !Ends(calls[k], id)
  }

  /** Before call `j` the code was registered, and has not been withdrawn since. */
  predicate RegisteredAt(calls: seq<Call>, replies: seq<Reply>, id: int, code: int, j: nat)
    requires j <= |calls| == |replies|
  {
    exists i :: 0 <= i < j && Registers(calls[i], replies[i], id, code)
                && forall k :: i < k < j ==> !Withdraws(calls[k], id, code)
  }

  predicate Serves(p: Pool, id: int, code: int) {
    id in p.open && code in p.open[id].services
  }

  lemma LentStep(p: Pool, call: Call, r: Reply, q: Pool, id: int)
    requires Step(p, call, r, q) && PoolSafe(p)
    ensures id in q.open <==> r == Opened(id, Success) || (id in p.open && !Ends(call, id))
  {
  }

  lemma ServesStep(p: Pool, call: Call, r: Reply, q: Pool, id: int, code: int)
    requires Step(p, call, r, q) && PoolSafe(p)
    ensures Serves(q, id, code) <==> Registers(call, r, id, code) || (Serves(p, id, code) && !Withdraws(call, id, code))
  {
  }

  lemma LentAtNext(calls: seq<Call>, replies: seq<Reply>, id: int, j: nat)
    requires j < |calls| == |replies|
    ensures LentAt(calls, replies, id, j + 1) <==>
            replies[j] == Opened(id, Success) || (LentAt(calls, replies, id, j) && !Ends(calls[j], id))
  {
    if LentAt(calls, replies, id, j) && !Ends(calls[j], id) {
      var i :| 0 <= i < j && replies[i] == Opened(id, Success) && forall k :: i < k < j ==> !Ends(calls[k], id);
      assert forall k :: i < k < j + 1 ==> !Ends(calls[k], id);
    }
  }

  lemma RegisteredAtNext(calls: seq<Call>, replies: seq<Reply>, id: int, code: int, j: nat)
    requires j < |calls| == |replies|
    ensures RegisteredAt(calls, replies, id, code, j + 1) <==>
            Registers(calls[j], replies[j], id, code) || (RegisteredAt(calls, replies, id, code, j) && !Withdraws(calls[j], id, code))
  {
    if RegisteredAt(calls, replies, id, code, j) && !Withdraws(calls[j], id, code) {
      var i :| 0 <= i < j && Registers(calls[i], replies[i], id, code) && forall k :: i < k < j ==> !Withdraws(calls[k], id, code);
      assert forall k :: i < k < j + 1 ==> !Withdraws(calls[k], id, code);
    }
  }

  lemma {:induction false} HistorySays(calls: seq<Call>, replies: seq<Reply>, pools: seq<Pool>, id: int, code: int, j: nat)
    requires Explains(calls, replies, pools) && j <= |calls|
    ensures id in pools[j].open <==> LentAt(calls, replies, id, j)
    ensures Serves(pools[j], id, code) <==> RegisteredAt(calls, replies, id, code, j)
    decreases j
  {
    if j > 0 {
      var p, call, r, q := pools[j - 1], calls[j - 1], replies[j - 1], pools[j];
      HistorySays(calls, replies, pools, id, code, j - 1);
      PoolsSafe(calls, replies, pools, j - 1);
      assert Step(p, call, r, q);
      LentStep(p, call, r, q, id);
      ServesStep(p, call, r, q, id, code);
      LentAtNext(calls, replies, id, j - 1);
      RegisteredAtNext(calls, replies, id, code, j - 1);
    }
  }

  /** The engine's own answer comes back exactly when the id was lent and not given back, and the code
      registered in it and not withdrawn; the other two answers say which is missing. */
  lemma AnsweredExactly(calls: seq<Call>, replies: seq<Reply>, pools: seq<Pool>, j: nat)
    requires Explains(calls, replies, pools) && j < |calls| && calls[j].Run?
    ensures var id, code := calls[j].id, calls[j].code;
            replies[j] == Returned(if !LentAt(calls, replies, id, j) then InvalidSession
                                   else if !RegisteredAt(calls, replies, id, code, j) then NotRegistered
                                   else calls[j].result)
  {
    HistorySays(calls, replies, pools, calls[j].id, calls[j].code, j);
    assert Step(pools[j], calls[j], replies[j], pools[j + 1]);
  }

  /** A close succeeds exactly for an id that was lent and not given back. */
  lemma ClosedExactly(calls: seq<Call>, replies: seq<Reply>, pools: seq<Pool>, j: nat)
    requires Explains(calls, replies, pools) && j < |calls| && calls[j].CloseBusy?
    ensures replies[j] == Done(LentAt(calls, replies, calls[j].id, j))
  {
    HistorySays(calls, replies, pools, calls[j].id, 0, j);
    assert Step(pools[j], calls[j], replies[j], pools[j + 1]);
  }

  /** How many sessions there are before call `j`: set by the first init, sixteen where it names no number,
      none after a teardown. */
  function SessionCount(calls: seq<Call>, j: nat): nat
    requires j <= |calls|
  {
    if j == 0 then 0
    else
      var before := SessionCount(calls, j - 1);
      match calls[j - 1]
      case Init(n) => if before > 0 then before else if n == 0 then 16 else n
      case Uninit => 0
      case _ => before
  }

  lemma {:induction false} AtMost(ids: set<int>, n: nat)
    requires forall id :: id in ids ==> 0 <= id < n
    ensures |ids| <= n
  {
    if n == 0 {
      SomeElement(ids);
    } else {
      AtMost(ids - {n - 1}, n - 1);
      assert n - 1 in ids ==> ids == (ids - {n - 1}) + {n - 1};
    }
  }

  lemma {:induction false} SessionsSay(calls: seq<Call>, replies: seq<Reply>, pools: seq<Pool>, j: nat)
    requires Explains(calls, replies, pools) && j <= |calls|
    ensures pools[j].size == SessionCount(calls, j) && |pools[j].open.Keys| <= SessionCount(calls, j)
    decreases j
  {
    if j > 0 {
      SessionsSay(calls, replies, pools, j - 1);
      assert Step(pools[j - 1], calls[j - 1], replies[j - 1], pools[j]);
    }
    PoolsSafe(calls, replies, pools, j);
    AtMost(pools[j].open.Keys, pools[j].size);
  }

  /** An open lends a session exactly when the engine opens and fewer ids are lent than there are sessions;
      then its id is one that was not lent. */
  lemma OpenedExactly(calls: seq<Call>, replies: seq<Reply>, pools: seq<Pool>, j: nat) returns (lent: set<int>)
    requires Explains(calls, replies, pools) && j < |calls| && calls[j].OpenIdle?
    ensures forall id :: id in lent <==> LentAt(calls, replies, id, j)
    ensures var r := replies[j];
            if |lent| == SessionCount(calls, j) then r == Opened(-1, Insufficient)
            else if calls[j].result != Success then r == Opened(-1, calls[j].result)
            else r.Opened? && r.code == Success && 0 <= r.id < SessionCount(calls, j) && r.id !in lent && |lent| < SessionCount(calls, j)
  {
    lent := pools[j].open.Keys;
    SessionsSay(calls, replies, pools, j);
    forall id ensures id in lent <==> LentAt(calls, replies, id, j) {
      HistorySays(calls, replies, pools, id, 0, j);
    }
    assert Step(pools[j], calls[j], replies[j], pools[j + 1]);
  }

  /** The service first registered under a code keeps it, whatever is registered after it. */
  lemma {:induction false} FirstServiceStays(calls: seq<Call>, replies: seq<Reply>, pools: seq<Pool>, id: int, s: Service, i: nat, j: nat)
    requires Explains(calls, replies, pools) && i < j <= |calls|
    requires calls[i] == Register(id, s) && replies[i] == Returned(Success) && !RegisteredAt(calls, replies, id, s.code, i)
    requires forall k :: i < k < j ==> !Withdraws(calls[k], id, s.code)
    ensures Serves(pools[j], id, s.code) && pools[j].open[id].services[s.code] == s
    decreases j
  {
    assert Step(pools[j - 1], calls[j - 1], replies[j - 1], pools[j]);
    PoolsSafe(calls, replies, pools, j - 1);
    if i + 1 < j {
      FirstServiceStays(calls, replies, pools, id, s, i, j - 1);
    } else {
      HistorySays(calls, replies, pools, id, s.code, i);
    }
  }

  // ----- the manager ------------------------------------------------------------------------------

  /** The two tables partition the ids of the sessions; what is in the idle table is Idle, what is in
      the busy table is Ready. */
  predicate Partitioned(views: seq<View>, idle: set<int>, busy: set<int>) {
    && (forall i :: 0 <= i < |views| ==> Sound(views[i]) && (i in idle || i in busy))
    && (forall i :: i in idle ==> 0 <= i < |views| && i !in busy && views[i].current == IDLE)
    && (forall i :: i in busy ==> 0 <= i < |views| && i !in idle && views[i].current == READY)
  }

  function LeaseOf(v: View): Lease {
    Lease(v.capabilities, v.services)
  }

  function Lent(views: seq<View>, busy: set<int>): map<int, Lease>
    requires forall i :: i in busy ==> 0 <= i < |views|
  {
    map i | i in busy :: LeaseOf(views[i])
  }

  /** One more session is lent, or a lent one has changed. */
  lemma LentOne(views: seq<View>, idle: set<int>, busy: set<int>, i: int, v: View)
    requires Partitioned(views, idle, busy) && 0 <= i < |views| && Sound(v) && v.current == READY
    ensures Partitioned(views[i := v], idle - {i}, busy + {i})
    ensures Lent(views[i := v], busy + {i}) == Lent(views, busy)[i := LeaseOf(v)]
  {
  }

  /** A session is Idle and no longer lent. */
  lemma LentNoMore(views: seq<View>, idle: set<int>, busy: set<int>, i: int, v: View)
    requires Partitioned(views, idle, busy) && 0 <= i < |views| && Sound(v) && v.current == IDLE
    ensures Partitioned(views[i := v], idle + {i}, busy - {i})
    ensures Lent(views[i := v], busy - {i}) == Lent(views, busy) - {i}
  {
  }

  lemma StillIdle(views: seq<View>, idle: set<int>, busy: set<int>, i: int, v: View)
    requires Partitioned(views, idle, busy) && i in idle && Sound(v) && v.current == IDLE
    ensures Partitioned(views[i := v], idle, busy) && Lent(views[i := v], busy) == Lent(views, busy)
  {
  }

  lemma AllNew(views: seq<View>, idle: set<int>)
    requires forall k :: k in idle <==> 0 <= k < |views|
    requires forall k :: 0 <= k < |views| ==> views[k] == NEW
    ensures Partitioned(views, idle, {}) && Lent(views, {}) == map[]
  {
  }

  /** A shortage is exactly the case of all sessions being lent. */
  lemma ShortageExactly(views: seq<View>, idle: set<int>, busy: set<int>)
    requires Partitioned(views, idle, busy)
    ensures |Lent(views, busy)| <= |views|
    ensures idle == {} <==> |Lent(views, busy)| == |views|
  {
    RangeSize(|views|);
    assert Lent(views, busy).Keys == busy;
    SomeElement(idle);
    if idle == {} {
      assert busy == Range(|views|);
    } else {
      var i :| i in idle;
      assert busy <= Range(|views|) - {i};
      SubsetSize(busy, Range(|views|) - {i});
    }
  }

  function ViewsOf(sessions: seq<BeeSession>): (views: seq<View>)
    reads sessions
    ensures |views| == |sessions| && forall i :: 0 <= i < |views| ==> views[i] == sessions[i].Now()
  {
    seq(|sessions|, i requires 0 <= i < |sessions| reads sessions => sessions[i].Now())
  }

  method NewSession(id: int) returns (session: BeeSession)
    ensures fresh(session) && session.id == id && session.TableBuilt() && session.Now() == NEW
  {
    session := new BeeSession(id);
    session.InitStateMachine();
  }

  class SessionManager {
    var all: seq<BeeSession>
    var idle: map<int, BeeSession>
    var busy: map<int, BeeSession>
    var initialized: bool
    var count: nat

    function Views(): seq<View>
      reads this`all, all
    {
      ViewsOf(all)
    }

    /** The sessions are numbered, and the tables refer to them by number. */
    ghost predicate Placed()
      reads this, all
    {
      && |all| == (if initialized then count else 0) && (initialized ==> count > 0)
      && (forall i :: 0 <= i < |all| ==> all[i].id == i && all[i].TableBuilt())
      && (forall i :: i in idle ==> 0 <= i < |all| && idle[i] == all[i])
      && (forall i :: i in busy ==> 0 <= i < |all| && busy[i] == all[i])
    }

    ghost predicate Valid()
      reads this, all
    {
      Placed() && Partitioned(Views(), idle.Keys, busy.Keys)
    }

    function Clients(): Pool
      reads this, all
      requires Valid()
    {
      Pool(|all|, Lent(Views(), busy.Keys))
    }

    constructor ()
      ensures Valid() && Clients() == EMPTY && fresh(all)
    {
      all, idle, busy, initialized, count := [], map[], map[], false, 0;
    }

    method Init(n: nat) returns (ret: bool)
      requires Valid()
      modifies this
      ensures Valid() && fresh(set s | s in all && s !in old(all))
      ensures Step(old(Clients()), Call.Init(n), Done(ret), Clients())
    {
      ret := true;
      if initialized {
        return;
      }
      Start(if n == 0 then DEFAULT_COUNT else n);
    }

    method Start(n: nat)
      requires Valid() && !initialized && n > 0
      modifies this
      ensures Valid() && fresh(all) && Clients() == Pool(n, map[])
    {
      NothingPooled();
      count := n;
      Fill();
      initialized := true;
      AllNew(Views(), idle.Keys);
    }

    lemma NothingPooled()
      requires Valid() && !initialized
      ensures all == [] && idle == map[] && busy == map[]
    {
      assert forall k :: k !in idle && k !in busy;
    }

    method Fill()
      requires all == [] && idle == map[]
      modifies this`all, this`idle
      ensures |all| == count && fresh(all) && (forall k :: k in idle <==> 0 <= k < count)
      ensures forall k :: 0 <= k < count ==> all[k].id == k && all[k].TableBuilt() && all[k].Now() == NEW && idle[k] == all[k]
    {
      for i := 0 to count
        invariant |all| == i && fresh(all) && (forall k :: k in idle <==> 0 <= k < i)
        invariant forall k :: 0 <= k < i ==> all[k].id == k && all[k].TableBuilt() && all[k].Now() == NEW && idle[k] == all[k]
        modifies this`all, this`idle
      {
        var session := NewSession(i);
        all := all + [session];
        idle := idle[i := session];
      }
    }

    method Uninit() returns (ret: bool)
      requires Valid()
      modifies this, all
      ensures Valid() && all == []
      ensures Step(old(Clients()), Call.Uninit, Done(ret), Clients())
      ensures forall s :: s in old(all) ==> s.Valid() && s.current == IDLE
    {
      ret := true;
      if !initialized {
        return;
      }
      CloseAll(busy.Keys);
      all, idle, busy := [], map[], map[];
      initialized := false;
    }

    /** Closes the busy sessions `ids` in some order, whatever order the table iterates in. */
    method CloseAll(ids: set<int>)
      requires Valid() && ids <= busy.Keys
      modifies all
      ensures forall i :: 0 <= i < |all| ==> all[i].Valid()
      ensures forall i :: 0 <= i < |all| ==> all[i].current == if i in ids then IDLE else old(all[i].current)
    {
      var left := ids;
      while left != {}
        invariant left <= ids
        invariant forall i :: 0 <= i < |all| ==> all[i].Valid()
        invariant forall i :: 0 <= i < |all| ==> all[i].current == if i in ids - left then IDLE else old(all[i].current)
        decreases |left|
      {
        SomeElement(left);
        var i :| i in left;
        var end := busy[i].Close();
        left := left - {i};
      }
    }

    /** Takes any idle session: the table is unordered. */
    method OpenIdleSession(result: Code, live: string, caps: seq<int>) returns (id: int, code: Code)
      requires Valid()
      modifies this, all
      ensures Valid() && all == old(all)
      ensures Step(old(Clients()), OpenIdle(result, live, caps), Opened(id, code), Clients())
    {
      ShortageExactly(Views(), idle.Keys, busy.Keys);
      id := -1;
      if idle.Keys == {} {
        return -1, Insufficient;
      }
      SomeElement(idle.Keys);
      var i :| i in idle.Keys;
      code := OpenThis(i, result, live, caps);
      if code == Success {
        id := i;
      }
    }

    method OpenThis(i: int, result: Code, live: string, caps: seq<int>) returns (code: Code)
      requires Valid() && i in idle
      modifies this`idle, this`busy, all
      ensures Valid() && code == result && i !in old(Clients().open)
      ensures Clients().open == if code == Success then old(Clients().open)[i := Lease(set c | c in caps, map[])] else old(Clients().open)
    {
      ghost var views := Views();
      var session := idle[i];
      var end := session.Open(result, live, caps);
      ViewChanged(i);
      code := end.code;
      if code == Success {
        LentOne(views, idle.Keys, busy.Keys, i, session.Now());
        Lend(i);
      } else {
        StillIdle(views, idle.Keys, busy.Keys, i, session.Now());
      }
    }

    method Lend(i: int)
      requires Placed() && i in idle && Partitioned(Views(), idle.Keys - {i}, busy.Keys + {i})
      modifies this`idle, this`busy
      ensures Valid() && Views() == old(Views()) && busy.Keys == old(busy.Keys) + {i}
    {
      busy := busy[i := idle[i]];
      idle := idle - {i};
      assert idle.Keys == old(idle.Keys) - {i};
    }

    method CloseBusySession(id: int) returns (ret: bool)
      requires Valid()
      modifies this, all
      ensures Valid() && all == old(all)
      ensures Step(old(Clients()), CloseBusy(id), Done(ret), Clients())
    {
      if id !in busy {
        assert Clients().open - {id} == Clients().open;
        return false;
      }
      ret := CloseThis(id);
    }

    method CloseThis(id: int) returns (ret: bool)
      requires Valid() && id in busy
      modifies this`idle, this`busy, all
      ensures Valid() && ret && Clients().open == old(Clients().open) - {id}
    {
      ghost var views := Views();
      var session := busy[id];
      var end := session.Close();
      ViewChanged(id);
      LentNoMore(views, idle.Keys, busy.Keys, id, session.Now());
      if end.code != Success {
        return false;
      }
      TakeBack(id);
      ret := true;
    }

    method TakeBack(i: int)
      requires Placed() && i in busy && Partitioned(Views(), idle.Keys + {i}, busy.Keys - {i})
      modifies this`idle, this`busy
      ensures Valid() && Views() == old(Views()) && busy.Keys == old(busy.Keys) - {i}
    {
      idle := idle[i := busy[i]];
      busy := busy - {i};
    }

    method GetBusySession(id: int) returns (session: BeeSession?)
      requires Valid()
      ensures if id in Clients().open then session == all[id] else session == null
    {
      session := null;
      if id in busy {
        session := busy[id];
      }
    }

    /** One session took a step of its own. */
    twostate lemma ViewChanged(id: int)
      requires 0 <= id < |all| && unchanged(this`all)
      requires forall k :: 0 <= k < |all| && k != id ==> unchanged(all[k])
      ensures Views() == old(Views())[id := all[id].Now()]
    {
      forall k | 0 <= k < |all|
        ensures Views()[k] == old(Views())[id := all[id].Now()][k]
      {
      }
    }

    /** After a busy session took a step of its own, its lease is the one it now shows. */
    twostate lemma LeaseChanged(id: int)
      requires old(Valid()) && id in busy && unchanged(this) && Placed()
      requires all[id].Valid() && all[id].current == READY
      requires forall k :: 0 <= k < |all| && k != id ==> unchanged(all[k])
      ensures Valid() && Clients() == old(Clients()).(open := old(Clients()).open[id := LeaseOf(all[id].Now())])
    {
      var views := old(Views());
      ViewChanged(id);
      LentOne(views, idle.Keys, busy.Keys, id, all[id].Now());
      assert idle.Keys - {id} == idle.Keys && busy.Keys + {id} == busy.Keys;
    }

    // What BeeEntrance does with the session it looks up.

    method DoExecute(id: int, svc: int, result: Code) returns (ret: Code)
      requires Valid()
      modifies all
      ensures Valid()
      ensures Step(old(Clients()), Call.Run(id, svc, result), Returned(ret), Clients())
    {
      var session := GetBusySession(id);
      if session == null {
        return InvalidSession;
      }
      ret := session.Execute(svc, result);
      LeaseChanged(id);
      SameLease(old(Clients()), id);
    }

    method DoRegSvc(id: int, svc: Service) returns (ret: Code)
      requires Valid()
      modifies all
      ensures Valid()
      ensures Step(old(Clients()), Register(id, svc), Returned(ret), Clients())
    {
      var session := GetBusySession(id);
      if session == null {
        return InvalidSession;
      }
      ret := session.RegSvc(Some(svc));
      LeaseChanged(id);
      RegisterStep(old(Clients()), id, svc, ret, session.services);
    }

    method DoUnregSvc(id: int, svc: Service) returns (ret: Code)
      requires Valid()
      modifies all
      ensures Valid()
      ensures Step(old(Clients()), Unregister(id, svc), Returned(ret), Clients())
    {
      var session := GetBusySession(id);
      if session == null {
        return InvalidSession;
      }
      ret := session.UnregSvc(Some(svc));
      LeaseChanged(id);
      UnregisterStep(old(Clients()), id, svc, ret, session.services);
    }

    method States() returns (states: seq<int>)
      requires Valid()
      ensures |states| == Clients().size
      ensures forall i :: 0 <= i < |states| ==> states[i] == if i in Clients().open then READY else IDLE
    {
      states := [];
      for i := 0 to |all|
        invariant |states| == i
        invariant forall k :: 0 <= k < i ==> states[k] == Views()[k].current
      {
        states := states + [all[i].current];
      }
    }

    method Answer(call: Call) returns (reply: Reply)
      requires Valid()
      modifies this, all
      ensures Valid() && fresh(set s | s in all && s !in old(all))
      ensures Step(old(Clients()), call, reply, Clients())
    {
      if call.Init? {
        var ok := Init(call.count);
        reply := Done(ok);
      } else if call.Uninit? {
        var ok := Uninit();
        reply := Done(ok);
      } else if call.OpenIdle? {
        var id, code := OpenIdleSession(call.result, call.live, call.caps);
        reply := Opened(id, code);
      } else if call.CloseBusy? {
        var ok := CloseBusySession(call.id);
        reply := Done(ok);
      } else if call.Run? {
        var code := DoExecute(call.id, call.code, call.result);
        reply := Returned(code);
      } else if call.Register? {
        var code := DoRegSvc(call.id, call.svc);
        reply := Returned(code);
      } else {
        var code := DoUnregSvc(call.id, call.svc);
        reply := Returned(code);
      }
    }
  }

  lemma SomeElement(a: set<int>)
    ensures a == {} || exists x :: x in a
  {
    assert (forall x :: x !in a) ==> a == {};
  }

  /** Any calls to a new manager: the replies are those of a pool that starts empty, and at the end
      every session is Ready or Idle as the pool says; none has reached the sentinel. */
  method Serve(calls: seq<Call>) returns (replies: seq<Reply>, pools: seq<Pool>, states: seq<int>)
    ensures Explains(calls, replies, pools)
    ensures |states| == pools[|calls|].size
    ensures forall i :: 0 <= i < |states| ==> states[i] == if i in pools[|calls|].open then READY else IDLE
  {
    var manager := new SessionManager();
    replies := [];
    var now := manager.Clients();
    pools := [now];
    for n := 0 to |calls|
      invariant manager.Valid() && fresh(manager) && fresh(manager.all)
      invariant |replies| == n && |pools| == n + 1 && pools[0] == EMPTY && pools[n] == manager.Clients()
      invariant forall i :: 0 <= i < n ==> Step(pools[i], calls[i], replies[i], pools[i + 1])
    {
      var reply := manager.Answer(calls[n]);
      replies := replies + [reply];
      now := manager.Clients();
      pools := pools + [now];
    }
    states := manager.States();
  }
}
