/** The bounded fan-out: at most eight tasks in flight, completed in any order, possibly panicking. */
module FanOut {
  import opened Wrappers
  import opened Sequences
  import opened Evidence

  const MAX_CONCURRENT: nat := 8

  // ----- The scheduler as a transition system --------------------------------------------

  /** The tasks in flight, the first index not yet spawned, and the joined tasks in join order. */
  datatype State = State(inFlight: set<nat>, next: nat, joined: seq<nat>)

  function Below(n: nat): set<nat> {
    if n == 0 then {} else Below(n - 1) + {n - 1}
  }

  lemma {:induction false} BelowMembers(n: nat)
    ensures forall i: nat :: i in Below(n) <==> i < n
    ensures |Below(n)| == n
  {
    if n > 0 { BelowMembers(n - 1); }
  }

  function Init(n: nat): State {
    State(Below(Min(MAX_CONCURRENT, n)), Min(MAX_CONCURRENT, n), [])
  }

  /** Task `i` completes or panics, and the next pending address, if any, takes its place. */
  function Join(n: nat, s: State, i: nat): State {
    State(s.inFlight - {i} + (if s.next < n then {s.next} else {}),
          if s.next < n then s.next + 1 else s.next,
          s.joined + [i])
  }

  /** The state after joining the tasks of `schedule` in turn. */
  function Run(n: nat, schedule: seq<nat>): State {
    if schedule == [] then Init(n)
    else Join(n, Run(n, schedule[..|schedule| - 1]), schedule[|schedule| - 1])
  }

  /** Every join of the schedule is of a task that is in flight at that moment. */
  predicate Possible(n: nat, schedule: seq<nat>) {
    schedule == [] ||
    var before, last := schedule[..|schedule| - 1], schedule[|schedule| - 1];
    Possible(n, before) && last in Run(n, before).inFlight
  }

  predicate Quiescent(n: nat, schedule: seq<nat>) {
    Possible(n, schedule) && Run(n, schedule).inFlight == {}
  }

  /** In flight, joined and pending tasks partition the indices; the fan-out stays full. */
  ghost predicate Inv(n: nat, s: State) {
    && Distinct(s.joined)
    && s.next == Min(n, 8 + |s.joined|)
    && |s.inFlight| == Min(8, n - |s.joined|)
    && |s.joined| <= n
    && (forall i: nat :: i in s.inFlight || i in s.joined <==> i < s.next)
    && (forall i: nat :: i in s.inFlight ==> i !in s.joined)
  }

  lemma InitKeepsInv(n: nat)
    ensures Inv(n, Init(n))
  {
    hide Below;
    BelowMembers(Min(MAX_CONCURRENT, n));
  }

  lemma JoinKeepsInv(n: nat, s: State, i: nat)
    requires Inv(n, s) && i in s.inFlight
    ensures Inv(n, Join(n, s, i))
  {
    var t := Join(n, s, i);
    assert |s.inFlight - {i}| == |s.inFlight| - 1;
    if s.next < n {
      assert s.next !in s.inFlight;
    }
    forall j: nat ensures j in t.inFlight || j in t.joined <==> j < t.next {
      assert j in s.inFlight || j in s.joined <==> j < s.next;
    }
    assert forall j: nat :: j in t.joined <==> j in s.joined || j == i;
    assert i < s.next;
    assert s.next !in s.joined;
  }

  lemma {:induction false} NothingJoined(n: nat)
    ensures Possible(n, []) && Run(n, []) == Init(n)
  {
  }

  /** The invariant holds along every interleaving of completions and panics. */
  lemma {:induction false} RunKeepsInv(n: nat, schedule: seq<nat>)
    requires Possible(n, schedule)
    ensures Inv(n, Run(n, schedule)) && Run(n, schedule).joined == schedule
    decreases |schedule|
  {
    if schedule == [] {
      InitKeepsInv(n);
    } else {
      var before, last := schedule[..|schedule| - 1], schedule[|schedule| - 1];
      RunKeepsInv(n, before);
      JoinKeepsInv(n, Run(n, before), last);
      assert schedule == before + [last];
    }
  }

  lemma {:induction false} JoinNext(n: nat, schedule: seq<nat>, i: nat)
    requires Possible(n, schedule) && i in Run(n, schedule).inFlight
    ensures Possible(n, schedule + [i]) && Run(n, schedule + [i]) == Join(n, Run(n, schedule), i)
    ensures i < n && i !in schedule && |schedule| < n
  {
    RunKeepsInv(n, schedule);
    assert (schedule + [i])[..|schedule|] == schedule;
    RunKeepsInv(n, schedule + [i]);
  }

  /** No interleaving gets stuck: while joins are missing, some task is in flight. */
  lemma AlwaysProgress(n: nat, schedule: seq<nat>) returns (i: nat)
    requires Possible(n, schedule) && |schedule| < n
    ensures Possible(n, schedule + [i])
  {
    RunKeepsInv(n, schedule);
    var s := Run(n, schedule);
    assert s.inFlight != {};
    i :| i in s.inFlight;
    JoinNext(n, schedule, i);
  }

  /** Every interleaving ends after exactly `n` joins, one per address. */
  lemma {:induction false} EndsAfterExactlyOneJoinEach(n: nat, schedule: seq<nat>)
    requires Possible(n, schedule)
    ensures |schedule| <= n
    ensures Quiescent(n, schedule) <==> |schedule| == n
    ensures Quiescent(n, schedule) ==> Distinct(schedule) && forall i: nat :: i in schedule <==> i < n
  {
    RunKeepsInv(n, schedule);
  }

  // ----- The collected results -----------------------------------------------------------

  /** What the caller gets: each task's outcome in address order, or the fallback for a panic. */
  function Expected<A, R>(addresses: seq<A>, outcomes: seq<Option<R>>, fallback: A -> R): (r: seq<R>)
    requires |outcomes| == |addresses|
    ensures |r| == |addresses|
    ensures forall i :: 0 <= i < |r| ==> r[i] == if outcomes[i].Some? then outcomes[i].value else fallback(addresses[i])
  {
    seq(|addresses|, i requires 0 <= i < |addresses| =>
      if outcomes[i].Some? then outcomes[i].value else fallback(addresses[i]))
  }

  /** After the joins of `schedule`, exactly the slots of tasks that did not panic are filled. */
  ghost predicate Collected<R>(slots: seq<Option<R>>, outcomes: seq<Option<R>>, schedule: seq<nat>) {
    && |slots| == |outcomes|
    && forall i: nat :: i < |slots| ==> slots[i] == if i in schedule then outcomes[i] else None
  }

  method SpawnFirst(n: nat) returns (tasks: set<nat>, pending: nat)
    ensures State(tasks, pending, []) == Init(n)
  {
    tasks, pending := {}, 0;
    while pending < n && pending < MAX_CONCURRENT
      invariant 0 <= pending <= Min(MAX_CONCURRENT, n)
      invariant tasks == Below(pending)
    {
      tasks := tasks + {pending};
      pending := pending + 1;
    }
  }

  /**
    * The fan-out itself. `outcomes[i]` is what task `i` comes to, `None` for a panic; which of the
    * tasks in flight is joined next is left open.
    */
  method CollectAll<A, R>(addresses: seq<A>, outcomes: seq<Option<R>>, fallback: A -> R)
    returns (results: seq<R>, ghost schedule: seq<nat>)
    requires |outcomes| == |addresses|
    ensures results == Expected(addresses, outcomes, fallback)
    ensures Quiescent(|addresses|, schedule)
  {
    hide Run, Possible;
    var n := |addresses|;
    var tasks, pending := SpawnFirst(n);
    var slots: seq<Option<R>> := seq(n, _ => None);
    schedule := [];
    NothingJoined(n);
    while tasks != {}
      invariant 0 <= pending && |schedule| <= n
      invariant Possible(n, schedule)
      invariant Run(n, schedule) == State(tasks, pending, schedule)
      invariant Collected(slots, outcomes, schedule)
      decreases n - |schedule|
    {
      var index :| index in tasks;
      JoinNext(n, schedule, index);
      tasks := tasks - {index};
      slots := StoreOutcome(slots, index, outcomes, schedule);
      if pending < n {
        tasks := tasks + {pending};
        pending := pending + 1;
      }
      schedule := schedule + [index];
    }
    EndsAfterExactlyOneJoinEach(n, schedule);
    results := seq(n, i requires 0 <= i < n => if slots[i].Some? then slots[i].value else fallback(addresses[i]));
  }

  method StoreOutcome<R>(slots: seq<Option<R>>, index: nat, outcomes: seq<Option<R>>, ghost schedule: seq<nat>)
    returns (stored: seq<Option<R>>)
    requires Collected(slots, outcomes, schedule)
    requires index < |slots| && index !in schedule
    ensures Collected(stored, outcomes, schedule + [index])
  {
    stored := slots;
    if outcomes[index].Some? {
      stored := slots[index := outcomes[index]];
    }
  }

  // ----- TCP probes and route inspections ------------------------------------------------

  /** How one connection attempt can come out. */
  datatype Attempt =
    | Connected(ms: nat)
    | Failed(kind: ErrorKind, ms: nat, error: string)
    | Expired(ms: nat, error: string)
    | Panicked

  function FailedTask(a: Address): TcpResult {
    TcpResult(Fail, a, FamilyOf(a), 0, Some(Other), Some("TCP probe task stopped before producing evidence"))
  }

  function ConnectOutcome(a: Address, attempt: Attempt): Option<TcpResult> {
    match attempt
    case Connected(ms) => Some(TcpResult(Pass, a, FamilyOf(a), ms, None, None))
    case Failed(kind, ms, error) => Some(TcpResult(Fail, a, FamilyOf(a), ms, Some(kind), Some(error)))
    case Expired(ms, error) => Some(TcpResult(Fail, a, FamilyOf(a), ms, Some(TimedOut), Some(error)))
    case Panicked => None
  }

  method ConnectAll(addresses: seq<Address>, attempts: seq<Attempt>) returns (results: seq<TcpResult>)
    requires |attempts| == |addresses|
    ensures |results| == |addresses|
    ensures forall i :: 0 <= i < |results| ==>
              && results[i].address == addresses[i] && (results[i].family == Ipv4 <==> addresses[i].ip.V4?)
              && (results[i].status == Pass <==> attempts[i].Connected?)
              && (results[i].status == Fail <==> !attempts[i].Connected?)
    ensures forall i :: 0 <= i < |results| ==>
              match attempts[i]
              case Connected(ms) =>
                results[i].durationMs == ms && results[i].errorKind == None && results[i].error == None
              case Failed(kind, ms, error) =>
                results[i].durationMs == ms && results[i].errorKind == Some(kind) && results[i].error == Some(error)
              case Expired(ms, error) =>
                results[i].durationMs == ms && results[i].errorKind == Some(TimedOut) && results[i].error == Some(error)
              case Panicked =>
                && results[i].durationMs == 0 && results[i].errorKind == Some(Other)
                && results[i].error == Some("TCP probe task stopped before producing evidence")
  {
    var outcomes := seq(|addresses|, i requires 0 <= i < |addresses| => ConnectOutcome(addresses[i], attempts[i]));
    ghost var schedule;
    results, schedule := CollectAll(addresses, outcomes, FailedTask);
  }

  function SkippedRoute(a: Address): RouteResult {
    RouteResult(Skip, a, None, Some(ToolFailed), Some("route inspection task stopped before producing evidence"))
  }

  /** `inspected[i]` is what inspecting address `i` yields, `None` for a panic. */
  method InspectAll(addresses: seq<Address>, inspected: seq<Option<RouteResult>>) returns (routes: seq<RouteResult>)
    requires |inspected| == |addresses|
    requires forall i :: 0 <= i < |addresses| && inspected[i].Some? ==> inspected[i].value.address == addresses[i]
    ensures |routes| == |addresses|
    ensures forall i :: 0 <= i < |routes| ==>
              && routes[i].address == addresses[i]
              && (inspected[i].Some? ==> routes[i] == inspected[i].value)
              && (inspected[i].None? ==>
                    && routes[i].status == Skip && routes[i].interface == None
                    && routes[i].errorKind == Some(ToolFailed)
                    && routes[i].error == Some("route inspection task stopped before producing evidence"))
  {
    ghost var schedule;
    routes, schedule := CollectAll(addresses, inspected, SkippedRoute);
  }
}
