/**
  * Selecting a container's context: resolve its PID, pin the process, resolve again, compare, enter.
  * Between any two of these steps processes may exit, PIDs may be reused and the container may restart.
  */
module ContextPin {
  import opened Wrappers
  import opened ProcessContext

  /** Process incarnations are numbered by birth; `born[k]` is the PID that incarnation `k` got. */
  type Incarnation = nat

  datatype World = World(
    born: seq<nat>, contexts: seq<Context>, alive: set<Incarnation>, init: Option<Incarnation>)

  datatype Phase =
    | Start | Resolved | Pinned | HasNetwork | HasMount | HasRoot | ResolvedAgain | Entering | Done | Failed

  /** A descriptor opened below a pinned process directory: whose it is and what it designates. */
  datatype Descriptor<T> = Descriptor(holder: Incarnation, it: T)

  datatype Client = Client(
    phase: Phase, origin: Context, own: Context,
    pid: nat, first: Incarnation, firstMark: nat,
    pinned: Incarnation,
    network: Option<Descriptor<nat>>, mount: Option<Descriptor<nat>>, root: Option<Descriptor<RootDir>>,
    verifiedPid: nat, second: Incarnation, secondMark: nat,
    checked: bool, remaining: seq<Transition>, applied: seq<Transition>)

  datatype State = State(world: World, client: Client)

  datatype Event =
    // what the system does
    | Spawn(pid: nat, context: Context)
    | StartContainer(pid: nat, context: Context)
    | Exit(incarnation: Incarnation)
    // what the client does; `LeftInRoot` is a change of root whose last call, the change of directory, fails
    | Resolve
    | PinProcess
    | OpenNetwork
    | OpenMount
    | OpenRoot
    | ResolveAgain
    | Verify
    | Transit(landing: nat)
    | Denied
    | LeftInRoot
    | Finish

  predicate Occupies(w: World, i: Incarnation, pid: nat) {
    i in w.alive && i < |w.born| && w.born[i] == pid
  }

  predicate Free(w: World, pid: nat) {
    forall i :: i in w.alive ==> !Occupies(w, i, pid)
  }

  function Occupant(w: World, pid: nat): (i: Incarnation)
    requires WorldInv(w) && !Free(w, pid)
    ensures Occupies(w, i, pid)
  {
    assert forall i, j :: Occupies(w, i, pid) && Occupies(w, j, pid) ==> i == j;
    var i :| i in w.alive && Occupies(w, i, pid);
    i
  }

  /** At most one live process has a PID, and a running container has a live init process. */
  predicate WorldInv(w: World) {
    && |w.born| == |w.contexts|
    && (forall i :: i in w.alive ==> i < |w.born|)
    && (forall i, j :: i in w.alive && j in w.alive && w.born[i] == w.born[j] ==> i == j)
    && (w.init.Some? ==> w.init.value in w.alive)
    && (forall i :: 0 <= i < |w.contexts| ==> WellFormed(w.contexts[i]))
  }

  function Birth(w: World, pid: nat, context: Context, isInit: bool): World {
    World(w.born + [pid], w.contexts + [context], w.alive + {|w.born|},
          if isInit then Some(|w.born|) else w.init)
  }

  function Death(w: World, i: Incarnation): World {
    w.(alive := w.alive - {i}, init := if w.init == Some(i) then None else w.init)
  }

  predicate Enabled(s: State, e: Event) {
    match e
    case Spawn(pid, context) => Free(s.world, pid) && WellFormed(context)
    case StartContainer(pid, context) => Free(s.world, pid) && WellFormed(context) && s.world.init.None? && pid > 0
    case Exit(i) => i in s.world.alive
    case Resolve => s.client.phase == Start
    case PinProcess => s.client.phase == Resolved
    case OpenNetwork => s.client.phase == Pinned
    case OpenMount => s.client.phase == HasNetwork
    case OpenRoot => s.client.phase == HasMount
    case ResolveAgain => s.client.phase == HasRoot
    case Verify => s.client.phase == ResolvedAgain
    case Transit(_) => s.client.phase == Entering && s.client.remaining != []
    case Denied => s.client.phase == Entering && s.client.remaining != []
    case LeftInRoot => s.client.phase == Entering && s.client.remaining != [] && s.client.remaining[0] == ChangeRoot
    case Finish => s.client.phase == Entering && s.client.remaining == []
  }

  function Target(c: Client): Context
    requires c.network.Some? && c.mount.Some? && c.root.Some?
  {
    Context(c.network.value.it, c.mount.value.it, c.root.value.it)
  }

  /** The client after the next transition of its plan. */
  function Advanced(c: Client, landing: nat): Client
    requires c.network.Some? && c.mount.Some? && c.root.Some? && c.remaining != []
  {
    c.(own := Apply(c.own, Target(c), c.remaining[0], landing),
       applied := c.applied + [c.remaining[0]], remaining := c.remaining[1..])
  }

  /** The client's step; opening below the pinned directory fails once that process is gone. */
  function ClientStep(w: World, c: Client, e: Event): Client
    requires WorldInv(w) && ClientInv(w, c) && Enabled(State(w, c), e)
  {
    var failed := c.(phase := Failed);
    match e
    case Resolve =>
      if w.init.None? then failed
      else c.(phase := Resolved, pid := w.born[w.init.value], first := w.init.value, firstMark := |w.born|)
    case PinProcess =>
      if Free(w, c.pid) then failed else c.(phase := Pinned, pinned := Occupant(w, c.pid))
    case OpenNetwork =>
      if c.pinned !in w.alive then failed
      else c.(phase := HasNetwork, network := Some(Descriptor(c.pinned, w.contexts[c.pinned].network)))
    case OpenMount =>
      if c.pinned !in w.alive then failed
      else c.(phase := HasMount, mount := Some(Descriptor(c.pinned, w.contexts[c.pinned].mount)))
    case OpenRoot =>
      if c.pinned !in w.alive then failed
      else c.(phase := HasRoot, root := Some(Descriptor(c.pinned, w.contexts[c.pinned].root)))
    case ResolveAgain =>
      if w.init.None? then failed
      else
        c.(phase := ResolvedAgain, verifiedPid := w.born[w.init.value], second := w.init.value, secondMark := |w.born|)
    case Verify =>
      if c.verifiedPid != c.pid then failed
      else c.(phase := Entering, checked := true, remaining := Plan(Prepare(c.own, Target(c))))
    case Transit(landing) => Advanced(c, landing)
    case Denied => failed
    case LeftInRoot => Advanced(c, 0).(phase := Failed)
    case Finish => c.(phase := Done)
    case _ => c
  }

  function Step(s: State, e: Event): State
    requires WorldInv(s.world) && ClientInv(s.world, s.client) && Enabled(s, e)
  {
    match e
    case Spawn(pid, context) => s.(world := Birth(s.world, pid, context, false))
    case StartContainer(pid, context) => s.(world := Birth(s.world, pid, context, true))
    case Exit(i) => s.(world := Death(s.world, i))
    case _ => s.(client := ClientStep(s.world, s.client, e))
  }

  function Rank(p: Phase): nat {
    match p
    case Start => 0 case Resolved => 1 case Pinned => 2 case HasNetwork => 3 case HasMount => 4
    case HasRoot => 5 case ResolvedAgain => 6 case Entering => 7 case Done => 8 case Failed => 9
  }

  predicate Past(c: Client, p: Phase) {
    Rank(p) <= Rank(c.phase) && c.phase != Failed
  }

  /** Some process was given the PID between two points of the birth record. */
  predicate Reused(w: World, pid: nat, from: nat, to: nat) {
    exists k :: from <= k < to && k < |w.born| && w.born[k] == pid
  }

  predicate ClientInv(w: World, c: Client) {
    && WellFormed(c.origin)
    && (Past(c, Resolved) ==> ResolvedInv(w, c))
    && (Past(c, Pinned) ==> PinnedInv(w, c))
    && (Past(c, HasNetwork) ==> c.network == Some(Descriptor(c.pinned, w.contexts[c.pinned].network)))
    && (Past(c, HasMount) ==> c.mount == Some(Descriptor(c.pinned, w.contexts[c.pinned].mount)))
    && (Past(c, HasRoot) ==> c.root == Some(Descriptor(c.pinned, w.contexts[c.pinned].root)))
    && (Past(c, ResolvedAgain) ==> ResolvedAgainInv(w, c))
    && (Past(c, Entering) ==> c.checked)
    && (c.checked ==>
          && PinnedInv(w, c) && c.verifiedPid == c.pid
          && EnteringInv(c.origin, w.contexts[c.pinned], c))
    && (!c.checked ==> c.own == c.origin && c.applied == [])
    && (c.phase == Done ==> c.remaining == [])
    && (c.phase == Entering || c.phase == Done || c.phase == Failed || !c.checked)
  }

  /** What has been applied so far is a prefix of the plan, and determines the client's context. */
  predicate EnteringInv(origin: Context, target: Context, c: Client) {
    && c.applied + c.remaining == Plan(Prepare(origin, target))
    && c.own.network == (if EnterNetwork in c.applied then target.network else origin.network)
    && c.own.mount == (if EnterMount in c.applied then target.mount else origin.mount)
    && (ChangeRoot in c.applied ==> c.own.root == target.root)
    && (ChangeRoot !in c.applied ==>
          if EnterMount in c.applied then c.own.root.mount == target.mount else c.own.root == origin.root)
  }

  /** Whoever was born before the first resolution and still holds the PID is the init process seen then. */
  predicate ResolvedInv(w: World, c: Client) {
    && c.first < c.firstMark <= |w.born|
    && w.born[c.first] == c.pid
    && (forall k :: 0 <= k < c.firstMark && Occupies(w, k, c.pid) ==> k == c.first)
    && (Reused(w, c.pid, c.firstMark, |w.born|) ==> c.first !in w.alive)
  }

  predicate PinnedInv(w: World, c: Client) {
    && c.pinned < |w.born| && c.pinned < |w.contexts|
    && w.born[c.pinned] == c.pid
    && (c.pinned < c.firstMark ==> c.pinned == c.first)
  }

  predicate ResolvedAgainInv(w: World, c: Client) {
    && c.second < c.secondMark && c.firstMark <= c.secondMark <= |w.born|
    && c.pinned < c.secondMark
    && w.born[c.second] == c.verifiedPid
    && (c.verifiedPid == c.pid && c.second < c.firstMark ==> c.second == c.first)
    && (Reused(w, c.pid, c.firstMark, c.secondMark) ==> c.second != c.first)
  }

  // ----- Every run -----------------------------------------------------------------------

  function Initial(own: Context): State {
    var none := Client(Start, own, own, 0, 0, 0, 0, None, None, None, 0, 0, 0, false, [], []);
    State(World([], [], {}, None), none)
  }

  lemma BirthKeepsInv(s: State, pid: nat, context: Context, isInit: bool)
    requires WorldInv(s.world) && ClientInv(s.world, s.client)
    requires Free(s.world, pid) && WellFormed(context)
    ensures WorldInv(Birth(s.world, pid, context, isInit))
    ensures ClientInv(Birth(s.world, pid, context, isInit), s.client)
  {
    hide EnteringInv;
    var w, w', c := s.world, Birth(s.world, pid, context, isInit), s.client;
    forall i, j | i in w'.alive && j in w'.alive && w'.born[i] == w'.born[j] ensures i == j {
      assert i in w.alive ==> !Occupies(w, i, pid);
      assert j in w.alive ==> !Occupies(w, j, pid);
    }
    if Past(c, Resolved) {
      forall k | 0 <= k < c.firstMark && Occupies(w', k, c.pid) ensures k == c.first {
        assert Occupies(w, k, c.pid);
      }
      if Reused(w', c.pid, c.firstMark, |w'.born|) {
        assert c.first in w.alive ==> Occupies(w, c.first, c.pid);
        if pid != c.pid {
          var k :| c.firstMark <= k < |w'.born| && w'.born[k] == c.pid;
          assert w.born[k] == c.pid;
        }
      }
    }
    if Past(c, ResolvedAgain) && Reused(w', c.pid, c.firstMark, c.secondMark) {
      assert Reused(w, c.pid, c.firstMark, c.secondMark);
    }
  }

  lemma DeathKeepsInv(s: State, i: Incarnation)
    requires WorldInv(s.world) && ClientInv(s.world, s.client) && i in s.world.alive
    ensures WorldInv(Death(s.world, i)) && ClientInv(Death(s.world, i), s.client)
  {
    var w, w', c := s.world, Death(s.world, i), s.client;
    if Past(c, Resolved) {
      forall k | 0 <= k < c.firstMark && Occupies(w', k, c.pid) ensures k == c.first {
        assert Occupies(w, k, c.pid);
      }
    }
  }

  lemma ResolveKeepsInv(w: World, c: Client)
    requires WorldInv(w) && ClientInv(w, c) && (c.phase == Start || c.phase == HasRoot)
    ensures c.phase == Start ==> ClientInv(w, ClientStep(w, c, Resolve))
    ensures c.phase == HasRoot ==> ClientInv(w, ClientStep(w, c, ResolveAgain))
  {
    hide EnteringInv;
    if w.init.Some? {
      var pid := w.born[w.init.value];
      assert Occupies(w, w.init.value, pid);
      assert forall k :: Occupies(w, k, pid) ==> k == w.init.value;
    }
  }

  lemma EnteringContinues(origin: Context, target: Context, c: Client, c': Client, landing: nat)
    requires EnteringInv(origin, target, c) && c.remaining != []
    requires c'.own == Apply(c.own, target, c.remaining[0], landing)
    requires c'.applied == c.applied + [c.remaining[0]] && c'.remaining == c.remaining[1..]
    ensures EnteringInv(origin, target, c')
  {
    var plan, t := Plan(Prepare(origin, target)), c.remaining[0];
    assert c'.applied + c'.remaining == c.applied + c.remaining;
    assert plan[|c.applied|] == t;
    if t == EnterMount {
      assert |c.applied| == 0;
    }
  }

  lemma TransitKeepsInv(w: World, c: Client, landing: nat)
    requires WorldInv(w) && ClientInv(w, c) && c.phase == Entering && c.remaining != []
    ensures ClientInv(w, ClientStep(w, c, Transit(landing)))
  {
    EnteringContinues(c.origin, w.contexts[c.pinned], c, ClientStep(w, c, Transit(landing)), landing);
  }

  lemma LeftInRootKeepsInv(w: World, c: Client)
    requires WorldInv(w) && ClientInv(w, c) && Enabled(State(w, c), LeftInRoot)
    ensures ClientInv(w, ClientStep(w, c, LeftInRoot))
  {
    EnteringContinues(c.origin, w.contexts[c.pinned], c, ClientStep(w, c, LeftInRoot), 0);
  }

  lemma OpenKeepsInv(w: World, c: Client, e: Event)
    requires WorldInv(w) && ClientInv(w, c) && Enabled(State(w, c), e)
    requires e == PinProcess || e == OpenNetwork || e == OpenMount || e == OpenRoot
    ensures ClientInv(w, ClientStep(w, c, e))
  {
    hide EnteringInv;
  }

  lemma VerifyKeepsInv(w: World, c: Client)
    requires WorldInv(w) && ClientInv(w, c) && c.phase == ResolvedAgain
    ensures ClientInv(w, ClientStep(w, c, Verify))
  {
    if c.verifiedPid == c.pid {
      assert [] + Plan(Prepare(c.own, Target(c))) == Plan(Prepare(c.own, Target(c)));
    }
  }

  lemma StopKeepsInv(w: World, c: Client, e: Event)
    requires WorldInv(w) && ClientInv(w, c) && Enabled(State(w, c), e)
    requires e == Denied || e == Finish
    ensures ClientInv(w, ClientStep(w, c, e))
  {
  }

  lemma ClientStepKeepsInv(w: World, c: Client, e: Event)
    requires WorldInv(w) && ClientInv(w, c) && Enabled(State(w, c), e)
    requires !e.Spawn? && !e.StartContainer? && !e.Exit?
    ensures ClientInv(w, ClientStep(w, c, e))
  {
    hide ClientInv, ClientStep;
    match e
    case Resolve => ResolveKeepsInv(w, c);
    case ResolveAgain => ResolveKeepsInv(w, c);
    case Transit(landing) => TransitKeepsInv(w, c, landing);
    case Verify => VerifyKeepsInv(w, c);
    case Denied => StopKeepsInv(w, c, e);
    case LeftInRoot => LeftInRootKeepsInv(w, c);
    case Finish => StopKeepsInv(w, c, e);
    case _ => OpenKeepsInv(w, c, e);
  }

  lemma StepKeepsInv(s: State, e: Event)
    requires WorldInv(s.world) && ClientInv(s.world, s.client) && Enabled(s, e)
    ensures WorldInv(Step(s, e).world) && ClientInv(Step(s, e).world, Step(s, e).client)
  {
    hide ClientInv, ClientStep, Birth, Death;
    match e
    case Spawn(pid, context) => BirthKeepsInv(s, pid, context, false);
    case StartContainer(pid, context) => BirthKeepsInv(s, pid, context, true);
    case Exit(i) => DeathKeepsInv(s, i);
    case _ => ClientStepKeepsInv(s.world, s.client, e);
  }

  /** The state after an interleaving of system and client steps, if each was possible in turn. */
  function Execute(own: Context, events: seq<Event>): (s: Option<State>)
    requires WellFormed(own)
    ensures s.Some? ==> WorldInv(s.value.world) && ClientInv(s.value.world, s.value.client)
    ensures s.Some? ==> s.value.client.origin == own
  {
    if events == [] then Some(Initial(own))
    else
      var before, e := Execute(own, events[..|events| - 1]), events[|events| - 1];
      if before.Some? && Enabled(before.value, e) then
        StepKeepsInv(before.value, e);
        Some(Step(before.value, e))
      else None
  }

  /** All three descriptors come from the one incarnation that was pinned under the resolved PID. */
  lemma {:induction false} DescriptorsFromOneIncarnation(own: Context, events: seq<Event>, w: World, c: Client)
    requires WellFormed(own) && Execute(own, events) == Some(State(w, c))
    requires Past(c, HasRoot)
    ensures c.network.Some? && c.mount.Some? && c.root.Some?
    ensures c.network.value.holder == c.mount.value.holder == c.root.value.holder == c.pinned
    ensures c.pinned < |w.born| == |w.contexts| && w.born[c.pinned] == c.pid && Target(c) == w.contexts[c.pinned]
  {
    hide Execute;
  }

  /** Nothing irreversible happens before the second resolution has confirmed the PID. */
  lemma {:induction false} NothingEnteredUnchecked(own: Context, events: seq<Event>, w: World, c: Client)
    requires WellFormed(own) && Execute(own, events) == Some(State(w, c))
    ensures c.applied != [] || c.own != own ==> c.checked && c.verifiedPid == c.pid
    ensures c.checked ==> c.applied <= Plan(Prepare(own, w.contexts[c.pinned]))
  {
    hide Execute;
    if c.checked {
      assert c.applied + c.remaining == Plan(Prepare(own, w.contexts[c.pinned]));
    }
  }

  /** When the pinned process shares the client's own context, entering it cannot fail and changes nothing. */
  lemma {:induction false} SameContextCannotFail(own: Context, events: seq<Event>, w: World, c: Client, e: Event)
    requires WellFormed(own) && Execute(own, events) == Some(State(w, c))
    requires c.phase == Entering && c.pinned < |w.contexts| && w.contexts[c.pinned] == own
    requires Enabled(State(w, c), e)
    ensures Step(State(w, c), e).client.phase != Failed && Step(State(w, c), e).client.own == own
  {
    hide Execute, Birth, Death, WorldInv, ResolvedInv, ResolvedAgainInv;
    PlanIsNeeded(own, own);
    assert c.applied + c.remaining == [];
    assert c.own.network == own.network && c.own.mount == own.mount && c.own.root == own.root;
  }

  /** A completed run leaves the client in exactly the pinned process's context. */
  lemma {:induction false} DoneReachesPinnedContext(own: Context, events: seq<Event>, w: World, c: Client)
    requires WellFormed(own) && Execute(own, events) == Some(State(w, c))
    requires c.phase == Done
    ensures c.own == w.contexts[c.pinned] && c.applied == Plan(Prepare(own, w.contexts[c.pinned]))
  {
    hide Execute;
    var plan := Plan(Prepare(own, w.contexts[c.pinned]));
    assert c.applied + [] == c.applied;
    var target := w.contexts[c.pinned];
    assert own.mount != target.mount ==> plan[0] == EnterMount;
    assert Prepare(own, target).rootChanged ==> ChangeRoot in plan;
    assert own.network != target.network ==> plan[|plan| - 1] == EnterNetwork;
  }

  /**
    * Equal PIDs alone prove nothing: the pinned process is the container's init at both
    * resolutions exactly when no process was given that PID in between.
    */
  lemma {:induction false} PinnedIsInitIffPidNotReused(own: Context, events: seq<Event>, w: World, c: Client)
    requires WellFormed(own) && Execute(own, events) == Some(State(w, c))
    requires Past(c, Entering)
    ensures c.first == c.pinned == c.second <==> !Reused(w, c.pid, c.firstMark, c.secondMark)
  {
    hide Execute;
    if !Reused(w, c.pid, c.firstMark, c.secondMark) {
      assert c.pinned < c.firstMark;
      assert c.second < c.firstMark;
    }
  }

  lemma Advance(own: Context, events: seq<Event>, s: State, e: Event) returns (events': seq<Event>, s': State)
    requires WellFormed(own) && Execute(own, events) == Some(s) && Enabled(s, e)
    ensures events' == events + [e] && Execute(own, events') == Some(s')
    ensures WorldInv(s.world) && ClientInv(s.world, s.client) && s' == Step(s, e)
  {
    events' := events + [e];
    assert events'[..|events|] == events;
    s' := Step(s, e);
  }

  /** The container's init process 0 is resolved as PID 7, exits, and a stranger 1 with PID 7 is pinned. */
  lemma StrangerPinned(own: Context, x: Context) returns (events: seq<Event>, s: State)
    requires WellFormed(own) && WellFormed(x)
    ensures Execute(own, events) == Some(s)
    ensures s.world == World([7, 7], [x, x], {1}, None)
    ensures s.client.phase == Pinned && s.client.pid == 7 && s.client.first == 0 && s.client.pinned == 1
  {
    events, s := [], Initial(own);
    assert Execute(own, events) == Some(s);
    hide Execute;
    events, s := Advance(own, events, s, StartContainer(7, x));
    assert s.world.alive == {0};
    events, s := Advance(own, events, s, Resolve);
    events, s := Advance(own, events, s, Exit(0));
    assert s.world.alive == {};
    events, s := Advance(own, events, s, Spawn(7, x));
    assert s.world.alive == {1} && Occupies(s.world, 1, 7);
    events, s := Advance(own, events, s, PinProcess);
  }

  lemma StrangerOpened(own: Context, events: seq<Event>, s: State) returns (events': seq<Event>, s': State)
    requires WellFormed(own) && Execute(own, events) == Some(s)
    requires s.client.phase == Pinned && s.client.pinned in s.world.alive
    ensures Execute(own, events') == Some(s') && s'.world == s.world
    ensures s'.client.phase == HasRoot && s'.client.pid == s.client.pid
    ensures s'.client.first == s.client.first && s'.client.pinned == s.client.pinned
  {
    hide Execute;
    events', s' := Advance(own, events, s, OpenNetwork);
    events', s' := Advance(own, events', s', OpenMount);
    events', s' := Advance(own, events', s', OpenRoot);
  }

  /**
    * Two restarts around the pinning: both resolutions answer 7, the check passes, and what is
    * pinned is a stranger that had the PID for a while.
    */
  lemma ReusedPidDeceivesTheCheck(own: Context, x: Context) returns (events: seq<Event>, s: State)
    requires WellFormed(own) && WellFormed(x)
    ensures Execute(own, events) == Some(s) && Past(s.client, Entering)
    ensures s.client.pinned != s.client.first && s.client.pinned != s.client.second
  {
    hide Execute;
    events, s := StrangerPinned(own, x);
    events, s := StrangerOpened(own, events, s);
    events, s := Advance(own, events, s, Exit(1));
    assert s.world.alive == {};
    events, s := Advance(own, events, s, StartContainer(7, x));
    events, s := Advance(own, events, s, ResolveAgain);
    assert s.client.second == 2 && s.client.verifiedPid == 7;
    events, s := Advance(own, events, s, Verify);
  }
}
