/** Comparing two execution contexts and entering the other one, one irreversible step at a time. */
module ProcessContext {

  /** A root directory: its identity on disk only means something inside a mount namespace. */
  datatype RootDir = RootDir(mount: nat, inode: nat)

  datatype Context = Context(network: nat, mount: nat, root: RootDir)

  /** A process sees its root through its own mount namespace. */
  predicate WellFormed(c: Context) {
    c.root.mount == c.mount
  }

  datatype Transition = EnterMount | ChangeRoot | EnterNetwork

  /** The pinned target and what has to change to get there. */
  datatype Prepared = Prepared(target: Context, networkChanged: bool, mountChanged: bool, rootChanged: bool)

  /** Namespaces and roots are compared by device and inode. */
  function Prepare(current: Context, target: Context): Prepared {
    var mountChanged := current.mount != target.mount;
    Prepared(target, current.network != target.network, mountChanged,
             mountChanged || current.root.inode != target.root.inode)
  }

  /** The transitions still to make, in the order in which they are made. */
  function Plan(p: Prepared): seq<Transition> {
    (if p.mountChanged then [EnterMount] else [])
    + (if p.rootChanged then [ChangeRoot] else [])
    + (if p.networkChanged then [EnterNetwork] else [])
  }

  /** One transition; entering a mount namespace also moves the root to wherever that one has it. */
  function Apply(c: Context, target: Context, t: Transition, landing: nat): Context {
    match t
    case EnterMount => Context(c.network, target.mount, RootDir(target.mount, landing))
    case ChangeRoot => Context(c.network, c.mount, target.root)
    case EnterNetwork => Context(target.network, c.mount, c.root)
  }

  function ApplyAll(c: Context, target: Context, ts: seq<Transition>, landing: nat): Context {
    if ts == [] then c
    else Apply(ApplyAll(c, target, ts[..|ts| - 1], landing), target, ts[|ts| - 1], landing)
  }

  lemma {:induction false} ApplyAllNext(c: Context, target: Context, ts: seq<Transition>, t: Transition, landing: nat)
    ensures ApplyAll(c, target, ts + [t], landing) == Apply(ApplyAll(c, target, ts, landing), target, t, landing)
  {
    assert (ts + [t])[..|ts|] == ts;
  }

  lemma {:induction false} NothingApplied(c: Context, target: Context, landing: nat)
    ensures ApplyAll(c, target, [], landing) == c
  {
  }

  /** Each part of the context is the target's once its transition was made, and the caller's own before. */
  lemma {:induction false} PartsApplied(c: Context, target: Context, ts: seq<Transition>, landing: nat)
    requires forall i :: 0 < i < |ts| ==> ts[i] != EnterMount
    ensures var reached := ApplyAll(c, target, ts, landing);
            && reached.network == (if EnterNetwork in ts then target.network else c.network)
            && reached.mount == (if EnterMount in ts then target.mount else c.mount)
            && reached.root == (if ChangeRoot in ts then target.root
                                else if EnterMount in ts then RootDir(target.mount, landing)
                                else c.root)
    decreases |ts|
  {
    if ts != [] {
      var front, last := ts[..|ts| - 1], ts[|ts| - 1];
      assert ts == front + [last];
      PartsApplied(c, target, front, landing);
      if last == EnterMount { assert front == []; }
    }
  }

  /** The whole plan leads exactly to the target, wherever the mount namespace puts the root. */
  lemma {:induction false} PlanReachesTarget(current: Context, target: Context, landing: nat)
    requires WellFormed(current) && WellFormed(target)
    ensures ApplyAll(current, target, Plan(Prepare(current, target)), landing) == target
  {
    var p := Prepare(current, target);
    var a := if p.mountChanged then [EnterMount] else [];
    var b := a + if p.rootChanged then [ChangeRoot] else [];
    assert Plan(p) == b + if p.networkChanged then [EnterNetwork] else [];
    assert a + [] == a && b + [] == b;
    if p.mountChanged { ApplyAllNext(current, target, [], EnterMount, landing); }
    if p.rootChanged { ApplyAllNext(current, target, a, ChangeRoot, landing); }
    if p.networkChanged { ApplyAllNext(current, target, b, EnterNetwork, landing); }
  }

  /** Only what differs is entered: each transition is planned exactly when that part of the contexts differs. */
  lemma PlanIsNeeded(current: Context, target: Context)
    requires WellFormed(current) && WellFormed(target)
    ensures var plan := Plan(Prepare(current, target));
            && (EnterNetwork in plan <==> current.network != target.network)
            && (EnterMount in plan <==> current.mount != target.mount)
            && (ChangeRoot in plan <==> current.root != target.root)
            && (plan == [] <==> current == target)
  {
    var plan := Plan(Prepare(current, target));
    assert plan != [] ==> plan[0] in plan;
  }

  /** No transition is planned twice, a mount namespace is entered first and a network namespace last. */
  lemma PlanIsOrdered(current: Context, target: Context)
    ensures var plan := Plan(Prepare(current, target));
            && (forall i, j :: 0 <= i < j < |plan| ==> plan[i] != plan[j])
            && (EnterMount in plan ==> plan[0] == EnterMount)
            && (EnterNetwork in plan ==> plan[|plan| - 1] == EnterNetwork)
  {
  }

  /**
    * A differing mount namespace always forces the change of root. After entering it alone, the root is the
    * target's only if the namespace happens to put it there, whether or not the inodes matched before.
    */
  lemma {:induction false} SameInodeIsNotSameRoot(current: Context, target: Context, landing: nat)
    requires WellFormed(target) && current.mount != target.mount
    ensures Prepare(current, target).rootChanged
    ensures ApplyAll(current, target, [EnterMount], landing).root == target.root <==> landing == target.root.inode
  {
    ApplyAllNext(current, target, [], EnterMount, landing);
    assert [] + [EnterMount] == [EnterMount];
  }

  /** The three system calls of changing the root; the root has changed once the second succeeds. */
  datatype RootCalls = RootCalls(fchdir: bool, chroot: bool, chdir: bool)

  /** The calling process, whose context the kernel changes one call at a time. */
  class Caller {
    var context: Context
    var applied: seq<Transition>

    constructor (c: Context)
      ensures context == c && applied == []
    {
      context := c;
      applied := [];
    }

    /** The context is what the transitions recorded so far have made of `start`. */
    ghost predicate Tracks(start: Context, target: Context, landing: nat)
      reads this
    {
      context == ApplyAll(start, target, applied, landing)
    }

    method EnterNamespace(t: Transition, target: Context, landing: nat, permitted: bool, ghost start: Context)
      returns (ok: bool)
      requires Tracks(start, target, landing) && t != ChangeRoot
      modifies this
      ensures Tracks(start, target, landing)
      ensures ok == permitted && applied == old(applied) + if ok then [t] else []
    {
      if permitted {
        ApplyAllNext(start, target, applied, t, landing);
        context := Apply(context, target, t, landing);
        applied := applied + [t];
      }
      return permitted;
    }

    method MoveRoot(target: Context, landing: nat, calls: RootCalls, ghost start: Context) returns (ok: bool)
      requires Tracks(start, target, landing)
      modifies this
      ensures Tracks(start, target, landing)
      ensures ok <==> calls == RootCalls(true, true, true)
      ensures applied == old(applied) + if calls.fchdir && calls.chroot then [ChangeRoot] else []
    {
      if !calls.fchdir { return false; }
      if !calls.chroot { return false; }
      ApplyAllNext(start, target, applied, ChangeRoot, landing);
      context := Apply(context, target, ChangeRoot, landing);
      applied := applied + [ChangeRoot];
      return calls.chdir;
    }

    /**
      * Enter the prepared context; the flags say which kernel calls succeed. The result is the target
      * context, or a failure after a prefix of mount, root, network. That prefix is the whole plan only
      * when changing the root came last and its final change of directory failed.
      */
    method EnterWith(p: Prepared, landing: nat, mayMount: bool, root: RootCalls, mayNetwork: bool) returns (ok: bool)
      requires WellFormed(context) && WellFormed(p.target) && p == Prepare(context, p.target)
      requires applied == []
      modifies this
      ensures ok <==>
                && (old(context).mount != p.target.mount ==> mayMount)
                && (old(context).root != p.target.root ==> root == RootCalls(true, true, true))
                && (old(context).network != p.target.network ==> mayNetwork)
      ensures ok ==> context == p.target && applied == Plan(p)
      ensures !ok ==>
                || applied < Plan(p)
                || (applied == Plan(p) && old(context).root != p.target.root
                    && old(context).network == p.target.network && root == RootCalls(true, true, false))
      ensures context.network == if EnterNetwork in applied then p.target.network else old(context).network
      ensures context.mount == if EnterMount in applied then p.target.mount else old(context).mount
      ensures context.root ==
                if ChangeRoot in applied then p.target.root
                else if EnterMount in applied then RootDir(p.target.mount, landing)
                else old(context).root
      ensures old(context) == p.target ==> ok && applied == []
      ensures old(context).network == p.target.network ==> EnterNetwork !in applied
      ensures old(context).mount == p.target.mount ==> EnterMount !in applied
      ensures old(context).root == p.target.root ==> ChangeRoot !in applied
    {
      hide ApplyAll, Apply;
      PlanIsNeeded(context, p.target);
      ghost var start := context;
      PlanReachesTarget(context, p.target, landing);
      NothingApplied(start, p.target, landing);
      if p.mountChanged {
        ok := EnterNamespace(EnterMount, p.target, landing, mayMount, start);
        PartsApplied(start, p.target, applied, landing);
        if !ok { return; }
      }
      if p.rootChanged {
        ok := MoveRoot(p.target, landing, root, start);
        PartsApplied(start, p.target, applied, landing);
        if !ok { return; }
      }
      if p.networkChanged {
        ok := EnterNamespace(EnterNetwork, p.target, landing, mayNetwork, start);
        PartsApplied(start, p.target, applied, landing);
        if !ok { return; }
      }
      assert applied == Plan(p);
      ok := true;
    }
  }
}
