/** The coalescing of background syncs (queueSync in internal/desktop/bind_sync.go):
    one flag per account, one mutex that every imap session takes, and a goroutine
    per queued sync, as interleaved steps. */
module QueueSync {
  import opened Options

  /** Where a queued sync stands: its flag is set; its goroutine waits for syncMu;
      holds it; has cleared the flag; has released syncMu; has called syncAccount;
      is in the session that takes syncMu again; is over. */
  datatype Stage = Flagged | Waiting | Holding | Cleared | Released | Began | InSession | Over

  datatype Sync = Sync(account: int, stage: Stage)

  datatype Holder = Queued(g: nat) | Elsewhere

  datatype Event = Called(account: int) | BeganSync(account: int)

  /** `history` keeps the queueSync calls and the syncAccount calls made for them. */
  datatype State = State(flags: set<int>, holder: Option<Holder>, syncs: seq<Sync>, history: seq<Event>)

  function Initial(): State {
    State({}, None, [], [])
  }

  datatype Action =
    | Call(account: int)
    | Spawn(g: nat)
    | Lock(g: nat)
    | Clear(g: nat)
    | Unlock(g: nat)
    | Begin(g: nat)
    | Abandon(g: nat)
    | Enter(g: nat)
    | Leave(g: nat)
    | LockElsewhere
    | UnlockElsewhere

  predicate At(s: State, g: nat, stage: Stage) {
    g < |s.syncs| && s.syncs[g].stage == stage
  }

  predicate Enabled(s: State, a: Action) {
    match a
    case Call(_) => true
    case Spawn(g) => At(s, g, Flagged)
    case Lock(g) => At(s, g, Waiting) && s.holder == None
    case Clear(g) => At(s, g, Holding)
    case Unlock(g) => At(s, g, Cleared)
    case Begin(g) => At(s, g, Released)
    case Abandon(g) => At(s, g, Began)
    case Enter(g) => At(s, g, Began) && s.holder == None
    case Leave(g) => At(s, g, InSession)
    case LockElsewhere => s.holder == None
    case UnlockElsewhere => s.holder == Some(Elsewhere)
  }

  function Moved(s: State, g: nat, stage: Stage): State
    requires g < |s.syncs|
  {
    s.(syncs := s.syncs[g := s.syncs[g].(stage := stage)])
  }

  function Apply(s: State, a: Action): State
    requires Enabled(s, a)
  {
    match a
    case Call(account) =>
      var called := s.(history := s.history + [Called(account)]);
      if account in s.flags then called
      else called.(flags := s.flags + {account}, syncs := s.syncs + [Sync(account, Flagged)])
    case Spawn(g) => Moved(s, g, Waiting)
    case Lock(g) => Moved(s, g, Holding).(holder := Some(Queued(g)))
    case Clear(g) => Moved(s, g, Cleared).(flags := s.flags - {s.syncs[g].account})
    case Unlock(g) => Moved(s, g, Released).(holder := None)
    case Begin(g) => Moved(s, g, Began).(history := s.history + [BeganSync(s.syncs[g].account)])
    case Abandon(g) => Moved(s, g, Over)
    case Enter(g) => Moved(s, g, InSession).(holder := Some(Queued(g)))
    case Leave(g) => Moved(s, g, Over).(holder := None)
    case LockElsewhere => s.(holder := Some(Elsewhere))
    case UnlockElsewhere => s.(holder := None)
  }

  // ----- the invariant

  /** Its flag is set and not yet cleared. */
  predicate Pending(y: Sync) {
    y.stage == Flagged || y.stage == Waiting || y.stage == Holding
  }

  /** It is still to call syncAccount. */
  predicate Bound(y: Sync) {
    Pending(y) || y.stage == Cleared || y.stage == Released
  }

  predicate Holds(y: Sync) {
    y.stage == Holding || y.stage == Cleared || y.stage == InSession
  }

  ghost predicate HasPending(s: State, account: int) {
    exists g :: 0 <= g < |s.syncs| && s.syncs[g].account == account && Pending(s.syncs[g])
  }

  ghost predicate HasBound(s: State, account: int) {
    exists g :: 0 <= g < |s.syncs| && s.syncs[g].account == account && Bound(s.syncs[g])
  }

  /** The flag is set exactly when a sync of the account has not yet cleared it. */
  ghost predicate FlagsTell(s: State) {
    forall account :: account in s.flags <==> HasPending(s, account)
  }

  ghost predicate OnePending(s: State) {
    forall g, h :: 0 <= g < |s.syncs| && 0 <= h < |s.syncs| && BothPending(s.syncs[g], s.syncs[h]) ==> g == h
  }

  predicate BothPending(x: Sync, y: Sync) {
    Pending(x) && Pending(y) && x.account == y.account
  }

  ghost predicate Served(s: State, k: int)
    requires 0 <= k < |s.history| && s.history[k].Called?
  {
    HasBound(s, s.history[k].account) || BeginsAfter(s, k, s.history[k].account)
  }

  ghost predicate BeginsAfter(s: State, k: int, account: int) {
    exists j :: 0 <= k < j < |s.history| && s.history[j] == BeganSync(account)
  }

  /** Every call is followed by a sync that begins after it, or one is bound to. */
  ghost predicate AllServed(s: State) {
    forall k :: 0 <= k < |s.history| && s.history[k].Called? ==> Served(s, k)
  }

  /** Exactly the holder holds syncMu. */
  ghost predicate LockTells(s: State) {
    && (forall g :: 0 <= g < |s.syncs| ==> (Holds(s.syncs[g]) <==> s.holder == Some(Queued(g))))
    && (s.holder.Some? && s.holder.value.Queued? ==> s.holder.value.g < |s.syncs|)
  }

  ghost predicate Inv(s: State) {
    FlagsTell(s) && OnePending(s) && AllServed(s) && LockTells(s)
  }

  // ----- every step keeps it

  /** The sync an action moves, if it moves one. */
  function Mover(a: Action): Option<nat> {
    match a
    case Spawn(g) => Some(g)
    case Lock(g) => Some(g)
    case Clear(g) => Some(g)
    case Unlock(g) => Some(g)
    case Begin(g) => Some(g)
    case Abandon(g) => Some(g)
    case Enter(g) => Some(g)
    case Leave(g) => Some(g)
    case _ => None
  }

  /** Calls apart, a step moves at most one sync, and only Clear makes one cease to
      be pending. */
  lemma OneMoves(s: State, a: Action, g: nat)
    requires Enabled(s, a) && !a.Call? && g < |s.syncs|
    ensures |Apply(s, a).syncs| == |s.syncs| && Apply(s, a).syncs[g].account == s.syncs[g].account
    ensures Pending(Apply(s, a).syncs[g]) <==> Pending(s.syncs[g]) && a != Clear(g)
    ensures Bound(Apply(s, a).syncs[g]) <==> Bound(s.syncs[g]) && a != Begin(g)
  {
  }

  /** A sync passes its stages one by one, and only giving up skips one, the session. */
  lemma OneStageAtATime(s: State, a: Action, g: nat)
    requires Enabled(s, a) && g < |s.syncs|
    ensures var x, y := s.syncs[g], Apply(s, a).syncs[g];
            if Mover(a) != Some(g) then y == x
            else Left(y) == Left(x) - if a.Abandon? then 2 else 1
  {
  }

  /** A sync can move exactly while it is not over and does not have to wait for syncMu,
      as it does before it clears its flag, and before its session unless it gives up. */
  lemma MovesExactlyWhen(s: State, g: nat)
    requires g < |s.syncs|
    ensures (exists a :: Mover(a) == Some(g) && Enabled(s, a)) <==>
            s.syncs[g].stage != Over && (s.syncs[g].stage == Waiting ==> s.holder == None)
    ensures Enabled(s, Enter(g)) <==> s.syncs[g].stage == Began && s.holder == None
  {
    assert forall a :: Mover(a) == Some(g) && Enabled(s, a) ==> s.syncs[g].stage != Over;
    match s.syncs[g].stage {
      case Flagged => assert Mover(Spawn(g)) == Some(g);
      case Waiting => assert Mover(Lock(g)) == Some(g);
      case Holding => assert Mover(Clear(g)) == Some(g);
      case Cleared => assert Mover(Unlock(g)) == Some(g);
      case Released => assert Mover(Begin(g)) == Some(g);
      case Began => assert Mover(Abandon(g)) == Some(g);
      case InSession => assert Mover(Leave(g)) == Some(g);
      case Over =>
    }
  }

  /** Something else takes syncMu only when no sync holds it, none takes it while that
      lasts, and afterwards all is as before. */
  lemma ElsewhereExcludes(s: State, a: Action, g: nat)
    requires LockTells(s) && Enabled(s, LockElsewhere) && g < |s.syncs|
    ensures !Holds(s.syncs[g])
    ensures var held := Apply(s, LockElsewhere);
            && (Enabled(held, a) ==> !a.Lock? && !a.Enter? && !a.LockElsewhere?)
            && Enabled(held, UnlockElsewhere) && Apply(held, UnlockElsewhere) == s
  {
  }

  lemma OnePendingKept(s: State, a: Action)
    requires FlagsTell(s) && OnePending(s) && Enabled(s, a)
    ensures OnePending(Apply(s, a))
  {
    var t := Apply(s, a);
    forall g, h | 0 <= g < |t.syncs| && 0 <= h < |t.syncs| && BothPending(t.syncs[g], t.syncs[h]) ensures g == h {
      if a.Call? {
        if g < |s.syncs| <= h || h < |s.syncs| <= g {
          assert HasPending(s, a.account);
        }
      } else {
        OneMoves(s, a, g);
        OneMoves(s, a, h);
        assert BothPending(s.syncs[g], s.syncs[h]);
      }
    }
  }

  lemma FlagsKept(s: State, a: Action)
    requires FlagsTell(s) && OnePending(s) && Enabled(s, a)
    ensures FlagsTell(Apply(s, a))
  {
    var t := Apply(s, a);
    forall account ensures account in t.flags <==> HasPending(t, account) {
      if a.Call? {
        CallFlags(s, a.account, account);
      } else {
        StepFlags(s, a, account);
      }
    }
  }

  lemma CallFlags(s: State, called: int, account: int)
    requires FlagsTell(s)
    ensures var t := Apply(s, Call(called)); account in t.flags <==> HasPending(t, account)
  {
    var t := Apply(s, Call(called));
    if HasPending(s, account) {
      var g :| 0 <= g < |s.syncs| && s.syncs[g].account == account && Pending(s.syncs[g]);
      assert t.syncs[g] == s.syncs[g];
    }
    if called !in s.flags {
      assert t.syncs[|s.syncs|] == Sync(called, Flagged);
    }
  }

  lemma StepFlags(s: State, a: Action, account: int)
    requires FlagsTell(s) && OnePending(s) && Enabled(s, a) && !a.Call?
    ensures var t := Apply(s, a); account in t.flags <==> HasPending(t, account)
  {
    var t := Apply(s, a);
    if HasPending(t, account) {
      var g :| 0 <= g < |t.syncs| && t.syncs[g].account == account && Pending(t.syncs[g]);
      OneMoves(s, a, g);
      assert a.Clear? ==> !BothPending(s.syncs[g], s.syncs[a.g]);
      assert HasPending(s, account);
    } else if HasPending(s, account) {
      var g :| 0 <= g < |s.syncs| && s.syncs[g].account == account && Pending(s.syncs[g]);
      OneMoves(s, a, g);
      assert a == Clear(g);
    }
  }

  lemma ServedKept(s: State, a: Action)
    requires FlagsTell(s) && AllServed(s) && Enabled(s, a)
    ensures AllServed(Apply(s, a))
  {
    var t := Apply(s, a);
    assert s.history <= t.history;
    forall k | 0 <= k < |t.history| && t.history[k].Called? ensures Served(t, k) {
      if k < |s.history| {
        assert Served(s, k);
        StillServed(s, a, k);
      } else {
        CallServed(s, t.history[k].account);
      }
    }
  }

  lemma CallServed(s: State, called: int)
    requires FlagsTell(s)
    ensures HasBound(Apply(s, Call(called)), called)
  {
    var t := Apply(s, Call(called));
    if called in s.flags {
      assert HasPending(s, called);
    } else {
      assert t.syncs[|s.syncs|] == Sync(called, Flagged);
    }
  }

  lemma StillServed(s: State, a: Action, k: int)
    requires Enabled(s, a) && 0 <= k < |s.history| && s.history[k].Called? && Served(s, k)
    ensures k < |Apply(s, a).history| && Apply(s, a).history[k] == s.history[k] && Served(Apply(s, a), k)
  {
    var t, account := Apply(s, a), s.history[k].account;
    assert t.history[k] == s.history[k];
    if BeginsAfter(s, k, account) {
      var j :| k < j < |s.history| && s.history[j] == BeganSync(account);
      assert t.history[j] == BeganSync(account);
    } else {
      var g :| 0 <= g < |s.syncs| && s.syncs[g].account == account && Bound(s.syncs[g]);
      if a == Begin(g) {
        assert t.history[|s.history|] == BeganSync(account);
        assert BeginsAfter(t, k, account);
      } else if a.Call? {
        assert t.syncs[g] == s.syncs[g];
      } else {
        OneMoves(s, a, g);
      }
    }
  }

  lemma StepKeeps(s: State, a: Action)
    requires Inv(s) && Enabled(s, a)
    ensures Inv(Apply(s, a))
  {
    OnePendingKept(s, a);
    FlagsKept(s, a);
    ServedKept(s, a);
  }

  // ----- runs

  predicate Runs(s: State, acts: seq<Action>)
    decreases |acts|
  {
    acts == [] || (Enabled(s, acts[0]) && Runs(Apply(s, acts[0]), acts[1..]))
  }

  function Final(s: State, acts: seq<Action>): State
    requires Runs(s, acts)
    decreases |acts|
  {
    if acts == [] then s else Final(Apply(s, acts[0]), acts[1..])
  }

  lemma {:induction false} RunKeeps(s: State, acts: seq<Action>)
    requires Inv(s) && Runs(s, acts)
    ensures Inv(Final(s, acts))
    decreases |acts|
  {
    if acts != [] {
      StepKeeps(s, acts[0]);
      RunKeeps(Apply(s, acts[0]), acts[1..]);
    }
  }

  /** In every interleaving the flag of an account is set exactly when one of its
      syncs has not cleared it, and never two; and each queueSync call has a
      syncAccount call that begins after it, or a goroutine still bound to make one. */
  lemma NoChangeIsLost(acts: seq<Action>, k: int)
    requires Runs(Initial(), acts)
    ensures var s := Final(Initial(), acts);
            && FlagsTell(s) && OnePending(s)
            && (0 <= k < |s.history| && s.history[k].Called? ==> Served(s, k))
  {
    RunKeeps(Initial(), acts);
  }

  // ----- and what is bound is done

  function Left(y: Sync): nat {
    match y.stage
    case Flagged => 7
    case Waiting => 6
    case Holding => 5
    case Cleared => 4
    case Released => 3
    case Began => 2
    case InSession => 1
    case Over => 0
  }

  function Work(syncs: seq<Sync>): nat {
    if syncs == [] then 0 else Left(syncs[0]) + Work(syncs[1..])
  }

  lemma {:induction false} WorkDrops(syncs: seq<Sync>, g: nat, y: Sync)
    requires g < |syncs| && Left(y) < Left(syncs[g])
    ensures Work(syncs[g := y]) < Work(syncs)
  {
    if g == 0 {
      assert syncs[0 := y][1..] == syncs[1..];
    } else {
      assert syncs[g := y][1..] == syncs[1..][g - 1 := y];
      WorkDrops(syncs[1..], g - 1, y);
    }
  }

  /** No sync is ever stuck: while one is unfinished, and syncMu not held elsewhere,
      some sync can move, and every move of a sync uses up work that only a call
      adds. So once calls stop, every sync bound to begin does. */
  lemma CanMove(s: State, g: nat) returns (a: Action)
    requires Inv(s) && g < |s.syncs| && s.syncs[g].stage != Over && s.holder != Some(Elsewhere)
    ensures Enabled(s, a) && Mover(a).Some?
    ensures Work(Apply(s, a).syncs) < Work(s.syncs)
  {
    var h := if s.holder.Some? then s.holder.value.g else g;
    match s.syncs[h].stage {
      case Flagged => a := Spawn(h);
      case Waiting => a := Lock(h);
      case Holding => a := Clear(h);
      case Cleared => a := Unlock(h);
      case Released => a := Begin(h);
      case Began => a := Enter(h);
      case InSession => a := Leave(h);
    }
    MoverWorks(s, a);
  }

  lemma MoverWorks(s: State, a: Action)
    requires Enabled(s, a) && Mover(a).Some?
    ensures Work(Apply(s, a).syncs) < Work(s.syncs)
  {
    var g := Mover(a).value;
    WorkDrops(s.syncs, g, Apply(s, a).syncs[g]);
  }

  /** From any state of any run the syncs can all be run to their end, after which
      every call made has had a sync that began after it. */
  lemma {:induction false} Drains(s: State) returns (acts: seq<Action>)
    requires Inv(s) && s.holder != Some(Elsewhere)
    ensures Runs(s, acts) && Inv(Final(s, acts)) && Final(s, acts).flags == {}
    ensures forall k ::
      0 <= k < |Final(s, acts).history| && Final(s, acts).history[k].Called? ==> BeginsAfter(Final(s, acts), k, Final(s, acts).history[k].account)
    decreases Work(s.syncs)
  {
    if g: nat :| g < |s.syncs| && s.syncs[g].stage != Over {
      var a := CanMove(s, g);
      StepKeeps(s, a);
      var rest := Drains(Apply(s, a));
      acts := [a] + rest;
      assert acts[1..] == rest;
    } else {
      acts := [];
      assert forall k :: 0 <= k < |s.history| && s.history[k].Called? ==> Served(s, k);
      forall account ensures account !in s.flags {
        assert !HasPending(s, account);
      }
    }
  }
}
