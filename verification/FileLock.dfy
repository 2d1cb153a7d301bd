/**
  The authority file's lock: any number of processes create a token file exclusively and link it to the lock's name, and
  remove the token and then the link to unlock. A lock call that finds an old token first breaks the lock: it removes the
  token and then the link, whosever they are by then. Each step is one system call; steps of processes interleave freely.
 */
module FileLock {

  /** Where a process is. `Judged` found the token old and `Cleared` has removed it; `Trying` is the head of the retry
      loop, and `created` says that the exclusive create succeeded. */
  datatype Process =
    | Outside
    | Judged(retries: nat)
    | Cleared(retries: nat)
    | Trying(created: bool, retries: nat)
    | Linking(retries: nat)
    | Holding
    | Unlinking

  datatype State = State(token: bool, link: bool, procs: seq<Process>)

  datatype Action =
    | Begin(p: nat, retries: nat)
    | Judge(p: nat, retries: nat)
    | CutToken(p: nat)
    | CutLink(p: nat)
    | Create(p: nat)
    | Refused(p: nat)
    | Relink(p: nat)
    | Link(p: nat)
    | Recreate(p: nat)
    | LinkExists(p: nat)
    | Fail(p: nat)
    | TimeOut(p: nat)
    | RemoveToken(p: nat)
    | RemoveLink(p: nat)

  predicate At(s: State, p: nat, q: Process) {
    p < |s.procs| && s.procs[p] == q
  }

  predicate IsJudged(s: State, p: nat) {
    p < |s.procs| && s.procs[p].Judged?
  }

  predicate IsCleared(s: State, p: nat) {
    p < |s.procs| && s.procs[p].Cleared?
  }

  predicate IsTrying(s: State, p: nat) {
    p < |s.procs| && s.procs[p].Trying?
  }

  predicate IsLinking(s: State, p: nat) {
    p < |s.procs| && s.procs[p].Linking?
  }

  predicate Enabled(s: State, a: Action) {
    match a
    // there is no token or it is not old, or it is; which tokens are old is arbitrary
    case Begin(p, _) => At(s, p, Outside)
    case Judge(p, _) => At(s, p, Outside) && s.token
    case CutToken(p) => IsJudged(s, p)
    case CutLink(p) => IsCleared(s, p)
    case Create(p) => IsTrying(s, p) && s.procs[p].retries > 0 && !s.procs[p].created && !s.token
    // the create fails because the token exists, or for lack of permission
    case Refused(p) => IsTrying(s, p) && s.procs[p].retries > 0 && !s.procs[p].created
    case Relink(p) => IsTrying(s, p) && s.procs[p].retries > 0 && s.procs[p].created
    case Link(p) => IsLinking(s, p) && s.token && !s.link
    case Recreate(p) => IsLinking(s, p) && !s.token
    case LinkExists(p) => IsLinking(s, p) && s.token && s.link
    case Fail(p) => IsLinking(s, p) || (IsTrying(s, p) && s.procs[p].retries > 0 && !s.procs[p].created)
    case TimeOut(p) => IsTrying(s, p) && s.procs[p].retries == 0
    case RemoveToken(p) => At(s, p, Holding)
    case RemoveLink(p) => At(s, p, Unlinking)
  }

  function Move(s: State, p: nat, q: Process): (t: State)
    requires p < |s.procs|
  {
    s.(procs := s.procs[p := q])
  }

  /** One system call of one process, with what it does next. */
  function Do(s: State, a: Action): (t: State)
    requires Enabled(s, a)
  {
    match a
    case Begin(p, retries) => Move(s, p, Trying(false, retries))
    case Judge(p, retries) => Move(s, p, Judged(retries))
    case CutToken(p) => Move(s.(token := false), p, Cleared(s.procs[p].retries))
    case CutLink(p) => Move(s.(link := false), p, Trying(false, s.procs[p].retries))
    case Create(p) => Move(s.(token := true), p, Linking(s.procs[p].retries))
    case Refused(p) => Move(s, p, Trying(false, s.procs[p].retries - 1))
    case Relink(p) => Move(s, p, Linking(s.procs[p].retries))
    case Link(p) => Move(s.(link := true), p, Holding)
    case Recreate(p) => Move(s, p, Trying(false, s.procs[p].retries))
    case LinkExists(p) => Move(s, p, Trying(true, if s.procs[p].retries > 0 then s.procs[p].retries - 1 else 0))
    case Fail(p) => Move(s, p, Outside)
    case TimeOut(p) => Move(s, p, Outside)
    case RemoveToken(p) => Move(s.(token := false), p, Unlinking)
    case RemoveLink(p) => Move(s.(link := false), p, Outside)
  }

  ghost predicate Start(s: State) {
    !s.token && !s.link && forall p :: 0 <= p < |s.procs| ==> s.procs[p] == Outside
  }

  /** Steps of any processes from any state. */
  ghost predicate Continues(ss: seq<State>, acts: seq<Action>) {
    && |ss| == |acts| + 1
    && forall i :: 0 <= i < |acts| ==> Enabled(ss[i], acts[i]) && ss[i + 1] == Do(ss[i], acts[i])
  }

  ghost predicate IsRun(ss: seq<State>, acts: seq<Action>) {
    Continues(ss, acts) && Start(ss[0])
  }

  /** From the success of the lock call to the removal of the link. */
  predicate InSpan(s: State, p: int) {
    0 <= p < |s.procs| && (s.procs[p].Holding? || s.procs[p].Unlinking?)
  }

  /** Its token file has not been removed again. */
  predicate Owns(s: State, p: int) {
    0 <= p < |s.procs| && (s.procs[p].Linking? || s.procs[p].Holding? || (s.procs[p].Trying? && s.procs[p].created))
  }

  ghost predicate OneInSpan(s: State) {
    forall p, q :: InSpan(s, p) && InSpan(s, q) ==> p == q
  }

  /** The link's part of the invariant. */
  ghost predicate SpanInv(s: State) {
    OneInSpan(s) && (s.link <==> exists p :: InSpan(s, p))
  }

  ghost predicate Inv(s: State) {
    && SpanInv(s)
    && (forall p, q :: Owns(s, p) && Owns(s, q) ==> p == q)
    && (forall p :: Owns(s, p) ==> s.token)
  }

  /** The process a step belongs to; every other process stays where it is. */
  function Who(a: Action): (p: nat) {
    a.p
  }

  lemma StepOthers(s: State, a: Action, q: int)
    requires Enabled(s, a) && q != Who(a)
    ensures InSpan(Do(s, a), q) <==> InSpan(s, q)
    ensures Owns(Do(s, a), q) <==> Owns(s, q)
  {}

  // ------------------------------------------------------------------- what breaking disturbs

  /** A step that removes no link while a process is in its span; only a breaker's could. */
  ghost predicate SparesLink(s: State, a: Action) {
    a.CutLink? ==> forall q :: !InSpan(s, q)
  }

  /** A step that removes no token that has an owner other than its own. */
  ghost predicate SparesToken(s: State, a: Action) {
    a.CutToken? ==> forall q :: !Owns(s, q)
  }

  lemma StepKeepsOwner(s: State, a: Action)
    requires Inv(s) && Enabled(s, a)
    ensures var t := Do(s, a);
      (forall p, q :: Owns(t, p) && Owns(t, q) ==> p == q) && (forall p :: Owns(t, p) ==> t.token) <==> SparesToken(s, a)
  {
    var t, p := Do(s, a), Who(a);
    forall q | q != p
      ensures Owns(t, q) <==> Owns(s, q)
    {
      StepOthers(s, a, q);
    }
    if a.CutToken? {
      assert !Owns(s, p) && !Owns(t, p);
    } else if Owns(t, p) && !a.Create? {
      assert Owns(s, p);
    } else if a.RemoveToken? {
      assert Owns(s, p);
    }
  }

  /** A step keeps the link's part, whoever owns the token, exactly when it spares the link. */
  lemma StepKeepsSpan(s: State, a: Action)
    requires SpanInv(s) && Enabled(s, a)
    ensures SpanInv(Do(s, a)) <==> SparesLink(s, a)
  {
    var t, p := Do(s, a), Who(a);
    forall q | q != p
      ensures InSpan(t, q) <==> InSpan(s, q)
    {
      StepOthers(s, a, q);
    }
    assert a.RemoveLink? || a.RemoveToken? ==> InSpan(s, p);
    assert a.Link? || a.RemoveToken? ==> InSpan(t, p);
    if a.CutLink? {
      assert !InSpan(s, p) && !InSpan(t, p) && !t.link;
      assert forall q :: InSpan(t, q) <==> InSpan(s, q);
    }
  }

  /** Every step keeps the invariant exactly when it spares both files. */
  lemma StepKeepsInv(s: State, a: Action)
    requires Inv(s) && Enabled(s, a)
    ensures Inv(Do(s, a)) <==> SparesLink(s, a) && SparesToken(s, a)
  {
    StepKeepsOwner(s, a);
    StepKeepsSpan(s, a);
  }

  lemma StartIsFree(s: State)
    requires Start(s)
    ensures Inv(s)
  {
    assert forall p :: !InSpan(s, p) && !Owns(s, p);
  }

  /** Mutual exclusion: in every run in which no breaker removes the link of a process in its span, at most one process is
      between its lock's success and the removal of the link, and the link exists exactly when some process is. */
  lemma {:induction false} MutualExclusion(ss: seq<State>, acts: seq<Action>, n: nat)
    requires IsRun(ss, acts) && n < |ss| && forall i :: 0 <= i < n ==> SparesLink(ss[i], acts[i])
    ensures forall p, q :: InSpan(ss[n], p) && InSpan(ss[n], q) ==> p == q
    ensures ss[n].link <==> exists p :: InSpan(ss[n], p)
    decreases n
  {
    if n == 0 {
      StartIsFree(ss[0]);
    } else {
      MutualExclusion(ss, acts, n - 1);
      StepKeepsSpan(ss[n - 1], acts[n - 1]);
    }
  }

  lemma {:induction false} OneOwner(ss: seq<State>, acts: seq<Action>, n: nat)
    requires IsRun(ss, acts) && n < |ss|
    requires forall i :: 0 <= i < n ==> SparesLink(ss[i], acts[i]) && SparesToken(ss[i], acts[i])
    ensures Inv(ss[n])
    decreases n
  {
    if n == 0 {
      StartIsFree(ss[0]);
    } else {
      OneOwner(ss, acts, n - 1);
      StepKeepsInv(ss[n - 1], acts[n - 1]);
    }
  }

  /** Only its owner removes the token unless a breaker does, so otherwise a link never fails for want of it. */
  lemma TokenStays(ss: seq<State>, acts: seq<Action>, n: nat, p: nat)
    requires IsRun(ss, acts) && n < |ss|
    requires forall i :: 0 <= i < n ==> SparesLink(ss[i], acts[i]) && SparesToken(ss[i], acts[i])
    ensures !Enabled(ss[n], Recreate(p))
    ensures Enabled(ss[n], RemoveToken(p)) ==> ss[n].token
  {
    OneOwner(ss, acts, n);
    if IsLinking(ss[n], p) || At(ss[n], p, Holding) {
      assert Owns(ss[n], p);
    }
  }

  // ------------------------------------------------------------------- orphaned tokens

  /** A token without an owner, left by a lock call that gave up. */
  ghost predicate Orphaned(s: State) {
    s.token && forall p :: !Owns(s, p)
  }

  /** Only breaking ends it. */
  lemma OrphanStays(s: State, a: Action)
    requires Orphaned(s) && Enabled(s, a)
    ensures Orphaned(Do(s, a)) <==> !a.CutToken?
  {
    var t, p := Do(s, a), Who(a);
    assert !Owns(s, p);
    forall q
      ensures !Owns(t, q)
    {
      if q != p {
        StepOthers(s, a, q);
      }
    }
  }

  /** Once a token is orphaned no process holds the lock again until a breaker removes the token. */
  lemma {:induction false} OrphanBlocksForever(ss: seq<State>, acts: seq<Action>, i: nat, n: nat)
    requires IsRun(ss, acts) && i <= n < |ss| && Orphaned(ss[i]) && forall j :: i <= j < n ==> !acts[j].CutToken?
    ensures Orphaned(ss[n]) && forall p :: !At(ss[n], p, Holding)
    decreases n
  {
    if i < n {
      OrphanBlocksForever(ss, acts, i, n - 1);
      OrphanStays(ss[n - 1], acts[n - 1]);
    }
    forall p: nat
      ensures !At(ss[n], p, Holding)
    {
      assert !Owns(ss[n], p);
    }
  }

  /** An orphan arises exactly when a process that created the token gives up. */
  lemma OrphanArises(s: State, a: Action)
    requires Inv(s) && !Orphaned(s) && Enabled(s, a)
    ensures Orphaned(Do(s, a)) <==> (a.Fail? || a.TimeOut?) && Owns(s, a.p)
  {
    var t, p := Do(s, a), Who(a);
    forall q | q != p
      ensures Owns(t, q) <==> Owns(s, q)
    {
      StepOthers(s, a, q);
    }
    if (a.Fail? || a.TimeOut?) && Owns(s, p) {
      assert s.token && t.token && !Owns(t, p);
      assert forall q :: Owns(s, q) ==> q == p;
    } else if a.RemoveToken? || a.CutToken? {
      assert !t.token;
    } else if s.token {
      var o :| Owns(s, o);
      assert Owns(t, o);
    } else if a.Create? {
      assert Owns(t, p);
    }
  }

  lemma Extend(ss: seq<State>, acts: seq<Action>, a: Action) returns (ss': seq<State>, acts': seq<Action>)
    requires IsRun(ss, acts) && Enabled(ss[|acts|], a)
    ensures IsRun(ss', acts') && acts' == acts + [a] && ss'[0] == ss[0] && ss'[|acts'|] == Do(ss[|acts|], a)
  {
    ss', acts' := ss + [Do(ss[|acts|], a)], acts + [a];
  }

  /** Such a run from every start: a process creates the token and then cannot link it. */
  lemma OrphanHappens(s0: State, p: nat) returns (ss: seq<State>, acts: seq<Action>)
    requires Start(s0) && p < |s0.procs|
    ensures IsRun(ss, acts) && ss[0] == s0 && ss[|acts|] == s0.(token := true) && Orphaned(ss[|acts|])
  {
    ss, acts := [s0], [];
    ss, acts := Extend(ss, acts, Begin(p, 1));
    ss, acts := Extend(ss, acts, Create(p));
    ss, acts := Extend(ss, acts, Fail(p));
    assert ss[|acts|].procs == s0.procs;
  }

  // ------------------------------------------------------------------- breaking

  /** In the middle of a break. */
  predicate Breaks(s: State, p: int) {
    0 <= p < |s.procs| && (s.procs[p].Judged? || s.procs[p].Cleared?)
  }

  /** Steps during which no further break begins. */
  ghost predicate Joins(s: State, ss: seq<State>, acts: seq<Action>, t: State) {
    Continues(ss, acts) && ss[0] == s && ss[|acts|] == t && forall i :: 0 <= i < |acts| ==> !acts[i].Judge?
  }

  ghost predicate Reaches(s: State, t: State) {
    exists ss, acts :: Joins(s, ss, acts, t)
  }

  /** Whatever the processes do from here on, and though none begins to break the lock again, no two are ever in their
      spans at once. */
  ghost predicate StaysExclusive(s: State) {
    forall t :: Reaches(s, t) ==> OneInSpan(t)
  }

  lemma ReachesSelf(s: State)
    ensures Reaches(s, s)
  {
    assert Joins(s, [s], [], s);
  }

  lemma ReachesNext(s: State, t: State, a: Action)
    requires Reaches(s, t) && Enabled(t, a) && !a.Judge?
    ensures Reaches(s, Do(t, a))
  {
    var ss, acts :| Joins(s, ss, acts, t);
    assert Joins(s, ss + [Do(t, a)], acts + [a], Do(t, a));
  }

  lemma MoveTwice(s: State, p: nat, a: Process, b: Process)
    requires p < |s.procs|
    ensures Move(Move(s, p, a), p, b) == Move(s, p, b)
  {
    assert s.procs[p := a][p := b] == s.procs[p := b];
  }

  /** With both files gone, a process that is not in its span can get out of its call and leave them gone. */
  lemma GetsOut(s: State, t: State, q: nat)
    requires Reaches(s, t) && q < |t.procs| && !InSpan(t, q) && !t.token && !t.link
    ensures Reaches(s, Move(t, q, Outside))
  {
    match t.procs[q]
    case Outside =>
      assert Move(t, q, Outside) == t;
    case Judged(retries) =>
      ReachesNext(s, t, CutToken(q));
      FinishesBreak(s, Move(t, q, Cleared(retries)), q);
      MoveTwice(t, q, Cleared(retries), Outside);
    case Cleared(retries) =>
      FinishesBreak(s, t, q);
    case Trying(_, _) =>
      GivesUp(s, t, q);
    case Linking(_) =>
      ReachesNext(s, t, Fail(q));
  }

  lemma FinishesBreak(s: State, t: State, q: nat)
    requires Reaches(s, t) && IsCleared(t, q) && !t.token && !t.link
    ensures Reaches(s, Move(t, q, Outside))
  {
    var trying := Trying(false, t.procs[q].retries);
    ReachesNext(s, t, CutLink(q));
    GivesUp(s, Move(t, q, trying), q);
    MoveTwice(t, q, trying, Outside);
  }

  lemma GivesUp(s: State, t: State, q: nat)
    requires Reaches(s, t) && IsTrying(t, q)
    ensures Reaches(s, Move(t, q, Outside))
  {
    if t.procs[q].retries == 0 {
      ReachesNext(s, t, TimeOut(q));
    } else if t.procs[q].created {
      var linking := Linking(t.procs[q].retries);
      ReachesNext(s, t, Relink(q));
      ReachesNext(s, Move(t, q, linking), Fail(q));
      MoveTwice(t, q, linking, Outside);
    } else {
      ReachesNext(s, t, Fail(q));
    }
  }

  function Locked(s: State, q: nat): (t: State)
    requires q < |s.procs|
  {
    Move(s.(token := true, link := true), q, Holding)
  }

  /** With both files gone, any process that is not in its span can get the lock. */
  lemma GetsLock(s: State, t: State, q: nat)
    requires Reaches(s, t) && q < |t.procs| && !InSpan(t, q) && !t.token && !t.link
    ensures Reaches(s, Locked(t, q))
  {
    GetsOut(s, t, q);
    var u := Move(t, q, Outside);
    ReachesNext(s, u, Begin(q, 1));
    u := Do(u, Begin(q, 1));
    ReachesNext(s, u, Create(q));
    u := Do(u, Create(q));
    ReachesNext(s, u, Link(q));
    assert Do(u, Link(q)) == Locked(t, q);
  }

  /** A breaker and a process in its span: the breaker removes both files and gets the lock too. */
  lemma JoinsHolder(s: State, p: nat, q: nat)
    requires IsJudged(s, p) && InSpan(s, q)
    ensures !StaysExclusive(s)
  {
    ReachesSelf(s);
    ReachesNext(s, s, CutToken(p));
    var t := Do(s, CutToken(p));
    ReachesNext(s, t, CutLink(p));
    t := Do(t, CutLink(p));
    GetsLock(s, t, p);
    assert InSpan(Locked(t, p), p) && InSpan(Locked(t, p), q);
  }

  /** A breaker and any other process: that one gets the lock between the two removals, and the breaker after them. */
  lemma SlipsBetween(s: State, p: nat, q: nat)
    requires IsJudged(s, p) && q < |s.procs| && q != p && !InSpan(s, q) && !s.link
    ensures !StaysExclusive(s)
  {
    ReachesSelf(s);
    ReachesNext(s, s, CutToken(p));
    var t := Do(s, CutToken(p));
    GetsLock(s, t, q);
    JoinsLate(s, Locked(t, q), p, q);
  }

  /** A breaker that has yet to remove the link of the process now holding the lock. */
  lemma JoinsLate(s: State, t: State, p: nat, q: nat)
    requires Reaches(s, t) && IsCleared(t, p) && At(t, q, Holding)
    ensures !StaysExclusive(s)
  {
    ReachesNext(s, t, CutLink(p));
    var u := Do(t, CutLink(p));
    ReachesNext(s, u, RemoveToken(q));
    u := Do(u, RemoveToken(q));
    GetsLock(s, u, p);
    assert InSpan(Locked(u, p), p) && InSpan(Locked(u, p), q);
  }

  /** The link always has a process that made it, also in runs with breaks. */
  lemma StepKeepsLinker(s: State, a: Action)
    requires Enabled(s, a) && (s.link ==> exists p :: InSpan(s, p))
    ensures Do(s, a).link ==> exists p :: InSpan(Do(s, a), p)
  {
    var t := Do(s, a);
    if a.Link? {
      assert InSpan(t, a.p);
    } else if t.link {
      var q :| InSpan(s, q);
      if q == Who(a) {
        assert InSpan(t, q);
      } else {
        StepOthers(s, a, q);
      }
    }
  }

  lemma {:induction false} LinkHasLinker(ss: seq<State>, acts: seq<Action>, n: nat)
    requires IsRun(ss, acts) && n < |ss|
    ensures ss[n].link ==> exists p :: InSpan(ss[n], p)
    decreases n
  {
    if n > 0 {
      LinkHasLinker(ss, acts, n - 1);
      StepKeepsLinker(ss[n - 1], acts[n - 1]);
    }
  }

  lemma {:induction false} ProcessesStay(ss: seq<State>, acts: seq<Action>, n: nat)
    requires Continues(ss, acts) && n < |ss|
    ensures |ss[n].procs| == |ss[0].procs|
    decreases n
  {
    if n > 0 {
      ProcessesStay(ss, acts, n - 1);
    }
  }

  lemma AloneIsExclusive(s: State)
    requires |s.procs| < 2
    ensures StaysExclusive(s)
  {
    forall t | Reaches(s, t)
      ensures OneInSpan(t)
    {
      var ss, acts :| Joins(s, ss, acts, t);
      ProcessesStay(ss, acts, |acts|);
    }
  }

  /** A process about to break the lock: in every reachable state, also after earlier breaks, exclusion holds on all
      continuations exactly when there is no other process. */
  lemma JudgedExactly(ss: seq<State>, acts: seq<Action>, n: nat, p: nat)
    requires IsRun(ss, acts) && n < |ss| && IsJudged(ss[n], p)
    ensures StaysExclusive(ss[n]) <==> |ss[n].procs| < 2
  {
    var s := ss[n];
    LinkHasLinker(ss, acts, n);
    if |s.procs| < 2 {
      AloneIsExclusive(s);
    } else if q :| InSpan(s, q) {
      JoinsHolder(s, p, q);
    } else {
      SlipsBetween(s, p, if p == 0 then 1 else 0);
    }
  }

  /** Breaking: from every reachable state with a token, a lock call that finds it old endangers exclusion exactly when
      there is another process, whether or not one is in its span. */
  lemma BreakingExactly(ss: seq<State>, acts: seq<Action>, n: nat, p: nat, retries: nat)
    requires IsRun(ss, acts) && n < |ss| && Enabled(ss[n], Judge(p, retries))
    ensures StaysExclusive(Do(ss[n], Judge(p, retries))) <==> |ss[n].procs| < 2
  {
    var prefix, before := ss[..n + 1], acts[..n];
    assert IsRun(prefix, before);
    var ts, bs := Extend(prefix, before, Judge(p, retries));
    JudgedExactly(ts, bs, |bs|, p);
  }

  // ------------------------------------------------------------------- breaking without interruption

  /** The state after a break whose three system calls nobody interrupts. */
  function Broken(s: State, p: nat, retries: nat): (t: State)
    requires Enabled(s, Judge(p, retries))
  {
    Do(Do(Do(s, Judge(p, retries)), CutToken(p)), CutLink(p))
  }

  /** Nobody is in the middle of a break. */
  ghost predicate Calm(s: State) {
    SpanInv(s) && forall p :: !Breaks(s, p)
  }

  lemma StepKeepsCalm(s: State, a: Action)
    requires Calm(s) && Enabled(s, a) && !a.Judge?
    ensures Calm(Do(s, a))
  {
    var t := Do(s, a);
    assert !Breaks(s, Who(a)) && !Breaks(t, Who(a));
    StepKeepsSpan(s, a);
    forall p
      ensures !Breaks(t, p)
    {
      assert !Breaks(s, p);
    }
  }

  lemma {:induction false} CalmStays(ss: seq<State>, acts: seq<Action>, n: nat)
    requires Continues(ss, acts) && n < |ss| && Calm(ss[0]) && forall i :: 0 <= i < |acts| ==> !acts[i].Judge?
    ensures Calm(ss[n])
    decreases n
  {
    if n > 0 {
      CalmStays(ss, acts, n - 1);
      StepKeepsCalm(ss[n - 1], acts[n - 1]);
    }
  }

  lemma CalmIsExclusive(s: State)
    requires Calm(s)
    ensures StaysExclusive(s)
  {
    forall t | Reaches(s, t)
      ensures OneInSpan(t)
    {
      var ss, acts :| Joins(s, ss, acts, t);
      CalmStays(ss, acts, |acts|);
    }
  }

  /** After breaking the lock of a process in its span, any other process can get the lock too. */
  lemma BreakingAdmitsTwo(s: State, p: nat, retries: nat, q: nat, r: nat)
    requires Enabled(s, Judge(p, retries)) && InSpan(s, q) && r < |s.procs| && !InSpan(s, r)
    ensures Reaches(Broken(s, p, retries), Locked(Broken(s, p, retries), r))
    ensures InSpan(Locked(Broken(s, p, retries), r), q) && InSpan(Locked(Broken(s, p, retries), r), r)
  {
    var b := Broken(s, p, retries);
    ReachesSelf(b);
    GetsLock(b, b, r);
  }

  /** Another process in the middle of a break: it removes the files of the one that gets the lock next. */
  lemma BreakersCollide(b: State, p: nat, q: nat)
    requires p < |b.procs| && p != q && !InSpan(b, p) && Breaks(b, q) && !b.token && !b.link
    ensures !StaysExclusive(b)
  {
    ReachesSelf(b);
    if IsJudged(b, q) {
      ReachesNext(b, b, CutToken(q));
      var t := Do(b, CutToken(q));
      GetsLock(b, t, p);
      JoinsLate(b, Locked(t, p), q, p);
    } else {
      GetsLock(b, b, p);
      JoinsLate(b, Locked(b, p), q, p);
    }
  }

  /** Without interruption, breaking is safe on all continuations exactly when no process was in its span and no other
      was in the middle of a break. */
  lemma UninterruptedBreakIsSafe(ss: seq<State>, acts: seq<Action>, n: nat, p: nat, retries: nat)
    requires IsRun(ss, acts) && n < |ss| && Enabled(ss[n], Judge(p, retries))
    ensures StaysExclusive(Broken(ss[n], p, retries)) <==> forall q :: !InSpan(ss[n], q) && !Breaks(ss[n], q)
  {
    var s, b := ss[n], Broken(ss[n], p, retries);
    assert !InSpan(s, p) && !Breaks(s, p) && !InSpan(b, p) && !Breaks(b, p);
    assert forall q :: q != p ==> InSpan(b, q) == InSpan(s, q) && Breaks(b, q) == Breaks(s, q);
    if q :| InSpan(s, q) {
      BreakingAdmitsTwo(s, p, retries, q, p);
    } else if q :| Breaks(s, q) {
      BreakersCollide(b, p, q);
    } else {
      assert Calm(b);
      CalmIsExclusive(b);
    }
  }

  // ------------------------------------------------------------------- runs that fail

  /** From every start with two processes: an orphaned token is broken, and the other process locks between the two
      removals. Nobody was in its span when the break began. */
  lemma BreakIsInterrupted(s0: State) returns (ss: seq<State>, acts: seq<Action>)
    requires Start(s0) && |s0.procs| == 2
    ensures IsRun(ss, acts) && ss[0] == s0 && InSpan(ss[|acts|], 0) && InSpan(ss[|acts|], 1)
  {
    ss, acts := OrphanHappens(s0, 0);
    ss, acts := Extend(ss, acts, Judge(0, 1));
    ss, acts := Extend(ss, acts, CutToken(0));
    ss, acts := Extend(ss, acts, Begin(1, 1));
    ss, acts := Extend(ss, acts, Create(1));
    ss, acts := Extend(ss, acts, Link(1));
    ss, acts := Extend(ss, acts, CutLink(0));
    ss, acts := Extend(ss, acts, RemoveToken(1));
    ss, acts := Extend(ss, acts, Create(0));
    ss, acts := Extend(ss, acts, Link(0));
  }

  /** The same when both find the same orphaned token old and break it one after the other, neither interrupted between its
      removals. */
  lemma TwoBreakers(s0: State) returns (ss: seq<State>, acts: seq<Action>)
    requires Start(s0) && |s0.procs| == 2
    ensures IsRun(ss, acts) && ss[0] == s0 && At(ss[|acts|], 0, Holding) && At(ss[|acts|], 1, Holding)
  {
    ss, acts := OrphanHappens(s0, 0);
    ss, acts := Extend(ss, acts, Judge(0, 1));
    ss, acts := Extend(ss, acts, Judge(1, 1));
    ss, acts := Extend(ss, acts, CutToken(0));
    ss, acts := Extend(ss, acts, CutLink(0));
    ss, acts := Extend(ss, acts, Create(0));
    ss, acts := Extend(ss, acts, Link(0));
    ss, acts := Extend(ss, acts, CutToken(1));
    ss, acts := Extend(ss, acts, CutLink(1));
    ss, acts := Extend(ss, acts, Create(1));
    ss, acts := Extend(ss, acts, Link(1));
  }
}
