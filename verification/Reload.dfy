/**
  Certificate hot reload: any number of poll loops against an operator who rotates the
  files one at a time. A file's contents are a version number; the digest is taken to be
  injective, so it is the snapshot of versions it was computed from.
*/
module Reload {
  import opened Wrappers

  /** One version per configured file, in reading order. */
  type Snapshot = seq<nat>

  /**
    What a poll loop is doing inside reloadOnce. Both passes read the files one by one, so
    a rotation can land between any two reads.
  */
  datatype Phase =
    | Idle
    | Digesting(seen: Snapshot)
    | Building(digest: Snapshot, seen: Snapshot)
    | Installed(digest: Snapshot)

  datatype State = State(
    disk: Snapshot,
    current: Snapshot,   // the files the installed store was built from
    digest: Snapshot,    // the files behind the stored digest
    mutex: Option<nat>,
    phases: map<nat, Phase>)
  {
    function PhaseOf(p: nat): Phase {
      if p in phases then phases[p] else Idle
    }
  }

  /**
    How many files there are, whether what has been read so far makes the build give up
    (a present but broken pair), and whether reloadOnce takes its mutex.
  */
  datatype Config = Config(files: nat, broken: Snapshot -> bool, serialised: bool) {
    predicate Loadable(s: Snapshot) {
      |s| == files && forall k :: 0 <= k <= |s| ==> !broken(s[..k])
    }
  }

  datatype Action = Write(file: nat, version: nat) | Acquire(poller: nat) | Advance(poller: nat)

  predicate Enabled(c: Config, s: State, a: Action) {
    match a
    case Write(i, v) => i < |s.disk| && v > s.disk[i]
    case Acquire(p) => s.PhaseOf(p).Idle? && (c.serialised ==> s.mutex.None?)
    case Advance(p) => !s.PhaseOf(p).Idle? && |s.disk| == c.files
  }

  function Release(s: State, p: nat): State {
    s.(mutex := None, phases := s.phases[p := Idle])
  }

  function Enter(s: State, p: nat, phase: Phase): State {
    s.(phases := s.phases[p := phase])
  }

  /** The next step of poller p: one file read, the comparison, or one of the two stores. */
  function Advanced(c: Config, s: State, p: nat): State
    requires Enabled(c, s, Advance(p))
  {
    match s.PhaseOf(p)
    case Digesting(seen) =>
      if |seen| < c.files then Enter(s, p, Digesting(seen + [s.disk[|seen|]]))
      else if seen == s.digest then Release(s, p)
      else Enter(s, p, Building(seen, []))
    case Building(digest, seen) =>
      if c.broken(seen) then Release(s, p)
      else if |seen| < c.files then Enter(s, p, Building(digest, seen + [s.disk[|seen|]]))
      else Enter(s.(current := seen), p, Installed(digest))
    case Installed(digest) =>
      Release(s.(digest := digest), p)
  }

  function Next(c: Config, s: State, a: Action): State
    requires Enabled(c, s, a)
  {
    match a
    case Write(i, v) => s.(disk := s.disk[i := v])
    case Acquire(p) => Enter(s.(mutex := Some(p)), p, Digesting([]))
    case Advance(p) => Advanced(c, s, p)
  }

  /** The state after a sequence of enabled actions; None when one of them was not enabled. */
  function Run(c: Config, s: State, acts: seq<Action>): Option<State>
    decreases |acts|
  {
    if acts == [] then Some(s)
    else if !Enabled(c, s, acts[0]) then None
    else Run(c, Next(c, s, acts[0]), acts[1..])
  }

  // ---------------------------------------------------------------------------
  // The invariant: nothing installed is ever older than the digest that vouches for it
  // ---------------------------------------------------------------------------

  predicate NotNewer(a: Snapshot, b: Snapshot) {
    |a| <= |b| && forall i :: 0 <= i < |a| ==> a[i] <= b[i]
  }

  predicate PhaseOk(c: Config, s: State, phase: Phase) {
    match phase
    case Idle => true
    case Digesting(seen) =>
      NotNewer(seen, s.disk) && |seen| <= |s.current| && (forall i :: 0 <= i < |seen| ==> s.current[i] <= seen[i])
    case Building(d, seen) =>
      |d| == c.files && NotNewer(d, s.disk) && NotNewer(s.current, d)
      && NotNewer(seen, s.disk) && |seen| <= |d| && (forall i :: 0 <= i < |seen| ==> d[i] <= seen[i])
      && (forall k :: 0 <= k < |seen| ==> !c.broken(seen[..k]))
    case Installed(d) =>
      |d| == c.files && NotNewer(d, s.current) && NotNewer(s.digest, d)
  }

  ghost predicate Inv(c: Config, s: State) {
    && |s.disk| == |s.current| == |s.digest| == c.files
    && NotNewer(s.digest, s.current) && NotNewer(s.current, s.disk)
    && c.Loadable(s.current)
    && (forall p: nat :: !s.PhaseOf(p).Idle? ==> s.mutex == Some(p))
    && (forall p: nat :: PhaseOk(c, s, s.PhaseOf(p)))
  }

  /** A start where the digest was taken of the very files the store was built from. */
  predicate ConsistentStart(c: Config, s: State) {
    s.current == s.digest && NotNewer(s.current, s.disk) && |s.disk| == c.files && c.Loadable(s.current)
    && s.mutex.None? && s.phases == map[]
  }

  lemma StartIsOk(c: Config, s: State)
    requires ConsistentStart(c, s)
    ensures Inv(c, s)
  {
  }

  /** Only poller p, the mutex holder, has a phase; so one phase decides the invariant. */
  lemma SinglePhase(c: Config, s: State, t: State, p: nat, phase: Phase)
    requires Inv(c, s) && (forall q: nat :: q != p ==> s.PhaseOf(q).Idle?)
    requires t.phases == s.phases[p := phase] && (!phase.Idle? ==> t.mutex == Some(p))
    ensures t.PhaseOf(p) == phase && forall q: nat :: q != p ==> t.PhaseOf(q).Idle?
  {
    forall q: nat | q != p
      ensures t.PhaseOf(q).Idle?
    {
      assert s.PhaseOf(q).Idle?;
    }
  }

  lemma AdvanceKeeps(c: Config, s: State, p: nat)
    requires Inv(c, s) && Enabled(c, s, Advance(p))
    ensures Inv(c, Advanced(c, s, p))
  {
    var t := Advanced(c, s, p);
    assert s.mutex == Some(p) && PhaseOk(c, s, s.PhaseOf(p));
    forall q: nat | q != p
      ensures s.PhaseOf(q).Idle?
    {
    }
    SinglePhase(c, s, t, p, t.phases[p]);
    assert PhaseOk(c, t, t.phases[p]) && c.Loadable(t.current) by {
      if s.PhaseOf(p).Building? && !c.broken(s.PhaseOf(p).seen) {
        BuildReads(c, s, s.PhaseOf(p).digest, s.PhaseOf(p).seen);
      }
    }
  }

  lemma BuildReads(c: Config, s: State, d: Snapshot, seen: Snapshot)
    requires |s.disk| == |s.current| == |s.digest| == c.files && PhaseOk(c, s, Building(d, seen)) && !c.broken(seen)
    ensures |seen| < c.files ==> PhaseOk(c, s, Building(d, seen + [s.disk[|seen|]]))
    ensures |seen| == c.files ==> c.Loadable(seen)
  {
    if |seen| < c.files {
      var more := seen + [s.disk[|seen|]];
      forall k | 0 <= k < |more|
        ensures !c.broken(more[..k])
      {
        assert more[..k] == seen[..k];
        assert seen[..|seen|] == seen;
      }
    } else {
      assert seen[..|seen|] == seen;
    }
  }

  lemma WriteKeeps(c: Config, s: State, i: nat, v: nat)
    requires Inv(c, s) && Enabled(c, s, Write(i, v))
    ensures Inv(c, Next(c, s, Write(i, v)))
  {
    var t := Next(c, s, Write(i, v));
    forall p: nat
      ensures PhaseOk(c, t, t.PhaseOf(p)) && (!t.PhaseOf(p).Idle? ==> t.mutex == Some(p))
    {
      assert PhaseOk(c, s, s.PhaseOf(p)) && t.PhaseOf(p) == s.PhaseOf(p);
    }
  }

  lemma AcquireKeeps(c: Config, s: State, p: nat)
    requires c.serialised && Inv(c, s) && Enabled(c, s, Acquire(p))
    ensures Inv(c, Next(c, s, Acquire(p)))
  {
    var t := Next(c, s, Acquire(p));
    forall q: nat
      ensures s.PhaseOf(q).Idle?
    {
    }
    SinglePhase(c, s, t, p, Digesting([]));
  }

  /** One step: the invariant holds on, and no file of the installed store goes back. */
  lemma StepKeeps(c: Config, s: State, a: Action)
    requires c.serialised && Inv(c, s) && Enabled(c, s, a)
    ensures Inv(c, Next(c, s, a))
    ensures NotNewer(s.current, Next(c, s, a).current) && NotNewer(s.disk, Next(c, s, a).disk)
  {
    match a
    case Write(i, v) => WriteKeeps(c, s, i, v);
    case Acquire(p) => AcquireKeeps(c, s, p);
    case Advance(p) =>
      AdvanceKeeps(c, s, p);
      assert PhaseOk(c, s, s.PhaseOf(p));
  }

  /**
    Every reachable state: the installed store is loadable (never blanked), per file at
    least as new as the stored digest and never newer than the disk, and it only moves on.
  */
  lemma {:induction false} EveryRunIsSafe(c: Config, s: State, acts: seq<Action>)
    requires c.serialised && Inv(c, s) && Run(c, s, acts).Some?
    ensures Inv(c, Run(c, s, acts).value)
    ensures NotNewer(s.current, Run(c, s, acts).value.current)
    decreases |acts|
  {
    if acts != [] {
      StepKeeps(c, s, acts[0]);
      EveryRunIsSafe(c, Next(c, s, acts[0]), acts[1..]);
    }
  }

  // ---------------------------------------------------------------------------
  // Convergence once the files are quiet
  // ---------------------------------------------------------------------------

  predicate Quiet(acts: seq<Action>) {
    forall i :: 0 <= i < |acts| ==> !acts[i].Write?
  }

  /** What a reload that began on a quiet disk has seen is the disk. */
  predicate SeesDisk(s: State, phase: Phase) {
    match phase
    case Idle => true
    case Digesting(seen) => seen <= s.disk
    case Building(d, seen) => d == s.disk && seen <= s.disk
    case Installed(d) => d == s.disk && s.current == s.disk
  }

  /** The digest vouches for the disk while another store is installed. */
  predicate Mismatched(s: State) {
    s.digest == s.disk && s.current != s.disk
  }

  /** Every reload under way began on the quiet, loadable disk, and poller p is through or still at it. */
  ghost predicate Settling(c: Config, s: State, p: nat) {
    && c.Loadable(s.disk) && !Mismatched(s)
    && (forall q: nat :: SeesDisk(s, s.PhaseOf(q)))
    && (s.PhaseOf(p).Idle? ==> s.current == s.disk == s.digest)
  }

  /** A poller's step on a quiet disk leaves the store alone or installs the disk. */
  lemma QuietAdvance(c: Config, s: State, q: nat)
    requires c.Loadable(s.disk) && !Mismatched(s) && SeesDisk(s, s.PhaseOf(q)) && Enabled(c, s, Advance(q))
    ensures var t := Advanced(c, s, q);
            && t.disk == s.disk && (t.current == s.current || t.current == s.disk) && !Mismatched(t)
            && (t.digest == s.digest || t.digest == s.disk)
            && t.phases == s.phases[q := t.phases[q]] && SeesDisk(t, t.phases[q])
            && (t.phases[q].Idle? ==> t.current == t.disk == t.digest)
  {
    match s.PhaseOf(q) {
      case Digesting(seen) =>
      case Building(d, seen) =>
        assert seen == s.disk[..|seen|];
      case Installed(d) =>
    }
  }

  lemma QuietStep(c: Config, s: State, p: nat, a: Action)
    requires Settling(c, s, p) && Enabled(c, s, a) && !a.Write?
    ensures Settling(c, Next(c, s, a), p) && Next(c, s, a).disk == s.disk
    ensures s.current == s.disk == s.digest ==> Next(c, s, a).current == s.disk == Next(c, s, a).digest
  {
    var t, q := Next(c, s, a), a.poller;
    assert SeesDisk(s, s.PhaseOf(q));
    if a.Advance? {
      QuietAdvance(c, s, q);
    }
    forall r: nat
      ensures SeesDisk(t, t.PhaseOf(r))
    {
      assert r == q || (t.PhaseOf(r) == s.PhaseOf(r) && SeesDisk(s, s.PhaseOf(r)));
    }
  }

  lemma {:induction false} QuietRun(c: Config, s: State, p: nat, acts: seq<Action>)
    requires Settling(c, s, p) && Quiet(acts) && Run(c, s, acts).Some?
    ensures Settling(c, Run(c, s, acts).value, p) && Run(c, s, acts).value.disk == s.disk
    ensures s.current == s.disk == s.digest ==> Run(c, s, acts).value.current == s.disk == Run(c, s, acts).value.digest
    decreases |acts|
  {
    if acts != [] {
      assert !acts[0].Write?;
      QuietStep(c, s, p, acts[0]);
      QuietRun(c, Next(c, s, acts[0]), p, acts[1..]);
    }
  }

  /** The stored digest vouches for the disk, and no reload under way can find otherwise. */
  ghost predicate Stuck(s: State) {
    s.digest == s.disk && forall q: nat :: s.PhaseOf(q).Idle? || (s.PhaseOf(q).Digesting? && SeesDisk(s, s.PhaseOf(q)))
  }

  /** Then no number of polls, by any number of loops in any interleaving, changes the store. */
  lemma {:induction false} StuckStays(c: Config, s: State, acts: seq<Action>)
    requires Stuck(s) && Quiet(acts) && Run(c, s, acts).Some?
    ensures Stuck(Run(c, s, acts).value)
    ensures Run(c, s, acts).value.disk == s.disk == Run(c, s, acts).value.digest
    ensures Run(c, s, acts).value.current == s.current
    decreases |acts|
  {
    if acts != [] {
      assert !acts[0].Write?;
      var t, q := Next(c, s, acts[0]), acts[0].poller;
      assert s.PhaseOf(q).Idle? || (s.PhaseOf(q).Digesting? && SeesDisk(s, s.PhaseOf(q)));
      forall r: nat
        ensures t.PhaseOf(r).Idle? || (t.PhaseOf(r).Digesting? && SeesDisk(t, t.PhaseOf(r)))
      {
        assert r == q || t.PhaseOf(r) == s.PhaseOf(r);
      }
      StuckStays(c, t, acts[1..]);
    }
  }

  /**
    Exactly when a reload that starts on a quiet, loadable disk and completes leaves that
    disk installed, whatever other loops do meanwhile and for as long as the files stay
    quiet after: unless the stored digest already vouched for the disk over another store,
    and then that store stays.
  */
  lemma InstallsDiskIff(c: Config, s: State, p: nat, acts: seq<Action>, later: seq<Action>)
    requires c.Loadable(s.disk) && (forall q: nat :: s.PhaseOf(q).Idle?) && Enabled(c, s, Acquire(p))
    requires Quiet(acts) && Quiet(later) && Run(c, Next(c, s, Acquire(p)), acts).Some?
    requires var done := Run(c, Next(c, s, Acquire(p)), acts).value;
             done.PhaseOf(p).Idle? && Run(c, done, later).Some?
    ensures var done := Run(c, Next(c, s, Acquire(p)), acts).value;
            var end := Run(c, done, later).value;
            && done.disk == s.disk == done.digest && end.disk == s.disk == end.digest
            && (done.current == s.disk <==> !Mismatched(s))
            && end.current == done.current
            && (Mismatched(s) ==> end.current == s.current)
  {
    var t := Next(c, s, Acquire(p));
    forall q: nat
      ensures t.PhaseOf(q) == if q == p then Digesting([]) else Idle
    {
      assert s.PhaseOf(q).Idle?;
    }
    if Mismatched(s) {
      StuckStays(c, t, acts);
      StuckStays(c, Run(c, t, acts).value, later);
    } else {
      QuietRun(c, t, p, acts);
      QuietRun(c, Run(c, t, acts).value, p, later);
    }
  }

  /** How many steps poller p still has to take. */
  function Remaining(c: Config, phase: Phase): nat
    requires phase.Digesting? || phase.Building? ==> |phase.seen| <= c.files
  {
    match phase
    case Idle => 0
    case Digesting(seen) => 2 * c.files + 4 - |seen|
    case Building(_, seen) => c.files + 2 - |seen|
    case Installed(_) => 1
  }

  /** A reload that is left alone completes. */
  lemma {:induction false} Completes(c: Config, s: State, p: nat) returns (acts: seq<Action>)
    requires |s.disk| == c.files
    requires s.PhaseOf(p).Digesting? || s.PhaseOf(p).Building? ==> |s.PhaseOf(p).seen| <= c.files
    ensures Quiet(acts) && Run(c, s, acts).Some? && Run(c, s, acts).value.PhaseOf(p).Idle?
    decreases Remaining(c, s.PhaseOf(p))
  {
    acts := [];
    if !s.PhaseOf(p).Idle? {
      var rest := Completes(c, Advanced(c, s, p), p);
      acts := [Advance(p)] + rest;
      assert acts[1..] == rest;
    }
  }

  /**
    From any reachable state: once the files are quiet and loadable, a reload of any poller
    that starts and completes leaves exactly the disk installed, whatever the other loops do
    meanwhile, and it stays so while the files stay quiet, also while p polls again.
  */
  lemma Converges(c: Config, s: State, p: nat, acts: seq<Action>, later: seq<Action>)
    requires c.serialised && Inv(c, s) && c.Loadable(s.disk) && Enabled(c, s, Acquire(p))
    requires Quiet(acts) && Quiet(later) && Run(c, Next(c, s, Acquire(p)), acts).Some?
    requires var done := Run(c, Next(c, s, Acquire(p)), acts).value;
             done.PhaseOf(p).Idle? && Run(c, done, later).Some?
    ensures var done := Run(c, Next(c, s, Acquire(p)), acts).value;
            done.current == s.disk && Run(c, done, later).value.current == s.disk
  {
    forall q: nat
      ensures s.PhaseOf(q).Idle?
    {
    }
    InstallsDiskIff(c, s, p, acts, later);
  }

  /** The whole promise, from a consistent start through any run to any later quiet spell. */
  lemma ReloadKeepsItsPromise(c: Config, start: State, run: seq<Action>, p: nat, acts: seq<Action>, later: seq<Action>)
    requires c.serialised && ConsistentStart(c, start) && Run(c, start, run).Some?
    ensures var s := Run(c, start, run).value;
            && NotNewer(start.current, s.current) && NotNewer(s.digest, s.current) && NotNewer(s.current, s.disk)
            && c.Loadable(s.current)
    ensures var s := Run(c, start, run).value;
            c.Loadable(s.disk) && Enabled(c, s, Acquire(p)) && Quiet(acts) && Quiet(later)
            && Run(c, Next(c, s, Acquire(p)), acts).Some?
            && Run(c, Next(c, s, Acquire(p)), acts).value.PhaseOf(p).Idle?
            && Run(c, Run(c, Next(c, s, Acquire(p)), acts).value, later).Some?
            ==> Run(c, Run(c, Next(c, s, Acquire(p)), acts).value, later).value.current == s.disk
  {
    StartIsOk(c, start);
    EveryRunIsSafe(c, start, run);
    var s := Run(c, start, run).value;
    if c.Loadable(s.disk) && Enabled(c, s, Acquire(p)) && Quiet(acts) && Quiet(later)
       && Run(c, Next(c, s, Acquire(p)), acts).Some?
       && Run(c, Next(c, s, Acquire(p)), acts).value.PhaseOf(p).Idle?
       && Run(c, Run(c, Next(c, s, Acquire(p)), acts).value, later).Some? {
      Converges(c, s, p, acts, later);
    }
  }

  // ---------------------------------------------------------------------------
  // Setup: the store is built first and the digest taken after, file by file
  // ---------------------------------------------------------------------------

  datatype Setup =
    | Loading(seen: Snapshot)
    | Hashing(store: Snapshot, seen: Snapshot)
    | Failed
    | Ready(store: Snapshot, digest: Snapshot)

  datatype Boot = Boot(disk: Snapshot, setup: Setup)

  datatype BootEvent = Rotate(file: nat, version: nat) | Proceed

  predicate BootEnabled(c: Config, b: Boot, e: BootEvent) {
    match e
    case Rotate(i, v) => i < |b.disk| && v > b.disk[i]
    case Proceed => (b.setup.Loading? || b.setup.Hashing?) && |b.disk| == c.files
  }

  function BootNext(c: Config, b: Boot, e: BootEvent): Boot
    requires BootEnabled(c, b, e)
  {
    match e
    case Rotate(i, v) => b.(disk := b.disk[i := v])
    case Proceed =>
      match b.setup
      case Loading(seen) =>
        if c.broken(seen) then b.(setup := Failed)
        else if |seen| < c.files then b.(setup := Loading(seen + [b.disk[|seen|]]))
        else b.(setup := Hashing(seen, []))
      case Hashing(store, seen) =>
        if |seen| < c.files then b.(setup := Hashing(store, seen + [b.disk[|seen|]]))
        else b.(setup := Ready(store, seen))
  }

  function BootRun(c: Config, b: Boot, es: seq<BootEvent>): Option<Boot>
    decreases |es|
  {
    if es == [] then Some(b)
    else if !BootEnabled(c, b, es[0]) then None
    else BootRun(c, BootNext(c, b, es[0]), es[1..])
  }

  /** What the pollers start from. */
  function Started(b: Boot): State
    requires b.setup.Ready?
  {
    State(b.disk, b.setup.store, b.setup.digest, None, map[])
  }

  predicate BootOk(c: Config, b: Boot) {
    && |b.disk| == c.files
    && match b.setup
       case Loading(seen) => NotNewer(seen, b.disk) && forall k :: 0 <= k < |seen| ==> !c.broken(seen[..k])
       case Hashing(store, seen) =>
         c.Loadable(store) && NotNewer(store, b.disk) && NotNewer(seen, b.disk)
         && forall i :: 0 <= i < |seen| ==> store[i] <= seen[i]
       case Failed => true
       case Ready(store, d) => c.Loadable(store) && |d| == c.files && NotNewer(store, d) && NotNewer(d, b.disk)
  }

  lemma BootStepOk(c: Config, b: Boot, e: BootEvent)
    requires BootOk(c, b) && BootEnabled(c, b, e)
    ensures BootOk(c, BootNext(c, b, e))
  {
    if e.Proceed? && b.setup.Loading? {
      var seen := b.setup.seen;
      assert seen[..|seen|] == seen;
      if |seen| < c.files {
        var more := seen + [b.disk[|seen|]];
        assert forall k :: 0 <= k <= |seen| ==> more[..k] == seen[..k];
      }
    }
  }

  /**
    What every setup hands over, whatever was rotated meanwhile: a loadable store that is
    never newer than its digest. The invariant of the pollers asks for the converse, so it
    holds from there if and only if no file changed between its two reads.
  */
  lemma {:induction false} SetupHandsOver(c: Config, b: Boot, es: seq<BootEvent>)
    requires BootOk(c, b) && BootRun(c, b, es).Some? && BootRun(c, b, es).value.setup.Ready?
    ensures var s := Started(BootRun(c, b, es).value);
            && c.Loadable(s.current) && NotNewer(s.current, s.digest) && NotNewer(s.digest, s.disk)
            && (Inv(c, s) <==> s.current == s.digest) && (ConsistentStart(c, s) <==> s.current == s.digest)
    decreases |es|
  {
    if es == [] {
      var s := Started(b);
      if Inv(c, s) {
        EqualWhenBothWays(s.current, s.digest);
      }
      if s.current == s.digest {
        StartIsOk(c, s);
      }
    } else {
      BootStepOk(c, b, es[0]);
      SetupHandsOver(c, BootNext(c, b, es[0]), es[1..]);
    }
  }

  lemma EqualWhenBothWays(a: Snapshot, b: Snapshot)
    requires |a| == |b| && NotNewer(a, b) && NotNewer(b, a)
    ensures a == b
  {
  }

  lemma BootThen(c: Config, b: Boot, es: seq<BootEvent>, e: BootEvent, t: Boot)
    requires BootRun(c, b, es) == Some(t) && BootEnabled(c, t, e)
    ensures BootRun(c, b, es + [e]) == Some(BootNext(c, t, e))
    decreases |es|
  {
    if es == [] {
      assert [e][1..] == [];
    } else {
      assert (es + [e])[1..] == es[1..] + [e];
      BootThen(c, BootNext(c, b, es[0]), es[1..], e, t);
    }
  }

  /** A run in which setup reads the whole of a loadable disk into the store. */
  lemma LoadsAll(c: Config, disk: Snapshot) returns (es: seq<BootEvent>)
    requires c.Loadable(disk)
    ensures BootRun(c, Boot(disk, Loading([])), es) == Some(Boot(disk, Hashing(disk, [])))
  {
    es := [];
    var k := 0;
    while k < c.files
      invariant 0 <= k <= c.files
      invariant BootRun(c, Boot(disk, Loading([])), es) == Some(Boot(disk, Loading(disk[..k])))
    {
      BootThen(c, Boot(disk, Loading([])), es, Proceed, Boot(disk, Loading(disk[..k])));
      assert disk[..k] + [disk[k]] == disk[..k + 1];
      es, k := es + [Proceed], k + 1;
    }
    assert disk[..k] == disk;
    BootThen(c, Boot(disk, Loading([])), es, Proceed, Boot(disk, Loading(disk)));
    es := es + [Proceed];
  }

  /** From there, a run in which it takes the digest of what is on disk by then. */
  lemma HashesAll(c: Config, b: Boot, es: seq<BootEvent>, disk: Snapshot, store: Snapshot) returns (fs: seq<BootEvent>)
    requires |disk| == c.files && BootRun(c, b, es) == Some(Boot(disk, Hashing(store, [])))
    ensures BootRun(c, b, fs) == Some(Boot(disk, Ready(store, disk)))
  {
    fs := es;
    var k := 0;
    while k < c.files
      invariant 0 <= k <= c.files
      invariant BootRun(c, b, fs) == Some(Boot(disk, Hashing(store, disk[..k])))
    {
      BootThen(c, b, fs, Proceed, Boot(disk, Hashing(store, disk[..k])));
      assert disk[..k] + [disk[k]] == disk[..k + 1];
      fs, k := fs + [Proceed], k + 1;
    }
    assert disk[..k] == disk;
    BootThen(c, b, fs, Proceed, Boot(disk, Hashing(store, disk)));
    fs := fs + [Proceed];
  }

  /**
    A rotation of any one file between setup's build and its digest leaves the old store
    installed under the new digest, and no later poll of any number of loops picks it up
    until the files change again.
  */
  lemma SetupRaceSticks(c: Config, before: Snapshot, i: nat, v: nat) returns (es: seq<BootEvent>, s: State)
    requires c.Loadable(before) && i < c.files && v > before[i]
    ensures BootRun(c, Boot(before, Loading([])), es)
            == Some(Boot(before[i := v], Ready(before, before[i := v])))
    ensures s == Started(BootRun(c, Boot(before, Loading([])), es).value)
    ensures forall acts :: Quiet(acts) && Run(c, s, acts).Some? ==> Run(c, s, acts).value.current == before
  {
    var boot, after := Boot(before, Loading([])), before[i := v];
    es := LoadsAll(c, before);
    BootThen(c, boot, es, Rotate(i, v), Boot(before, Hashing(before, [])));
    es := HashesAll(c, boot, es + [Rotate(i, v)], after, before);
    s := Started(BootRun(c, boot, es).value);
    forall acts | Quiet(acts) && Run(c, s, acts).Some?
      ensures Run(c, s, acts).value.current == before
    {
      StuckStays(c, s, acts);
    }
  }

  // ---------------------------------------------------------------------------
  // Why the mutex: two unserialised loops can pin an old store under a newer digest
  // ---------------------------------------------------------------------------

  lemma RunSnoc(c: Config, s: State, acts: seq<Action>, a: Action)
    requires Run(c, s, acts).Some? && Enabled(c, Run(c, s, acts).value, a)
    ensures Run(c, s, acts + [a]) == Some(Next(c, Run(c, s, acts).value, a))
    decreases |acts|
  {
    if acts == [] {
      assert [a][1..] == [];
    } else {
      assert (acts + [a])[1..] == acts[1..] + [a];
      RunSnoc(c, Next(c, s, acts[0]), acts[1..], a);
    }
  }

  /** Appends one step to a run known to end in s, and says where it ends. */
  lemma Then(c: Config, start: State, acts: seq<Action>, s: State, a: Action) returns (acts': seq<Action>, t: State)
    requires Run(c, start, acts) == Some(s) && Enabled(c, s, a)
    ensures acts' == acts + [a] && t == Next(c, s, a) && Run(c, start, acts') == Some(t)
  {
    RunSnoc(c, start, acts, a);
    acts', t := acts + [a], Next(c, s, a);
  }

  /** One file, any contents load, and reloadOnce without its mutex. */
  ghost predicate Unserialised(c: Config) {
    c.files == 1 && !c.serialised && forall x :: !c.broken(x)
  }

  lemma ReadsForDigest(c: Config, s: State, p: nat, x: nat)
    requires c.files == 1 && s.disk == [x] && s.PhaseOf(p) == Digesting([])
    ensures Enabled(c, s, Advance(p)) && Next(c, s, Advance(p)) == Enter(s, p, Digesting([x]))
  {
    var seen := s.PhaseOf(p).seen;
    assert |seen| == 0 && seen + [s.disk[|seen|]] == [x];
  }

  lemma LoopDigests(c: Config, start: State, acts: seq<Action>, s: State, p: nat, x: nat)
    returns (acts': seq<Action>, t: State)
    requires Unserialised(c) && Run(c, start, acts) == Some(s) && s.disk == [x] && s.PhaseOf(p).Idle?
    ensures Run(c, start, acts') == Some(t)
    ensures t == s.(mutex := Some(p), phases := s.phases[p := Digesting([x])])
  {
    acts', t := Then(c, start, acts, s, Acquire(p));
    ReadsForDigest(c, t, p, x);
    acts', t := Then(c, start, acts', t, Advance(p));
    assert t.phases == s.phases[p := Digesting([x])];
  }

  lemma DecidesToBuild(c: Config, s: State, p: nat, x: nat)
    requires c.files == 1 == |s.disk| && s.PhaseOf(p) == Digesting([x]) && s.digest != [x]
    ensures Enabled(c, s, Advance(p)) && Next(c, s, Advance(p)) == Enter(s, p, Building([x], []))
  {
    var seen := s.PhaseOf(p).seen;
    assert seen != s.digest && |seen| == 1;
  }

  lemma ReadsTheFile(c: Config, s: State, p: nat, x: nat)
    requires Unserialised(c) && s.disk == [x] && s.PhaseOf(p) == Building([x], [])
    ensures Enabled(c, s, Advance(p)) && Next(c, s, Advance(p)) == Enter(s, p, Building([x], [x]))
  {
    var seen := s.PhaseOf(p).seen;
    assert !c.broken(seen) && seen + [s.disk[|seen|]] == [x];
  }

  /** An idle loop finds version x on disk and has built it, without installing it yet. */
  lemma LoopBuilds(c: Config, start: State, acts: seq<Action>, s: State, p: nat, x: nat)
    returns (acts': seq<Action>, t: State)
    requires Unserialised(c) && Run(c, start, acts) == Some(s)
    requires s.disk == [x] && s.digest != [x] && s.PhaseOf(p).Idle?
    ensures Run(c, start, acts') == Some(t)
    ensures t == s.(mutex := Some(p), phases := s.phases[p := Building([x], [x])])
  {
    acts', t := LoopDigests(c, start, acts, s, p, x);
    DecidesToBuild(c, t, p, x);
    acts', t := Then(c, start, acts', t, Advance(p));
    ReadsTheFile(c, t, p, x);
    acts', t := Then(c, start, acts', t, Advance(p));
    assert t.phases == s.phases[p := Building([x], [x])];
  }

  /** Both loops have read their version; loop 0 holds version 1, loop 1 has installed version 2. */
  lemma TwoLoopsMeet(c: Config, start: State) returns (acts: seq<Action>, s: State)
    requires Unserialised(c) && start == State([0], [0], [0], None, map[])
    ensures Run(c, start, acts) == Some(s)
    ensures s.disk == [2] && s.current == [2] && s.digest == [0]
    ensures s.phases == map[0 := Building([1], [1]), 1 := Installed([2])]
  {
    acts, s := Then(c, start, [], start, Write(0, 1));
    acts, s := LoopBuilds(c, start, acts, s, 0, 1);
    acts, s := Then(c, start, acts, s, Write(0, 2));
    acts, s := LoopBuilds(c, start, acts, s, 1, 2);
    acts, s := Then(c, start, acts, s, Advance(1));
  }

  /**
    A run without the mutex that ends idle with version 1 installed and version 2 on disk,
    where no later poll of any number of loops changes it.
  */
  lemma UnserialisedLoopsStick(c: Config, start: State) returns (acts: seq<Action>, s: State)
    requires Unserialised(c) && start == State([0], [0], [0], None, map[])
    ensures ConsistentStart(c, start) && Run(c, start, acts) == Some(s)
    ensures forall q: nat :: s.PhaseOf(q).Idle?
    ensures s.disk == [2] && s.current == [1] && c.Loadable(s.disk)
    ensures forall more :: Quiet(more) && Run(c, s, more).Some? ==> Run(c, s, more).value.current == [1]
  {
    acts, s := TwoLoopsMeet(c, start);
    acts, s := Then(c, start, acts, s, Advance(0));
    acts, s := Then(c, start, acts, s, Advance(0));
    acts, s := Then(c, start, acts, s, Advance(1));
    forall more | Quiet(more) && Run(c, s, more).Some?
      ensures Run(c, s, more).value.current == [1]
    {
      StuckStays(c, s, more);
    }
  }
}
