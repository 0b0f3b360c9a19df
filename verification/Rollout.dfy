/**
  Server Secret rollout over an anycast set (RFC 9018 section 5): any number of servers,
  reloaded one by one in any order, through any number of successive rollouts.
*/
module Rollout {
  import opened Bytes
  import opened Cookie

  /** How far a server's configuration has come in the current rollout from A to B. */
  datatype Phase = Base | Learned | Switched | Dropped

  /** A cookie handed out: when, by whom, under which secret of the succession, and to whom. */
  datatype Minted = Minted(at: int, server: nat, index: nat, client: Client, ip: seq<Byte>)

  /**
    The hash every server uses, the succession of secrets, what each server's clock reads at
    each moment, and how long the operator waits before the old secret is dropped.
  */
  datatype Fleet = Fleet(hash: Keyed, key: nat -> Key, clock: (nat, int) -> int, patience: int)

  /** Between any two readings, no two clocks disagree by more than d about the time that passed. */
  ghost predicate Synchronised(f: Fleet, d: int) {
    forall i: nat, j: nat, t, u :: -d <= (f.clock(j, u) - f.clock(i, t)) - (u - t) <= d
  }

  datatype State = State(
    epoch: nat,                    // the rollout under way takes key(epoch) to key(epoch + 1)
    phases: map<nat, Phase>,
    secrets: map<nat, Secrets>,
    now: int,
    lastSwitch: int,               // when a server last began issuing with the new secret
    minted: seq<Minted>)

  datatype Action =
    | Tick(seconds: nat)
    | Issue(server: nat, client: Client, ip: seq<Byte>)
    | Reload(server: nat, phase: Phase, config: Secrets)
    | NextRollout

  /** What each phase asks of a configuration; further verify-only secrets are allowed. */
  predicate Fits(f: Fleet, epoch: nat, phase: Phase, s: Secrets) {
    match phase
    case Base => s.generate == f.key(epoch)
    case Learned => s.generate == f.key(epoch) && f.key(epoch + 1) in s.verifyOnly
    case Switched => s.generate == f.key(epoch + 1) && f.key(epoch) in s.verifyOnly
    case Dropped => s.generate == f.key(epoch + 1)
  }

  predicate Issuing(p: Phase) {
    p.Switched? || p.Dropped?
  }

  predicate NoneAt(s: State, p: Phase) {
    forall i :: i in s.phases ==> s.phases[i] != p
  }

  predicate AllIssuing(s: State) {
    forall i :: i in s.phases ==> Issuing(s.phases[i])
  }

  /**
    Section 5's order: nobody issues with B before everybody has learned it, and nobody
    drops A until more than the operator's patience after the last server switched.
  */
  predicate MayEnter(f: Fleet, s: State, from: Phase, to: Phase) {
    || from == to
    || (from.Base? && to.Learned?)
    || (from.Learned? && to.Switched? && NoneAt(s, Base))
    || (from.Switched? && to.Dropped? && AllIssuing(s) && s.now > s.lastSwitch + f.patience)
  }

  predicate Enabled(f: Fleet, s: State, a: Action) {
    match a
    case Tick(_) => true
    case Issue(i, _, _) => i in s.phases
    case Reload(i, p, c) => i in s.phases && MayEnter(f, s, s.phases[i], p) && Fits(f, s.epoch, p, c)
    case NextRollout => s.phases != map[] && forall i :: i in s.phases ==> s.phases[i].Dropped?
  }

  function Index(s: State, i: nat): nat
    requires i in s.phases
  {
    if Issuing(s.phases[i]) then s.epoch + 1 else s.epoch
  }

  function Next(f: Fleet, s: State, a: Action): State
    requires Enabled(f, s, a)
  {
    match a
    case Tick(d) => s.(now := s.now + d)
    case Issue(i, client, ip) => s.(minted := s.minted + [Minted(s.now, i, Index(s, i), client, ip)])
    case Reload(i, p, c) =>
      var switching := s.phases[i].Learned? && p.Switched?;
      s.(phases := s.phases[i := p], secrets := s.secrets[i := c], lastSwitch := if switching then s.now else s.lastSwitch)
    case NextRollout =>
      s.(epoch := s.epoch + 1, phases := map i | i in s.phases :: Base)
  }

  predicate Run(f: Fleet, s: State, acts: seq<Action>)
    decreases |acts|
  {
    acts == [] || (Enabled(f, s, acts[0]) && Run(f, Next(f, s, acts[0]), acts[1..]))
  }

  function After(f: Fleet, s: State, acts: seq<Action>): State
    requires Run(f, s, acts)
    decreases |acts|
  {
    if acts == [] then s else After(f, Next(f, s, acts[0]), acts[1..])
  }

  // ---------------------------------------------------------------------------
  // Invariant
  // ---------------------------------------------------------------------------

  /** Where a minted cookie stands relative to the rollout. */
  predicate Placed(f: Fleet, s: State, c: Minted) {
    && c.at <= s.now && c.index <= s.epoch + 1
    && (c.index == s.epoch + 1 ==> NoneAt(s, Base))
    && (c.index == s.epoch && AllIssuing(s) ==> c.at <= s.lastSwitch)
    && (c.index < s.epoch ==> s.now - c.at > f.patience)
  }

  predicate Inv(f: Fleet, s: State) {
    && s.secrets.Keys == s.phases.Keys && s.phases != map[]
    && s.lastSwitch <= s.now
    && (forall i :: i in s.phases ==> Fits(f, s.epoch, s.phases[i], s.secrets[i]))
    && (forall i :: i in s.phases && Issuing(s.phases[i]) ==> NoneAt(s, Base))
    && (forall i :: i in s.phases && s.phases[i].Dropped? ==> AllIssuing(s) && s.now > s.lastSwitch + f.patience)
    && (forall c :: c in s.minted ==> Placed(f, s, c))
  }

  /** A fleet that all issues with the first secret and has handed out nothing yet. */
  predicate Initial(f: Fleet, s: State) {
    && s.epoch == 0 && s.phases != map[] && s.secrets.Keys == s.phases.Keys && s.lastSwitch <= s.now
    && (forall i :: i in s.phases ==> s.phases[i].Base? && s.secrets[i].generate == f.key(0))
    && s.minted == []
  }

  lemma InitialIsOk(f: Fleet, s: State)
    requires Initial(f, s)
    ensures Inv(f, s)
  {
  }

  lemma IssueKeeps(f: Fleet, s: State, i: nat, client: Client, ip: seq<Byte>)
    requires Inv(f, s) && i in s.phases
    ensures Inv(f, Next(f, s, Issue(i, client, ip)))
  {
    var t := Next(f, s, Issue(i, client, ip));
    forall c | c in t.minted
      ensures Placed(f, t, c)
    {
      if c in s.minted {
        assert Placed(f, s, c);
      }
    }
  }

  /** What one server's reload does to the fleet's progress. */
  lemma ReloadMoves(f: Fleet, s: State, i: nat, p: Phase, config: Secrets)
    requires Inv(f, s) && Enabled(f, s, Reload(i, p, config))
    ensures var t := Next(f, s, Reload(i, p, config));
            && (NoneAt(s, Base) ==> NoneAt(t, Base))
            && (AllIssuing(s) ==> AllIssuing(t) && t.lastSwitch == s.lastSwitch)
            && (AllIssuing(t) && !AllIssuing(s) ==> t.lastSwitch == s.now)
            && (Issuing(p) ==> NoneAt(t, Base))
            && (p.Dropped? ==> AllIssuing(t) && t.now > t.lastSwitch + f.patience)
  {
    var t := Next(f, s, Reload(i, p, config));
    assert forall j :: j in s.phases && j != i ==> t.phases[j] == s.phases[j];
    assert t.phases[i] == p;
    if AllIssuing(t) && !AllIssuing(s) {
      var j :| j in s.phases && !Issuing(s.phases[j]);
      assert j == i && s.phases[i].Learned? && p.Switched?;
    }
  }

  lemma ReloadKeeps(f: Fleet, s: State, i: nat, p: Phase, config: Secrets)
    requires Inv(f, s) && Enabled(f, s, Reload(i, p, config))
    ensures Inv(f, Next(f, s, Reload(i, p, config)))
  {
    var t := Next(f, s, Reload(i, p, config));
    ReloadMoves(f, s, i, p, config);
    forall j | j in t.phases
      ensures Fits(f, t.epoch, t.phases[j], t.secrets[j])
      ensures Issuing(t.phases[j]) ==> NoneAt(t, Base)
      ensures t.phases[j].Dropped? ==> AllIssuing(t) && t.now > t.lastSwitch + f.patience
    {
      assert j == i || (t.phases[j] == s.phases[j] && t.secrets[j] == s.secrets[j]);
    }
    forall c | c in t.minted
      ensures Placed(f, t, c)
    {
      assert Placed(f, s, c);
    }
  }

  lemma NextRolloutKeeps(f: Fleet, s: State)
    requires Inv(f, s) && Enabled(f, s, NextRollout)
    ensures Inv(f, Next(f, s, NextRollout))
  {
    var t := Next(f, s, NextRollout);
    var i :| i in s.phases;
    assert s.phases[i].Dropped? && t.phases[i].Base?;
    assert t.phases.Keys == s.phases.Keys;
    forall c | c in t.minted
      ensures Placed(f, t, c)
    {
      assert Placed(f, s, c);
      assert !AllIssuing(t);
    }
  }

  lemma StepKeeps(f: Fleet, s: State, a: Action)
    requires Inv(f, s) && Enabled(f, s, a)
    ensures Inv(f, Next(f, s, a))
  {
    match a
    case Tick(d) =>
      forall c | c in s.minted
        ensures Placed(f, Next(f, s, a), c)
      {
        assert Placed(f, s, c);
      }
    case Issue(i, client, ip) => IssueKeeps(f, s, i, client, ip);
    case Reload(i, p, config) => ReloadKeeps(f, s, i, p, config);
    case NextRollout => NextRolloutKeeps(f, s);
  }

  lemma {:induction false} RunKeeps(f: Fleet, s: State, acts: seq<Action>)
    requires Inv(f, s) && Run(f, s, acts)
    ensures Inv(f, After(f, s, acts))
    decreases |acts|
  {
    if acts != [] {
      StepKeeps(f, s, acts[0]);
      RunKeeps(f, Next(f, s, acts[0]), acts[1..]);
    }
  }

  // ---------------------------------------------------------------------------
  // Every cookie in its hour is good everywhere
  // ---------------------------------------------------------------------------

  /** When a minted cookie was issued, by the clock of the server that issued it. */
  function IssuedAt(f: Fleet, c: Minted): int {
    f.clock(c.server, c.at)
  }

  /** The octets handed out for a minted cookie. */
  function Octets(f: Fleet, c: Minted): seq<Byte> {
    ServerCookie(f.hash, f.key(c.index), c.client, Stamp(IssuedAt(f, c)), c.ip)
  }

  /** What a server says of a cookie presented from the address it was minted for. */
  function Verdict(f: Fleet, s: State, i: nat, c: Minted): Status
    requires i in s.secrets
  {
    Check(f.hash, s.secrets[i], c.client, Octets(f, c), c.ip, Stamp(f.clock(i, s.now)))
  }

  /** A server issues with the secret its own configuration generates with. */
  lemma IssuedUnderOwnSecret(f: Fleet, s: State, i: nat, client: Client, ip: seq<Byte>)
    requires Inv(f, s) && i in s.phases
    ensures i in s.secrets
    ensures var minted := Next(f, s, Issue(i, client, ip)).minted;
            Octets(f, minted[|minted| - 1])
            == ServerCookie(f.hash, s.secrets[i].generate, client, Stamp(f.clock(i, s.now)), ip)
  {
    assert Fits(f, s.epoch, s.phases[i], s.secrets[i]);
  }

  /** While the wait has not run out on it, every server holds a cookie's secret. */
  lemma HeldEverywhere(f: Fleet, s: State, c: Minted, i: nat)
    requires Inv(f, s) && c in s.minted && s.now - c.at <= f.patience && i in s.phases
    ensures i in s.secrets && Holds(s.secrets[i], f.key(c.index))
  {
    assert Placed(f, s, c) && Fits(f, s.epoch, s.phases[i], s.secrets[i]);
  }

  lemma AcceptedInState(f: Fleet, s: State, d: int, c: Minted, i: nat)
    requires Inv(f, s) && Synchronised(f, d) && 0 <= d <= MAX_FUTURE && f.patience + d >= MAX_AGE
    requires c in s.minted && s.now - c.at <= MAX_AGE - d && i in s.phases
    ensures i in s.secrets && Verdict(f, s, i, c).Validated()
  {
    HeldEverywhere(f, s, c, i);
    assert Placed(f, s, c);
    WindowAcrossWrap(f.clock(i, s.now), IssuedAt(f, c));
    HolderAccepts(f.hash, s.secrets[i], f.key(c.index), c.client, Stamp(IssuedAt(f, c)), c.ip, Stamp(f.clock(i, s.now)));
  }

  /**
    Any number of servers, any interleaving of reloads, issues and rollouts in section 5's
    order, clocks that disagree by at most d within the five minutes' grace: every cookie
    issued by any server at most an hour less d ago is accepted by every server, if the
    wait before a secret is dropped makes up the rest of the hour.
  */
  lemma EveryServerAccepts(f: Fleet, s: State, d: int, acts: seq<Action>, c: Minted, i: nat)
    requires Initial(f, s) && Run(f, s, acts)
    requires Synchronised(f, d) && 0 <= d <= MAX_FUTURE && f.patience + d >= MAX_AGE
    requires var end := After(f, s, acts); c in end.minted && end.now - c.at <= MAX_AGE - d && i in end.phases
    ensures var end := After(f, s, acts); i in end.secrets && Verdict(f, end, i, c).Validated()
  {
    InitialIsOk(f, s);
    RunKeeps(f, s, acts);
    AcceptedInState(f, After(f, s, acts), d, c, i);
  }

  /** The design's own case: one clock, and a wait of more than the whole hour. */
  lemma OneClockAccepts(f: Fleet, s: State, acts: seq<Action>, c: Minted, i: nat)
    requires Initial(f, s) && Run(f, s, acts)
    requires (forall j: nat, t :: f.clock(j, t) == t) && f.patience >= MAX_AGE
    requires var end := After(f, s, acts); c in end.minted && end.now - c.at <= MAX_AGE && i in end.phases
    ensures var end := After(f, s, acts); i in end.secrets && Verdict(f, end, i, c).Validated()
  {
    EveryServerAccepts(f, s, 0, acts, c, i);
  }

  // ---------------------------------------------------------------------------
  // Who accepts a cookie, exactly, and why neither bound can be relaxed
  // ---------------------------------------------------------------------------

  /** Two secrets that hash what went into a cookie to the same eight octets. */
  predicate Collide(f: Fleet, c: Minted, k: Key) {
    f.hash(k, MintInput(c.client, Stamp(IssuedAt(f, c)), c.ip))
    == f.hash(f.key(c.index), MintInput(c.client, Stamp(IssuedAt(f, c)), c.ip))
  }

  lemma VerifiesIff(f: Fleet, c: Minted, now: int, k: Key)
    ensures Verify(f.hash, k, c.client, Octets(f, c), c.ip, Stamp(now))
            <==> InWindow(Stamp(now), Stamp(IssuedAt(f, c))) && Collide(f, c, k)
  {
    var ts := Stamp(IssuedAt(f, c));
    if Verify(f.hash, k, c.client, Octets(f, c), c.ip, Stamp(now)) {
      MintBinds(f.hash, f.key(c.index), c.client, ts, c.ip, k, c.client, c.ip, Stamp(now));
    }
    if Collide(f, c, k) {
      MintVerifies(f.hash, k, c.client, ts, c.ip, Stamp(now));
      assert ServerCookie(f.hash, k, c.client, ts, c.ip) == Octets(f, c);
    }
  }

  /**
    Which servers accept a cookie, whatever secrets they hold: those whose clock is in its
    window and that hold its secret or, by a collision of the hash, one as good.
  */
  lemma AcceptedIff(f: Fleet, c: Minted, now: int, held: Secrets)
    ensures Check(f.hash, held, c.client, Octets(f, c), c.ip, Stamp(now)).Validated()
            <==> InWindow(Stamp(now), Stamp(IssuedAt(f, c))) && exists k :: Holds(held, k) && Collide(f, c, k)
  {
    CheckMeaning(f.hash, held, c.client, Octets(f, c), c.ip, Stamp(now));
    forall k
      ensures Verify(f.hash, k, c.client, Octets(f, c), c.ip, Stamp(now))
              <==> InWindow(Stamp(now), Stamp(IssuedAt(f, c))) && Collide(f, c, k)
    {
      VerifiesIff(f, c, now, k);
    }
  }

  /** A server none of whose secrets is the cookie's, or as good, refuses it. */
  lemma StrangerRefuses(f: Fleet, c: Minted, now: int, held: Secrets)
    requires forall k :: Holds(held, k) ==> !Collide(f, c, k)
    ensures Check(f.hash, held, c.client, Octets(f, c), c.ip, Stamp(now)) == Invalid
  {
    AcceptedIff(f, c, now, held);
  }

  lemma RunSnoc(f: Fleet, s: State, acts: seq<Action>, a: Action)
    requires Run(f, s, acts) && Enabled(f, After(f, s, acts), a)
    ensures Run(f, s, acts + [a]) && After(f, s, acts + [a]) == Next(f, After(f, s, acts), a)
    decreases |acts|
  {
    if acts == [] {
      assert [a][1..] == [];
    } else {
      assert (acts + [a])[1..] == acts[1..] + [a];
      RunSnoc(f, Next(f, s, acts[0]), acts[1..], a);
    }
  }

  /** Appends one step to a run known to end in s, and says where it ends. */
  lemma Then(f: Fleet, start: State, acts: seq<Action>, s: State, a: Action) returns (acts': seq<Action>, t: State)
    requires Run(f, start, acts) && After(f, start, acts) == s && Enabled(f, s, a)
    ensures Run(f, start, acts') && t == After(f, start, acts') == Next(f, s, a)
  {
    RunSnoc(f, start, acts, a);
    acts', t := acts + [a], Next(f, s, a);
  }

  /** A lone server hands out a cookie, then learns of the next secret and switches to it at once. */
  lemma IssuesThenSwitches(f: Fleet, start: State, client: Client, ip: seq<Byte>)
    returns (acts: seq<Action>, s: State)
    requires Initial(f, start) && start.phases == map[0 := Base]
    ensures Run(f, start, acts) && s == After(f, start, acts)
    ensures s.epoch == 0 && s.phases == map[0 := Switched] && s.now == s.lastSwitch == start.now
    ensures s.minted == [Minted(start.now, 0, 0, client, ip)]
  {
    acts, s := Then(f, start, [], start, Issue(0, client, ip));
    acts, s := Then(f, start, acts, s, Reload(0, Learned, Secrets(f.key(0), [f.key(1)])));
    acts, s := Then(f, start, acts, s, Reload(0, Switched, Secrets(f.key(1), [f.key(0)])));
  }

  /**
    Any shorter wait is too short, whatever the clocks: if patience and d do not make up the
    hour, there is a run in section 5's order that ends with a cookie no older than an hour
    less d refused, short of a hash collision.
  */
  lemma ShorterWaitIsTooShort(f: Fleet, start: State, d: int, client: Client, ip: seq<Byte>)
    returns (acts: seq<Action>, c: Minted)
    requires Initial(f, start) && start.phases == map[0 := Base]
    requires 0 <= d <= MAX_AGE && f.patience + d < MAX_AGE
    requires !Collide(f, Minted(start.now, 0, 0, client, ip), f.key(1))
    ensures Run(f, start, acts)
    ensures var end := After(f, start, acts);
            && c in end.minted && end.now - c.at <= MAX_AGE - d
            && 0 in end.secrets && Verdict(f, end, 0, c) == Invalid
  {
    var s;
    acts, s := IssuesThenSwitches(f, start, client, ip);
    c := s.minted[0];
    acts, s := Then(f, start, acts, s, Tick(if f.patience < 0 then 0 else f.patience + 1));
    acts, s := Then(f, start, acts, s, Reload(0, Dropped, Secrets(f.key(1), [])));
    StrangerRefuses(f, c, f.clock(0, s.now), s.secrets[0]);
  }

  /** Nor can an older cookie be promised: one second more, met by a clock d ahead, is refused. */
  lemma SkewEatsTheHour(f: Fleet, s: State, d: int, c: Minted, i: nat)
    requires i in s.secrets && 0 <= d && s.now - c.at == MAX_AGE - d + 1
    requires f.clock(i, s.now) - IssuedAt(f, c) == s.now - c.at + d
    ensures Verdict(f, s, i, c) == Invalid
  {
    WindowAcrossWrap(f.clock(i, s.now), IssuedAt(f, c));
    AcceptedIff(f, c, f.clock(i, s.now), s.secrets[i]);
  }
}
