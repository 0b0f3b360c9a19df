/**
  What an UPDATE does to the zone, said of its members alone: which records are there
  after an add or a deletion (sections 3.4.2.2 to 3.4.2.4 of RFC 2136), record by record
  through a whole update section.
*/
module ZoneEffects {
  import opened Wrappers
  import opened Bytes
  import opened Names
  import opened Zone
  import opened ZoneInvariant
  import opened ZoneProperties

  // ---------------------------------------------------------------------------
  // Which records are there after one update record u
  // ---------------------------------------------------------------------------

  /** A CNAME is not added beside other data, nor other data beside a CNAME. */
  ghost predicate Barred(rs: seq<Record>, u: Record) {
    exists r :: r in rs && Owner(r) == Owner(u)
      && if u.rrtype == TYPE_CNAME then r.rrtype !in {TYPE_CNAME, TYPE_RRSIG, TYPE_NSEC} else r.rrtype == TYPE_CNAME
  }

  ghost predicate Present(rs: seq<Record>, u: Record) {
    exists r :: r in rs && Identity(r) == Identity(u)
  }

  /** The added record is there with its TTL; whatever else was there stays, but for the CNAME it replaces. */
  ghost predicate AfterAdd(rs: seq<Record>, u: Record, x: Record) {
    if Barred(rs, u) then x in rs
    else if Identity(x) != Identity(u) then
      x in rs && !(u.rrtype == TYPE_CNAME && x.rrtype == TYPE_CNAME && Owner(x) == Owner(u))
    else if Present(rs, u) then exists r :: r in rs && Identity(r) == Identity(u) && x == r.(ttl := u.ttl)
    else x == u
  }

  /** At the apex, with a serial greater than the zone's. */
  ghost predicate Supersedes(rs: seq<Record>, zone: string, u: Record) {
    && u.rdata.Soa? && Owner(u) == zone
    && forall r :: r in rs && r.rrtype == TYPE_SOA ==> r.rdata.Soa? && SerialGreater(u.rdata.serial, r.rdata.serial)
  }

  /** An SOA at the apex with a greater serial takes the place of the zone's. */
  ghost predicate AfterSoaAdd(rs: seq<Record>, zone: string, u: Record, x: Record) {
    if Supersedes(rs, zone, u) then x == u || (x in rs && x.rrtype != TYPE_SOA) else x in rs
  }

  /** Everything of that type at the name is gone (of any type, for ANY), but the SOA and NS of the apex. */
  ghost predicate AfterRRsetDeleted(rs: seq<Record>, zone: string, u: Record, x: Record) {
    && x in rs
    && !(Owner(x) == Owner(u) && (u.rrtype == TYPE_ANY || x.rrtype == u.rrtype)
         && !(Owner(u) == zone && x.rrtype in {TYPE_SOA, TYPE_NS}))
  }

  /** That one record is gone, unless it is the apex SOA or the only apex NS. */
  ghost predicate AfterRecordDeleted(rs: seq<Record>, zone: string, u: Record, x: Record) {
    && x in rs
    && (Identity(x) == Identity(u) ==>
          Owner(u) == zone
          && (u.rrtype == TYPE_SOA
              || (u.rrtype == TYPE_NS && forall y :: y in rs && y.rrtype == TYPE_NS && Owner(y) == zone ==> y == x)))
  }

  ghost predicate After(rs: seq<Record>, zone: string, u: Record, x: Record) {
    if u.cls == CLASS_IN then (if u.rrtype == TYPE_SOA then AfterSoaAdd(rs, zone, u, x) else AfterAdd(rs, u, x))
    else if u.cls == CLASS_ANY then AfterRRsetDeleted(rs, zone, u, x)
    else if u.cls == CLASS_NONE then AfterRecordDeleted(rs, zone, u, x)
    else x in rs
  }

  /** From zone rs, update record u leads to the records of z. */
  ghost predicate LeadsTo(rs: seq<Record>, zone: string, u: Record, z: seq<Record>) {
    forall x :: x in z <==> After(rs, zone, u, x)
  }

  // ---------------------------------------------------------------------------
  // Each update form does just that
  // ---------------------------------------------------------------------------

  /** In the zone, the selectors and the scan mean equality of owners and of identities. */
  lemma Selects<View>(cfg: Config<View>, rs: seq<Record>, u: Record)
    requires (forall r :: r in rs ==> Resident(cfg, r)) && Parsed(u)
    ensures forall r, t :: r in rs ==> (InRRset(Owner(u), t)(r) <==> Owner(r) == Owner(u) && r.rrtype == t)
    ensures forall r :: r in rs ==> (NonCname(Owner(u))(r)
                                     <==> Owner(r) == Owner(u) && r.rrtype !in {TYPE_CNAME, TYPE_RRSIG, TYPE_NSEC})
    ensures forall r :: r in rs ==> (Matches(r, u) <==> Identity(r) == Identity(u))
  {
    forall r | r in rs
      ensures Owns(r, Owner(u)) <==> Owner(r) == Owner(u)
      ensures Matches(r, u) <==> Identity(r) == Identity(u)
    {
      ResidentOwns(cfg, r, u);
    }
  }

  lemma ExcludedIsBarred<View>(cfg: Config<View>, rs: seq<Record>, u: Record)
    requires (forall r :: r in rs ==> Resident(cfg, r)) && Parsed(u)
    ensures Excluded(rs, u) <==> Barred(rs, u)
  {
    Selects(cfg, rs, u);
  }

  lemma NoTwins(rs: seq<Record>, i: nat, j: nat)
    requires Pairwise(rs) && i < |rs| && j < |rs|
    ensures Identity(rs[i]) == Identity(rs[j]) ==> i == j
  {
    if i < j {
      assert Compatible(rs[i], rs[j]);
    } else if j < i {
      assert Compatible(rs[j], rs[i]);
    }
  }

  lemma RetimedMembers(rs: seq<Record>, i: nat, ttl: uint32, x: Record)
    requires Pairwise(rs) && i < |rs|
    ensures x in rs[i := rs[i].(ttl := ttl)]
            <==> x == rs[i].(ttl := ttl) || (x in rs && Identity(x) != Identity(rs[i]))
  {
    var out := rs[i := rs[i].(ttl := ttl)];
    if x in out && x != out[i] {
      var k :| 0 <= k < |out| && out[k] == x;
      assert k != i;
      NoTwins(rs, i, k);
    }
    if x in rs && Identity(x) != Identity(rs[i]) {
      var k :| 0 <= k < |rs| && rs[k] == x;
      assert k != i && out[k] == x;
    }
    assert out[i] in out;
  }

  lemma RetimesPresent<View>(cfg: Config<View>, rs: seq<Record>, u: Record, i: nat, x: Record)
    requires WellFormed(cfg, rs) && i < |rs| && Identity(rs[i]) == Identity(u) && !Barred(rs, u)
    ensures x in rs[i := rs[i].(ttl := u.ttl)] <==> AfterAdd(rs, u, x)
  {
    RetimedMembers(rs, i, u.ttl, x);
    assert rs[i] in rs && Present(rs, u);
    forall r | r in rs && Identity(r) == Identity(u)
      ensures r == rs[i]
    {
      if r != rs[i] {
        PairOf(rs, r, rs[i]);
      }
    }
    if x in rs && Identity(x) != Identity(u) && u.rrtype == TYPE_CNAME && Owner(x) == Owner(u) {
      PairOf(rs, x, rs[i]);
    }
  }

  lemma JoinedMembers<View>(cfg: Config<View>, rs: seq<Record>, u: Record)
    requires (forall r :: r in rs ==> Resident(cfg, r)) && Parsed(u)
    ensures forall x :: x in Joined(rs, u) <==>
              x == u || (x in rs && !(u.rrtype == TYPE_CNAME && x.rrtype == TYPE_CNAME && Owner(x) == Owner(u)))
  {
    if u.rrtype == TYPE_CNAME {
      Selects(cfg, rs, u);
      WithoutMembers(rs, InRRset(Owner(u), TYPE_CNAME));
    }
  }

  lemma JoinsAbsent<View>(cfg: Config<View>, rs: seq<Record>, u: Record, x: Record)
    requires WellFormed(cfg, rs) && Parsed(u) && !Present(rs, u) && !Barred(rs, u)
    ensures x in Joined(rs, u) <==> AfterAdd(rs, u, x)
  {
    JoinedMembers(cfg, rs, u);
  }

  lemma AddOtherMeaning<View>(cfg: Config<View>, rs: seq<Record>, changed: bool, u: Record)
    requires WellFormed(cfg, rs) && Parsed(u) && !Barred(rs, u)
    ensures forall x :: x in AddOther(rs, changed, u).rrs <==> AfterAdd(rs, u, x)
  {
    var i := FirstIndex(rs, MatchesRecord(u));
    FirstIndexMeaning(rs, MatchesRecord(u));
    Selects(cfg, rs, u);
    forall x
      ensures x in AddOther(rs, changed, u).rrs <==> AfterAdd(rs, u, x)
    {
      if i >= 0 {
        assert rs[i] in rs && MatchesRecord(u)(rs[i]);
        assert rs[i].ttl == u.ttl ==> rs[i := rs[i].(ttl := u.ttl)] == rs;
        RetimesPresent(cfg, rs, u, i, x);
      } else {
        forall r | r in rs
          ensures Identity(r) != Identity(u)
        {
          var k :| 0 <= k < |rs| && rs[k] == r;
          assert !MatchesRecord(u)(rs[k]);
        }
        JoinsAbsent(cfg, rs, u, x);
      }
    }
  }

  lemma TakesMeansSupersedes<View>(cfg: Config<View>, rs: seq<Record>, u: Record)
    requires WellFormed(cfg, rs)
    ensures SoaTakes(u, cfg.zone, SerialOf(rs)) <==> Supersedes(rs, cfg.zone, u)
  {
    var i := ExactlyOneSoa(cfg, rs);
    assert rs[i] in rs;
  }

  lemma SoaAddMeaning<View>(cfg: Config<View>, rs: seq<Record>, changed: bool, u: Record)
    requires WellFormed(cfg, rs)
    ensures forall x :: x in AddSoa(rs, changed, u, cfg.zone).rrs <==> AfterSoaAdd(rs, cfg.zone, u, x)
  {
    TakesMeansSupersedes(cfg, rs, u);
    WithoutMembers(rs, IsSoa());
  }

  lemma RRsetDeletedMeaning<View>(cfg: Config<View>, rs: seq<Record>, changed: bool, u: Record)
    requires WellFormed(cfg, rs) && Parsed(u)
    ensures forall x :: x in DeleteRRset(rs, changed, u, cfg.zone).rrs <==> AfterRRsetDeleted(rs, cfg.zone, u, x)
  {
    forall r | r in rs
      ensures Owns(r, Owner(u)) <==> Owner(r) == Owner(u)
    {
      ResidentOwns(cfg, r, u);
    }
    var apex := Owner(u) == cfg.zone;
    if u.rrtype == TYPE_ANY {
      WithoutMembers(rs, AtName(Owner(u), apex));
    } else if !(apex && u.rrtype in {TYPE_SOA, TYPE_NS}) {
      WithoutMembers(rs, InRRset(Owner(u), u.rrtype));
    }
  }

  lemma {:induction false} CountOne(rs: seq<Record>, hit: Record -> bool, i: nat)
    requires i < |rs| && hit(rs[i])
    requires forall j :: 0 <= j < |rs| && hit(rs[j]) ==> j == i
    ensures CountOf(rs, hit) == 1
  {
    var n := |rs| - 1;
    if i == n {
      assert forall r :: r in rs[..n] ==> !hit(r);
      CountZero(rs[..n], hit);
    } else {
      CountOne(rs[..n], hit, i);
    }
  }

  /** The count of apex NS records finds a spare one exactly when there is a spare one. */
  lemma OnlyApexNs<View>(cfg: Config<View>, rs: seq<Record>, i: nat)
    requires Sound(cfg) && WellFormed(cfg, rs) && i < |rs| && ApexNs(cfg, rs[i])
    ensures CountOf(rs, InRRset(cfg.zone, TYPE_NS)) <= 1 <==> forall y :: y in rs && ApexNs(cfg, y) ==> y == rs[i]
  {
    var hit := InRRset(cfg.zone, TYPE_NS);
    forall r | r in rs
      ensures hit(r) <==> ApexNs(cfg, r)
    {
      SameNameOfFqdn(r.name, cfg.zone);
    }
    if forall y :: y in rs && ApexNs(cfg, y) ==> y == rs[i] {
      forall j | 0 <= j < |rs| && hit(rs[j])
        ensures j == i
      {
        assert rs[j] in rs && rs[j] == rs[i];
        NoTwins(rs, i, j);
      }
      CountOne(rs, hit, i);
    } else if CountOf(rs, hit) <= 1 {
      var y :| y in rs && ApexNs(cfg, y) && y != rs[i];
      var j :| 0 <= j < |rs| && rs[j] == y;
      TwoHits(rs, hit, i, j);
      assert false;
    }
  }

  lemma {:induction false} TwoHits(rs: seq<Record>, hit: Record -> bool, i: nat, j: nat)
    requires i < |rs| && j < |rs| && i != j && hit(rs[i]) && hit(rs[j])
    ensures CountOf(rs, hit) >= 2
  {
    var n := |rs| - 1;
    if i == n || j == n {
      var k := if i == n then j else i;
      assert rs[..n][k] == rs[k] && rs[k] in rs[..n];
      CountZero(rs[..n], hit);
    } else {
      TwoHits(rs[..n], hit, i, j);
    }
  }

  lemma CutMembers(rs: seq<Record>, i: nat, x: Record)
    requires Pairwise(rs) && i < |rs|
    ensures x in rs[..i] + rs[i + 1..] <==> x in rs && Identity(x) != Identity(rs[i])
  {
    var out := rs[..i] + rs[i + 1..];
    if x in out {
      var k :| 0 <= k < |out| && out[k] == x;
      NoTwins(rs, i, if k < i then k else k + 1);
    }
    if x in rs && x != rs[i] {
      var k :| 0 <= k < |rs| && rs[k] == x;
      RemovedMembers(rs, i, k);
    }
  }

  lemma RecordDeletedMeaning<View>(cfg: Config<View>, rs: seq<Record>, changed: bool, u: Record)
    requires Sound(cfg) && WellFormed(cfg, rs) && Parsed(u)
    ensures forall x :: x in DeleteRecord(rs, changed, u, cfg.zone).rrs <==> AfterRecordDeleted(rs, cfg.zone, u, x)
  {
    var i := FirstIndex(rs, MatchesRecord(u));
    FirstIndexMeaning(rs, MatchesRecord(u));
    Selects(cfg, rs, u);
    if i < 0 {
      forall r | r in rs
        ensures Identity(r) != Identity(u)
      {
        var k :| 0 <= k < |rs| && rs[k] == r;
        assert !MatchesRecord(u)(rs[k]);
      }
    } else {
      assert rs[i] in rs && MatchesRecord(u)(rs[i]);
      if Owner(u) == cfg.zone && u.rrtype == TYPE_NS {
        OnlyApexNs(cfg, rs, i);
      }
      DeletesAt(cfg, rs, changed, u, i);
    }
  }

  lemma OnlyTwin(rs: seq<Record>, i: nat, x: Record)
    requires Pairwise(rs) && i < |rs|
    ensures x in rs && Identity(x) == Identity(rs[i]) ==> x == rs[i]
  {
    if x in rs && x != rs[i] {
      PairOf(rs, x, rs[i]);
    }
  }

  lemma DeletesAt<View>(cfg: Config<View>, rs: seq<Record>, changed: bool, u: Record, i: nat)
    requires WellFormed(cfg, rs) && i < |rs| && Identity(rs[i]) == Identity(u) && i == FirstIndex(rs, MatchesRecord(u))
    requires Owner(u) == cfg.zone && u.rrtype == TYPE_NS ==>
               (CountOf(rs, InRRset(cfg.zone, TYPE_NS)) <= 1 <==> forall y :: y in rs && ApexNs(cfg, y) ==> y == rs[i])
    ensures forall x :: x in DeleteRecord(rs, changed, u, cfg.zone).rrs <==> AfterRecordDeleted(rs, cfg.zone, u, x)
  {
    assert rs[i] in rs;
    if Indelible(rs, u, cfg.zone) {
      forall x
        ensures x in rs <==> AfterRecordDeleted(rs, cfg.zone, u, x)
      {
        OnlyTwin(rs, i, x);
      }
    } else {
      assert DeleteRecord(rs, changed, u, cfg.zone).rrs == rs[..i] + rs[i + 1..];
      forall x
        ensures x in rs[..i] + rs[i + 1..] <==> AfterRecordDeleted(rs, cfg.zone, u, x)
      {
        OnlyTwin(rs, i, x);
        CutMembers(rs, i, x);
      }
    }
  }

  /** One update record, whatever its form: the zone holds exactly what it should hold after. */
  lemma OneRecordMeaning<View>(cfg: Config<View>, a: Applied, u: Record)
    requires Sound(cfg) && WellFormed(cfg, a.rrs) && Acceptable(cfg, u)
    ensures LeadsTo(a.rrs, cfg.zone, u, ApplyOne(a, u, cfg.zone).rrs)
  {
    if u.cls == CLASS_IN {
      if u.rrtype == TYPE_SOA {
        SoaAddMeaning(cfg, a.rrs, a.changed, u);
      } else {
        ExcludedIsBarred(cfg, a.rrs, u);
        if !Barred(a.rrs, u) {
          AddOtherMeaning(cfg, a.rrs, a.changed, u);
        }
      }
    } else if u.cls == CLASS_ANY {
      RRsetDeletedMeaning(cfg, a.rrs, a.changed, u);
    } else if u.cls == CLASS_NONE {
      RecordDeletedMeaning(cfg, a.rrs, a.changed, u);
    }
  }

  /** An add reports a change exactly when it made one. */
  lemma AddReports<View>(cfg: Config<View>, a: Applied, u: Record)
    requires WellFormed(cfg, a.rrs) && u.cls == CLASS_IN
    ensures ApplyOne(a, u, cfg.zone).changed <==> a.changed || ApplyOne(a, u, cfg.zone).rrs != a.rrs
  {
    var out, i := ApplyOne(a, u, cfg.zone), FirstIndex(a.rrs, MatchesRecord(u));
    if u.rrtype == TYPE_SOA {
      TakesMeansSupersedes(cfg, a.rrs, u);
      assert Supersedes(a.rrs, cfg.zone, u) ==> out.rrs[|out.rrs| - 1] == u && u !in a.rrs;
    } else if !Excluded(a.rrs, u) && i >= 0 {
      assert a.rrs[i].ttl != u.ttl ==> out.rrs[i] != a.rrs[i];
    } else if !Excluded(a.rrs, u) {
      FirstIndexMeaning(a.rrs, MatchesRecord(u));
      assert out.rrs[|out.rrs| - 1] == u && out.rrs != a.rrs by {
        if u in a.rrs {
          var k :| 0 <= k < |a.rrs| && a.rrs[k] == u;
          assert !MatchesRecord(u)(a.rrs[k]);
          ResidentOwns(cfg, a.rrs[k], u);
        }
      }
    }
  }

  lemma RRsetDeletionReports(a: Applied, u: Record, zone: string)
    requires u.cls == CLASS_ANY
    ensures ApplyOne(a, u, zone).changed <==> a.changed || ApplyOne(a, u, zone).rrs != a.rrs
  {
    ApplyOneReports(a, u, zone);
    var drop := if u.rrtype == TYPE_ANY then AtName(Owner(u), Owner(u) == zone) else InRRset(Owner(u), u.rrtype);
    WithoutMembers(a.rrs, drop);
  }

  /** One update record reports a change exactly when it made one. */
  lemma ChangeIsReported<View>(cfg: Config<View>, a: Applied, u: Record)
    requires WellFormed(cfg, a.rrs)
    ensures ApplyOne(a, u, cfg.zone).changed <==> a.changed || ApplyOne(a, u, cfg.zone).rrs != a.rrs
  {
    if u.cls == CLASS_IN {
      AddReports(cfg, a, u);
    } else if u.cls == CLASS_ANY {
      RRsetDeletionReports(a, u, cfg.zone);
    } else if u.cls == CLASS_NONE {
      var i := DeleteRecordCase(a.rrs, a.changed, u, cfg.zone);
      ApplyOneReports(a, u, cfg.zone);
    }
  }

  // ---------------------------------------------------------------------------
  // A whole message
  // ---------------------------------------------------------------------------

  ghost function Leading(zone: string): (seq<Record>, Record, seq<Record>) -> bool {
    (rs: seq<Record>, u: Record, z: seq<Record>) => LeadsTo(rs, zone, u, z)
  }

  /** One state before the first step and one after each. */
  ghost predicate Chained<Z, U>(zs: seq<Z>, us: seq<U>, leads: (Z, U, Z) -> bool) {
    |zs| == |us| + 1 && forall i :: 0 <= i < |us| ==> leads(zs[i], us[i], zs[i + 1])
  }

  /** The zone after each update record of a section, starting with the zone before the first. */
  ghost predicate Steps(zs: seq<seq<Record>>, us: seq<Record>, zone: string) {
    Chained(zs, us, Leading(zone))
  }

  lemma SectionStep<View>(cfg: Config<View>, rs: seq<Record>, us: seq<Record>)
    requires Sound(cfg) && WellFormed(cfg, rs) && us != [] && forall v :: v in us ==> Acceptable(cfg, v)
    ensures LeadsTo(Apply(rs, us[..|us| - 1], cfg.zone).rrs, cfg.zone, us[|us| - 1], Apply(rs, us, cfg.zone).rrs)
  {
    ApplyKeeps(cfg, rs, us[..|us| - 1]);
    OneRecordMeaning(cfg, Apply(rs, us[..|us| - 1], cfg.zone), us[|us| - 1]);
  }

  lemma ChainedSnoc<Z, U>(zs: seq<Z>, us: seq<U>, leads: (Z, U, Z) -> bool, z: Z)
    requires us != [] && Chained(zs, us[..|us| - 1], leads) && leads(zs[|us| - 1], us[|us| - 1], z)
    ensures Chained(zs + [z], us, leads)
  {
    var next := zs + [z];
    forall i | 0 <= i < |us|
      ensures leads(next[i], us[i], next[i + 1])
    {
      assert i < |us| - 1 ==> leads(zs[i], us[..|us| - 1][i], zs[i + 1]);
    }
  }

  lemma {:induction false} SectionSteps<View>(cfg: Config<View>, rs: seq<Record>, us: seq<Record>)
    returns (zs: seq<seq<Record>>)
    requires Sound(cfg) && WellFormed(cfg, rs) && forall u :: u in us ==> Acceptable(cfg, u)
    ensures Steps(zs, us, cfg.zone) && zs[0] == rs && zs[|us|] == Apply(rs, us, cfg.zone).rrs
  {
    if us == [] {
      zs := [rs];
    } else {
      var before := SectionSteps(cfg, rs, us[..|us| - 1]);
      var z := Apply(rs, us, cfg.zone).rrs;
      SectionStep(cfg, rs, us);
      ChainedSnoc(before, us, Leading(cfg.zone), z);
      zs := before + [z];
    }
  }

  /** The same SOA record, the serial apart. */
  ghost predicate SameSoa(x: Record, r: Record) {
    x.rdata.Soa? && r.rdata.Soa? && r == x.(rdata := Soa(r.rdata.serial, x.rdata.rest))
  }

  /** Two zones that hold the same records, the serial of the SOA apart. */
  ghost predicate SameButSerial(out: seq<Record>, rs: seq<Record>) {
    && (forall x: Record :: x.rrtype != TYPE_SOA ==> (x in out <==> x in rs))
    && (forall x: Record, r: Record :: x in out && r in rs && x.rrtype == TYPE_SOA == r.rrtype ==> SameSoa(x, r))
  }

  lemma OtherIndexes(rs: seq<Record>, i: nat, y: Record, x: Record)
    requires i < |rs| && x != rs[i] && x != y
    ensures x in rs[i := y] <==> x in rs
  {
    var out := rs[i := y];
    if x in rs {
      var k :| 0 <= k < |rs| && rs[k] == x;
      assert out[k] == x;
    }
    if x in out {
      var k :| 0 <= k < |out| && out[k] == x;
      assert rs[k] == x;
    }
  }

  /** Settling the serial touches the SOA, and of it nothing but the serial. */
  lemma SettledMembers<View>(cfg: Config<View>, before: seq<Record>, rs: seq<Record>)
    requires WellFormed(cfg, rs)
    ensures SameButSerial(WithSerial(before, rs), rs)
  {
    var i := ExactlyOneSoa(cfg, rs);
    OwnSerialAside(cfg, rs);
    if WithSerial(before, rs) != rs {
      BumpedMembers(cfg, rs, i);
    }
  }

  lemma BumpedMembers<View>(cfg: Config<View>, rs: seq<Record>, i: nat)
    requires WellFormed(cfg, rs) && i < |rs| && i == FirstIndex(rs, CarriesSerial()) && rs[i].rrtype == TYPE_SOA
    requires forall j :: 0 <= j < |rs| && rs[j].rrtype == TYPE_SOA ==> j == i
    ensures SameButSerial(Bumped(rs), rs)
  {
    var y := Bumped(rs)[i];
    assert Bumped(rs) == rs[i := y] && SameSoa(y, rs[i]) && y.rrtype == TYPE_SOA;
    RewrittenSoa(rs, i, y);
  }

  lemma RewrittenSoa(rs: seq<Record>, i: nat, y: Record)
    requires i < |rs| && rs[i].rrtype == y.rrtype == TYPE_SOA && SameSoa(y, rs[i])
    requires forall j :: 0 <= j < |rs| && rs[j].rrtype == TYPE_SOA ==> j == i
    ensures SameButSerial(rs[i := y], rs)
  {
    var out := rs[i := y];
    forall x: Record | x.rrtype != TYPE_SOA
      ensures x in out <==> x in rs
    {
      OtherIndexes(rs, i, y, x);
    }
    forall x, r | x in out && r in rs && x.rrtype == TYPE_SOA == r.rrtype
      ensures SameSoa(x, r)
    {
      var k :| 0 <= k < |out| && out[k] == x;
      var j :| 0 <= j < |rs| && rs[j] == r;
      assert out[k].rrtype == rs[k].rrtype;
    }
  }

  lemma OwnSerialAside<View>(cfg: Config<View>, rs: seq<Record>)
    requires WellFormed(cfg, rs)
    ensures SameButSerial(rs, rs)
  {
    forall x, r | x in rs && r in rs && x.rrtype == TYPE_SOA == r.rrtype
      ensures SameSoa(x, r)
    {
      assert Resident(cfg, x);
      if x != r {
        PairOf(rs, x, r);
      }
    }
  }

  /**
    A message answered NOERROR takes effect: its update records apply one after the other,
    each as section 3.4.2 says, and what comes out is served, the serial of the SOA apart.
  */
  lemma MessageTakesEffect<View>(cfg: Config<View>, st: State<View>, m: Message) returns (zs: seq<seq<Record>>)
    requires Sound(cfg) && WellFormed(cfg, st.rrs) && ParsedMessage(m) && Serve(cfg, st, m).rcode == NoError
    ensures Steps(zs, m.updates, cfg.zone) && zs[0] == st.rrs
    ensures SameButSerial(Serve(cfg, st, m).state.rrs, zs[|m.updates|])
  {
    ServeOutcome(cfg, st, m);
    zs := SectionSteps(cfg, st.rrs, m.updates);
    ApplyKeeps(cfg, st.rrs, m.updates);
    UnchangedMeansIdentical(st.rrs, m.updates, cfg.zone);
    Settled(cfg, st.rrs, Apply(st.rrs, m.updates, cfg.zone));
  }

  lemma Settled<View>(cfg: Config<View>, rs: seq<Record>, a: Applied)
    requires WellFormed(cfg, a.rrs) && (!a.changed ==> a.rrs == rs)
    ensures SameButSerial(if a.changed then WithSerial(rs, a.rrs) else rs, a.rrs)
  {
    SettledMembers(cfg, rs, a.rrs);
    OwnSerialAside(cfg, a.rrs);
  }

  /** A message with one update record: everything but the SOA is exactly as section 3.4.2 has it. */
  lemma SingleUpdateTakesEffect<View>(cfg: Config<View>, st: State<View>, m: Message, u: Record)
    requires Sound(cfg) && WellFormed(cfg, st.rrs) && ParsedMessage(m) && m.updates == [u]
    requires Serve(cfg, st, m).rcode == NoError
    ensures forall x: Record :: x.rrtype != TYPE_SOA ==> (x in Serve(cfg, st, m).state.rrs <==> After(st.rrs, cfg.zone, u, x))
  {
    var zs := MessageTakesEffect(cfg, st, m);
    assert Leading(cfg.zone)(zs[0], m.updates[0], zs[0 + 1]);
  }
}
