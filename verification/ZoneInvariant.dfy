/**
  Every run of UPDATE messages keeps a well-formed zone well-formed
  (sections 3.4.2.2 to 3.4.2.4 of RFC 2136).
*/
module ZoneInvariant {
  import opened Wrappers
  import opened Bytes
  import opened Names
  import opened Zone

  /** The origin is stored fully qualified and in lower case. */
  predicate Sound<View>(cfg: Config<View>) {
    IsCanonical(cfg.zone)
  }

  /** What a zone record satisfies by itself: in zone, in class IN, and an SOA only at the apex. */
  predicate Resident<View>(cfg: Config<View>, r: Record) {
    Parsed(r) && r.cls == CLASS_IN && cfg.InZone(r.name)
    && (r.rrtype == TYPE_SOA ==> r.rdata.Soa? && Owner(r) == cfg.zone)
  }

  /**
    What two records of one zone satisfy: they are not the same record, not both SOAs,
    and beside a CNAME there is only RRSIG or NSEC (so never a second CNAME).
  */
  predicate Compatible(x: Record, y: Record) {
    && Identity(x) != Identity(y)
    && !(x.rrtype == TYPE_SOA && y.rrtype == TYPE_SOA)
    && (Owner(x) == Owner(y) && x.rrtype == TYPE_CNAME ==> y.rrtype in {TYPE_RRSIG, TYPE_NSEC})
    && (Owner(x) == Owner(y) && y.rrtype == TYPE_CNAME ==> x.rrtype in {TYPE_RRSIG, TYPE_NSEC})
  }

  predicate Pairwise(rs: seq<Record>) {
    forall i, j :: 0 <= i < j < |rs| ==> Compatible(rs[i], rs[j])
  }

  predicate ApexNs<View>(cfg: Config<View>, r: Record) {
    r.rrtype == TYPE_NS && Owner(r) == cfg.zone
  }

  /** One SOA, at the apex; an apex NS; CNAME exclusivity; no duplicates; every owner in zone. */
  predicate WellFormed<View>(cfg: Config<View>, rs: seq<Record>) {
    && (forall r :: r in rs ==> Resident(cfg, r))
    && Pairwise(rs)
    && (exists r :: r in rs && r.rrtype == TYPE_SOA)
    && (exists r :: r in rs && ApexNs(cfg, r))
  }

  /** Every origin has a well-formed zone: an SOA and one NS at the apex suffice. */
  lemma ApexIsEnough<View>(cfg: Config<View>, soa: Record, ns: Record)
    requires Sound(cfg) && soa.name == cfg.zone == ns.name && soa.cls == CLASS_IN == ns.cls
    requires soa.rrtype == TYPE_SOA && soa.rdata.Soa? && ns.rrtype == TYPE_NS && ns.rdata.Opaque?
    ensures WellFormed(cfg, [soa, ns])
  {
    CanonicalOfFqdn(cfg.zone);
    assert Resident(cfg, soa) && Resident(cfg, ns);
    assert soa in [soa, ns] && ns in [soa, ns] && ApexNs(cfg, ns);
  }

  /** No second SOA can sit at any other index. */
  lemma OnlySoa(rs: seq<Record>, i: nat, j: nat)
    requires Pairwise(rs) && i < |rs| && j < |rs|
    requires rs[i].rrtype == TYPE_SOA && rs[j].rrtype == TYPE_SOA
    ensures i == j
  {
  }

  /** The pairwise reading gives the counting one: exactly one SOA, found first by the serial scan. */
  lemma ExactlyOneSoa<View>(cfg: Config<View>, rs: seq<Record>) returns (i: nat)
    requires WellFormed(cfg, rs)
    ensures i < |rs| && rs[i].rrtype == TYPE_SOA && rs[i].rdata.Soa? && Owner(rs[i]) == cfg.zone
    ensures FirstIndex(rs, CarriesSerial()) == i
    ensures forall j :: 0 <= j < |rs| && rs[j].rrtype == TYPE_SOA ==> j == i
  {
    var s, _ := Landmarks(cfg, rs);
    i := s;
    assert rs[i] in rs && Resident(cfg, rs[i]);
    var k := FirstIndex(rs, CarriesSerial());
    FirstIndexMeaning(rs, CarriesSerial());
    assert CarriesSerial()(rs[i]);
    assert CarriesSerial()(rs[k]) && rs[k] in rs && Resident(cfg, rs[k]);
    OnlySoa(rs, i, k);
    forall j | 0 <= j < |rs| && rs[j].rrtype == TYPE_SOA
      ensures j == i
    {
      OnlySoa(rs, i, j);
    }
  }

  lemma PairOf(rs: seq<Record>, x: Record, y: Record)
    requires Pairwise(rs) && x in rs && y in rs && x != y
    ensures Compatible(x, y)
  {
    var i :| 0 <= i < |rs| && rs[i] == x;
    var j :| 0 <= j < |rs| && rs[j] == y;
    assert Compatible(rs[if i < j then i else j], rs[if i < j then j else i]);
  }

  lemma {:induction false} WithoutKeepsPairwise(rs: seq<Record>, drop: Record -> bool)
    requires Pairwise(rs)
    ensures Pairwise(Without(rs, drop))
  {
    if rs != [] {
      var init, last := rs[..|rs| - 1], rs[|rs| - 1];
      WithoutKeepsPairwise(init, drop);
      WithoutMembers(init, drop);
      var out := Without(init, drop);
      forall x | x in out
        ensures Compatible(x, last)
      {
        assert x in init;
        var i :| 0 <= i < |init| && init[i] == x;
        assert Compatible(rs[i], rs[|rs| - 1]);
      }
    }
  }

  lemma AppendKeepsPairwise(rs: seq<Record>, x: Record)
    requires Pairwise(rs)
    requires forall r :: r in rs ==> Compatible(r, x)
    ensures Pairwise(rs + [x])
  {
  }

  /** Deletions keep the zone well-formed as long as they spare its SOA and one apex NS. */
  lemma WithoutKeeps<View>(cfg: Config<View>, rs: seq<Record>, drop: Record -> bool)
    requires WellFormed(cfg, rs)
    requires forall r :: r in rs && r.rrtype == TYPE_SOA ==> !drop(r)
    requires forall r :: r in rs && ApexNs(cfg, r) ==> !drop(r)
    ensures WellFormed(cfg, Without(rs, drop))
  {
    WithoutKeepsPairwise(rs, drop);
    WithoutMembers(rs, drop);
    var s :| s in rs && s.rrtype == TYPE_SOA;
    var n :| n in rs && ApexNs(cfg, n);
    assert s in Without(rs, drop) && n in Without(rs, drop);
  }

  /** A new TTL, or a new serial on the one SOA, changes nothing other records can clash with. */
  predicate Retouched(r: Record, x: Record) {
    x == r.(ttl := x.ttl, rdata := x.rdata) && (x.rdata == r.rdata || x.rrtype == TYPE_SOA)
  }

  lemma RetouchedIsCompatible(r: Record, x: Record, y: Record)
    requires Retouched(r, x)
    ensures Compatible(r, y) ==> Compatible(x, y)
    ensures Compatible(y, r) ==> Compatible(y, x)
  {
  }

  lemma RewriteKeepsPairwise(rs: seq<Record>, i: nat, x: Record)
    requires i < |rs| && Pairwise(rs) && Retouched(rs[i], x)
    ensures Pairwise(rs[i := x])
  {
    var out := rs[i := x];
    forall j, k | 0 <= j < k < |out|
      ensures Compatible(out[j], out[k])
    {
      assert Compatible(rs[j], rs[k]);
      if j == i {
        RetouchedIsCompatible(rs[i], x, rs[k]);
      } else if k == i {
        RetouchedIsCompatible(rs[i], x, rs[j]);
      }
    }
  }

  lemma RewriteKeepsResidents<View>(cfg: Config<View>, rs: seq<Record>, i: nat, x: Record)
    requires (forall r :: r in rs ==> Resident(cfg, r)) && i < |rs| && Resident(cfg, x)
    ensures forall r :: r in rs[i := x] ==> Resident(cfg, r)
  {
    forall r | r in rs[i := x]
      ensures Resident(cfg, r)
    {
      assert r == x || r in rs;
    }
  }

  lemma RewriteKeeps<View>(cfg: Config<View>, rs: seq<Record>, i: nat, x: Record)
    requires WellFormed(cfg, rs) && i < |rs| && Retouched(rs[i], x) && Resident(cfg, x)
    ensures WellFormed(cfg, rs[i := x])
  {
    RewriteKeepsResidents(cfg, rs, i, x);
    RewriteKeepsPairwise(rs, i, x);
    var s, n := Landmarks(cfg, rs);
    RewrittenLandmark(cfg, rs, i, x, s);
    RewrittenLandmark(cfg, rs, i, x, n);
  }

  lemma RewrittenLandmark<View>(cfg: Config<View>, rs: seq<Record>, i: nat, x: Record, k: nat)
    requires i < |rs| && k < |rs| && Retouched(rs[i], x)
    ensures rs[i := x][k] in rs[i := x] && rs[i := x][k].rrtype == rs[k].rrtype
    ensures ApexNs(cfg, rs[k]) ==> ApexNs(cfg, rs[i := x][k])
  {
  }

  /** Where the SOA and an apex NS sit. */
  lemma Landmarks<View>(cfg: Config<View>, rs: seq<Record>) returns (s: nat, n: nat)
    requires WellFormed(cfg, rs)
    ensures s < |rs| && rs[s].rrtype == TYPE_SOA
    ensures n < |rs| && ApexNs(cfg, rs[n])
  {
    var soa :| soa in rs && soa.rrtype == TYPE_SOA;
    var ns :| ns in rs && ApexNs(cfg, ns);
    s :| 0 <= s < |rs| && rs[s] == soa;
    n :| 0 <= n < |rs| && rs[n] == ns;
  }

  lemma ResidentOwns<View>(cfg: Config<View>, r: Record, rr: Record)
    requires Resident(cfg, r) && Parsed(rr)
    ensures Owns(r, Canonical(rr.name)) <==> Owner(r) == Canonical(rr.name)
    ensures Matches(r, rr) <==> Identity(r) == Identity(rr)
  {
    CanonicalOfFqdn(rr.name);
    SameNameOfFqdn(r.name, Canonical(rr.name));
  }

  // ---------------------------------------------------------------------------
  // One lemma per update form
  // ---------------------------------------------------------------------------

  lemma ReplaceSoaKeeps<View>(cfg: Config<View>, rs: seq<Record>, rr: Record)
    requires WellFormed(cfg, rs)
    requires Resident(cfg, rr) && rr.rrtype == TYPE_SOA
    ensures WellFormed(cfg, Without(rs, IsSoa()) + [rr])
  {
    var kept := Without(rs, IsSoa());
    var soa :| soa in rs && soa.rrtype == TYPE_SOA;
    var n :| n in rs && ApexNs(cfg, n);
    WithoutKeepsPairwise(rs, IsSoa());
    WithoutMembers(rs, IsSoa());
    forall r | r in kept
      ensures Compatible(r, rr)
    {
      assert r in rs && !IsSoa()(r);
      PairOf(rs, r, soa);
    }
    AppendKeepsPairwise(kept, rr);
    assert n in kept;
    assert rr in kept + [rr] && n in kept + [rr];
  }

  /** The five things an add can come to. */
  datatype AddCase = Ignored | ReplacesSoa | NewTtl(i: nat) | ReplacesCname | Appends

  ghost function AddOutcome(rs: seq<Record>, rr: Record, c: AddCase): seq<Record>
    requires c.NewTtl? ==> c.i < |rs|
  {
    match c
    case Ignored => rs
    case ReplacesSoa => Without(rs, IsSoa()) + [rr]
    case NewTtl(i) => rs[i := rs[i].(ttl := rr.ttl)]
    case ReplacesCname => Without(rs, InRRset(Canonical(rr.name), TYPE_CNAME)) + [rr]
    case Appends => rs + [rr]
  }

  predicate AddGuard(rs: seq<Record>, rr: Record, zone: string, c: AddCase) {
    match c
    case Ignored => true
    case ReplacesSoa => rr.rrtype == TYPE_SOA && rr.rdata.Soa? && Canonical(rr.name) == zone
    case NewTtl(i) => rr.rrtype != TYPE_SOA && i < |rs| && Matches(rs[i], rr)
    case ReplacesCname =>
      rr.rrtype == TYPE_CNAME && (forall r :: r in rs ==> !NonCname(Canonical(rr.name))(r) && !Matches(r, rr))
    case Appends =>
      rr.rrtype !in {TYPE_SOA, TYPE_CNAME}
      && (forall r :: r in rs ==> !InRRset(Canonical(rr.name), TYPE_CNAME)(r) && !Matches(r, rr))
  }

  lemma AddCases(rs: seq<Record>, changed: bool, rr: Record, zone: string) returns (c: AddCase)
    ensures AddGuard(rs, rr, zone, c)
    ensures Add(rs, changed, rr, zone).rrs == AddOutcome(rs, rr, c)
  {
    var a := Add(rs, changed, rr, zone).rrs;
    var i := FirstIndex(rs, MatchesRecord(rr));
    FirstIndexMeaning(rs, MatchesRecord(rr));
    if a == rs {
      c := Ignored;
    } else if rr.rrtype == TYPE_SOA {
      c := ReplacesSoa;
    } else if i >= 0 {
      c := NewTtl(i);
    } else {
      assert forall r :: r in rs ==> !MatchesRecord(rr)(r);
      c := if rr.rrtype == TYPE_CNAME then ReplacesCname else Appends;
    }
  }

  lemma AddKeeps<View>(cfg: Config<View>, rs: seq<Record>, changed: bool, rr: Record)
    requires Sound(cfg) && WellFormed(cfg, rs)
    requires Parsed(rr) && rr.cls == CLASS_IN && cfg.InZone(rr.name)
    ensures WellFormed(cfg, Add(rs, changed, rr, cfg.zone).rrs)
  {
    var c := AddCases(rs, changed, rr, cfg.zone);
    match c
    case Ignored =>
    case ReplacesSoa => ReplaceSoaKeeps(cfg, rs, rr);
    case NewTtl(i) => RewriteTtlKeeps(cfg, rs, i, rr.ttl);
    case ReplacesCname => ReplaceCnameKeeps(cfg, rs, rr);
    case Appends => AppendFreshKeeps(cfg, rs, rr);
  }

  lemma RewriteTtlKeeps<View>(cfg: Config<View>, rs: seq<Record>, i: nat, ttl: uint32)
    requires WellFormed(cfg, rs) && i < |rs|
    ensures WellFormed(cfg, rs[i := rs[i].(ttl := ttl)])
  {
    assert rs[i] in rs && Resident(cfg, rs[i]);
    RewriteKeeps(cfg, rs, i, rs[i].(ttl := ttl));
  }

  /** Beside a CNAME, only what the exclusivity check lets through is left. */
  lemma BesideCname<View>(cfg: Config<View>, r: Record, rr: Record)
    requires Resident(cfg, r) && Resident(cfg, rr) && rr.rrtype == TYPE_CNAME && !Matches(r, rr)
    requires !NonCname(Canonical(rr.name))(r) && !InRRset(Canonical(rr.name), TYPE_CNAME)(r)
    ensures Compatible(r, rr)
  {
    ResidentOwns(cfg, r, rr);
  }

  lemma BesideOther<View>(cfg: Config<View>, r: Record, rr: Record)
    requires Resident(cfg, r) && Resident(cfg, rr) && rr.rrtype !in {TYPE_SOA, TYPE_CNAME} && !Matches(r, rr)
    requires !InRRset(Canonical(rr.name), TYPE_CNAME)(r)
    ensures Compatible(r, rr)
  {
    ResidentOwns(cfg, r, rr);
  }

  lemma ReplaceCnameKeeps<View>(cfg: Config<View>, rs: seq<Record>, rr: Record)
    requires WellFormed(cfg, rs) && Resident(cfg, rr)
    requires AddGuard(rs, rr, cfg.zone, ReplacesCname)
    ensures WellFormed(cfg, Without(rs, InRRset(Canonical(rr.name), TYPE_CNAME)) + [rr])
  {
    var drop := InRRset(Canonical(rr.name), TYPE_CNAME);
    WithoutKeeps(cfg, rs, drop);
    WithoutMembers(rs, drop);
    forall r | r in Without(rs, drop)
      ensures Compatible(r, rr)
    {
      assert r in rs;
      BesideCname(cfg, r, rr);
    }
    AppendKeeps(cfg, Without(rs, drop), rr);
  }

  lemma AppendFreshKeeps<View>(cfg: Config<View>, rs: seq<Record>, rr: Record)
    requires WellFormed(cfg, rs) && Resident(cfg, rr)
    requires AddGuard(rs, rr, cfg.zone, Appends)
    ensures WellFormed(cfg, rs + [rr])
  {
    forall r | r in rs
      ensures Compatible(r, rr)
    {
      BesideOther(cfg, r, rr);
    }
    AppendKeeps(cfg, rs, rr);
  }

  lemma AppendKeeps<View>(cfg: Config<View>, rs: seq<Record>, rr: Record)
    requires WellFormed(cfg, rs) && Resident(cfg, rr)
    requires forall r :: r in rs ==> Compatible(r, rr)
    ensures WellFormed(cfg, rs + [rr])
  {
    AppendKeepsPairwise(rs, rr);
    var s :| s in rs && s.rrtype == TYPE_SOA;
    var n :| n in rs && ApexNs(cfg, n);
    assert s in rs + [rr] && n in rs + [rr];
  }

  lemma DeleteRRsetKeeps<View>(cfg: Config<View>, rs: seq<Record>, changed: bool, rr: Record)
    requires Sound(cfg) && WellFormed(cfg, rs) && Parsed(rr)
    ensures WellFormed(cfg, DeleteRRset(rs, changed, rr, cfg.zone).rrs)
  {
    var name := Canonical(rr.name);
    forall r | r in rs
      ensures Owns(r, name) <==> Owner(r) == name
    {
      ResidentOwns(cfg, r, rr);
    }
    if rr.rrtype == TYPE_ANY {
      WithoutKeeps(cfg, rs, AtName(name, name == cfg.zone));
    } else if !(name == cfg.zone && (rr.rrtype == TYPE_SOA || rr.rrtype == TYPE_NS)) {
      WithoutKeeps(cfg, rs, InRRset(name, rr.rrtype));
    }
  }

  /** Two hits in the zone leave one behind when a single index is removed. */
  lemma {:induction false} CountAtLeastTwo(rs: seq<Record>, hit: Record -> bool, i: nat)
    requires i < |rs| && CountOf(rs, hit) >= 2
    ensures exists j :: 0 <= j < |rs| && j != i && hit(rs[j])
  {
    var n := |rs| - 1;
    var init := rs[..n];
    if i == n {
      CountZero(init, hit);
      var r :| r in init && hit(r);
      var j :| 0 <= j < |init| && init[j] == r;
      assert rs[j] == r;
    } else if hit(rs[n]) {
      assert n != i;
    } else {
      CountAtLeastTwo(init, hit, i);
      var j :| 0 <= j < |init| && j != i && hit(init[j]);
      assert rs[j] == init[j];
    }
  }

  lemma RemoveKeepsPairwise(rs: seq<Record>, i: nat)
    requires i < |rs| && Pairwise(rs)
    ensures Pairwise(rs[..i] + rs[i + 1..])
  {
    var out := rs[..i] + rs[i + 1..];
    forall j, k | 0 <= j < k < |out|
      ensures Compatible(out[j], out[k])
    {
      assert Compatible(rs[if j < i then j else j + 1], rs[if k < i then k else k + 1]);
    }
  }

  lemma RemovedMembers<T>(s: seq<T>, i: nat, k: nat)
    requires i < |s| && k < |s| && k != i
    ensures s[k] in s[..i] + s[i + 1..]
    ensures forall x :: x in s[..i] + s[i + 1..] ==> x in s
  {
    assert (s[..i] + s[i + 1..])[if k < i then k else k - 1] == s[k];
  }

  lemma RemoveKeeps<View>(cfg: Config<View>, rs: seq<Record>, i: nat, n: nat)
    requires WellFormed(cfg, rs) && i < |rs| && rs[i].rrtype != TYPE_SOA
    requires n < |rs| && n != i && ApexNs(cfg, rs[n])
    ensures WellFormed(cfg, rs[..i] + rs[i + 1..])
  {
    var out := rs[..i] + rs[i + 1..];
    RemoveKeepsPairwise(rs, i);
    var s, _ := Landmarks(cfg, rs);
    RemovedMembers(rs, i, s);
    RemovedMembers(rs, i, n);
  }

  /** Which apex NS is left after the last-NS guard let a deletion through. */
  lemma SparedNs<View>(cfg: Config<View>, rs: seq<Record>, rr: Record, i: nat) returns (n: nat)
    requires Sound(cfg) && WellFormed(cfg, rs) && Parsed(rr)
    requires i < |rs| && rs[i].rrtype == rr.rrtype && Owner(rs[i]) == Owner(rr)
    requires Owner(rr) == cfg.zone && rr.rrtype == TYPE_NS ==> CountOf(rs, InRRset(cfg.zone, TYPE_NS)) >= 2
    ensures n < |rs| && n != i && ApexNs(cfg, rs[n])
  {
    if Owner(rr) == cfg.zone && rr.rrtype == TYPE_NS {
      var hit := InRRset(cfg.zone, TYPE_NS);
      CountAtLeastTwo(rs, hit, i);
      n :| 0 <= n < |rs| && n != i && hit(rs[n]);
      ResidentOwns(cfg, rs[n], rr);
    } else {
      var _, ns := Landmarks(cfg, rs);
      n := ns;
    }
  }

  lemma RemoveFirstCase(rs: seq<Record>, changed: bool, rr: Record) returns (i: int)
    ensures i < 0 ==> RemoveFirst(rs, changed, rr) == Applied(rs, changed)
    ensures i >= 0 ==> i < |rs| && Matches(rs[i], rr)
                       && RemoveFirst(rs, changed, rr) == Applied(rs[..i] + rs[i + 1..], true)
  {
    i := FirstIndex(rs, MatchesRecord(rr));
    if i >= 0 {
      assert MatchesRecord(rr)(rs[i]);
    }
  }

  /** A deletion that goes through removes one index, past both apex guards. */
  lemma DeleteRecordCase(rs: seq<Record>, changed: bool, rr: Record, zone: string) returns (i: int)
    ensures i < 0 ==> DeleteRecord(rs, changed, rr, zone).rrs == rs
    ensures i >= 0 ==> i < |rs| && Matches(rs[i], rr) && !Indelible(rs, rr, zone)
                       && DeleteRecord(rs, changed, rr, zone).rrs == rs[..i] + rs[i + 1..]
  {
    if Indelible(rs, rr, zone) {
      i := -1;
    } else {
      i := RemoveFirstCase(rs, changed, rr);
    }
  }

  lemma DeleteRecordKeeps<View>(cfg: Config<View>, rs: seq<Record>, changed: bool, rr: Record)
    requires Sound(cfg) && WellFormed(cfg, rs) && Parsed(rr)
    ensures WellFormed(cfg, DeleteRecord(rs, changed, rr, cfg.zone).rrs)
  {
    var i := DeleteRecordCase(rs, changed, rr, cfg.zone);
    if i >= 0 {
      assert rs[i] in rs && Resident(cfg, rs[i]);
      var n := SparedNs(cfg, rs, rr, i);
      RemoveKeeps(cfg, rs, i, n);
    }
  }

  predicate Acceptable<View>(cfg: Config<View>, u: Record) {
    Parsed(u) && cfg.InZone(u.name)
  }

  lemma ApplyOneKeeps<View>(cfg: Config<View>, a: Applied, u: Record)
    requires Sound(cfg) && WellFormed(cfg, a.rrs) && Acceptable(cfg, u)
    ensures WellFormed(cfg, ApplyOne(a, u, cfg.zone).rrs)
  {
    if u.cls == CLASS_IN {
      AddKeeps(cfg, a.rrs, a.changed, u);
    } else if u.cls == CLASS_ANY {
      DeleteRRsetKeeps(cfg, a.rrs, a.changed, u);
    } else if u.cls == CLASS_NONE {
      DeleteRecordKeeps(cfg, a.rrs, a.changed, u);
    }
  }

  lemma {:induction false} ApplyKeeps<View>(cfg: Config<View>, rs: seq<Record>, updates: seq<Record>)
    requires Sound(cfg) && WellFormed(cfg, rs)
    requires forall u :: u in updates ==> Acceptable(cfg, u)
    ensures WellFormed(cfg, Apply(rs, updates, cfg.zone).rrs)
  {
    if updates != [] {
      var init, u := updates[..|updates| - 1], updates[|updates| - 1];
      ApplyKeeps(cfg, rs, init);
      ApplyOneKeeps(cfg, Apply(rs, init, cfg.zone), u);
    }
  }

  lemma WithSerialKeeps<View>(cfg: Config<View>, before: seq<Record>, rs: seq<Record>)
    requires WellFormed(cfg, rs)
    ensures WellFormed(cfg, WithSerial(before, rs))
  {
    var i := ExactlyOneSoa(cfg, rs);
    RewriteKeeps(cfg, rs, i, Bumped(rs)[i]);
  }

  predicate ParsedMessage(m: Message) {
    forall r :: r in m.updates ==> Parsed(r)
  }

  /** A message answered NOERROR passed the prescan, and installs the settled records if any changed. */
  lemma ServeOutcome<View>(cfg: Config<View>, st: State<View>, m: Message)
    requires ParsedMessage(m)
    ensures Serve(cfg, st, m).rcode != NoError ==> Serve(cfg, st, m).state == st
    ensures Serve(cfg, st, m).rcode == NoError ==>
              var a := Apply(st.rrs, m.updates, cfg.zone);
              && (forall u :: u in m.updates ==> Acceptable(cfg, u))
              && (if a.changed then Serve(cfg, st, m).state.rrs == WithSerial(st.rrs, a.rrs)
                  else Serve(cfg, st, m).state == st)
  {
    if Serve(cfg, st, m).rcode == NoError {
      forall u | u in m.updates
        ensures Acceptable(cfg, u)
      {
        assert cfg.PrescanRecord(u) == NoError;
      }
    }
  }

  lemma ServeKeeps<View>(cfg: Config<View>, st: State<View>, m: Message)
    requires Sound(cfg) && WellFormed(cfg, st.rrs) && ParsedMessage(m)
    ensures WellFormed(cfg, Serve(cfg, st, m).state.rrs)
  {
    ServeOutcome(cfg, st, m);
    if Serve(cfg, st, m).state != st {
      ApplyKeeps(cfg, st.rrs, m.updates);
      WithSerialKeeps(cfg, st.rrs, Apply(st.rrs, m.updates, cfg.zone).rrs);
    }
  }

  lemma ServeKeepsView<View>(cfg: Config<View>, st: State<View>, m: Message)
    requires st.view == cfg.Build(st.rrs)
    ensures Serve(cfg, st, m).state.view == cfg.Build(Serve(cfg, st, m).state.rrs)
    ensures Serve(cfg, st, m).rcode != NoError ==> Serve(cfg, st, m).state == st
    ensures Serve(cfg, st, m).state.view.Some? <==> st.view.Some? || Swaps(cfg, st, m)
  {
  }

  /** The message gets as far as installing a newly built view. */
  predicate Swaps<View>(cfg: Config<View>, st: State<View>, m: Message) {
    var a := Apply(st.rrs, m.updates, cfg.zone);
    Admission(cfg, st.rrs, m) == NoError && a.changed && cfg.Build(WithSerial(st.rrs, a.rrs)).Some?
  }

  predicate SomeSwap<View>(cfg: Config<View>, st: State<View>, ms: seq<Message>)
    decreases |ms|
  {
    ms != [] && (Swaps(cfg, st, ms[0]) || SomeSwap(cfg, Serve(cfg, st, ms[0]).state, ms[1..]))
  }

  /**
    Setup only logs a failed first build. Records and view stay in step from there, with no
    view at all as what records that do not build come to; and there is a view to serve
    exactly when the seed built or some message of the run swapped.
  */
  lemma {:induction false} ViewStaysInStep<View>(cfg: Config<View>, st: State<View>, ms: seq<Message>)
    requires st.view == cfg.Build(st.rrs)
    ensures Run(cfg, st, ms).view == cfg.Build(Run(cfg, st, ms).rrs)
    ensures Run(cfg, st, ms).view.Some? <==> st.view.Some? || SomeSwap(cfg, st, ms)
    decreases |ms|
  {
    if ms != [] {
      ServeKeepsView(cfg, st, ms[0]);
      ViewStaysInStep(cfg, Serve(cfg, st, ms[0]).state, ms[1..]);
    }
  }

  /**
    Safety over whole runs: whatever UPDATE messages arrive, in whatever order, the zone
    stays well-formed.
  */
  lemma {:induction false} EveryRunStaysWellFormed<View>(cfg: Config<View>, st: State<View>, ms: seq<Message>)
    requires Sound(cfg) && WellFormed(cfg, st.rrs)
    requires forall m :: m in ms ==> ParsedMessage(m)
    ensures WellFormed(cfg, Run(cfg, st, ms).rrs)
    decreases |ms|
  {
    if ms != [] {
      var next := Serve(cfg, st, ms[0]).state;
      assert WellFormed(cfg, next.rrs) by {
        ServeKeeps(cfg, st, ms[0]);
      }
      EveryRunStaysWellFormed(cfg, next, ms[1..]);
    }
  }
}
