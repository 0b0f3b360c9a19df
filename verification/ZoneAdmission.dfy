/**
  Which messages are let through, and what the others are told: the Zone section and the
  signature first, then the prerequisites of section 3.2 of RFC 2136, then the prescan of
  section 3.4.1, each said of the message and the zone alone.
*/
module ZoneAdmission {
  import opened Wrappers
  import opened Bytes
  import opened Names
  import opened Zone
  import opened ZoneInvariant
  import opened ZoneProperties

  // ---------------------------------------------------------------------------
  // Section 3.4.1: what an update record must look like
  // ---------------------------------------------------------------------------

  /** The name is the zone's own or below it. */
  ghost predicate Inside<View>(cfg: Config<View>, name: string) {
    Canonical(name) == cfg.zone || cfg.isSubDomain(cfg.zone, Canonical(name))
  }

  /** A recognised type that holds data: not reserved, not OPT, not a query or meta-type. */
  ghost predicate DataType<View>(cfg: Config<View>, t: uint16) {
    t in cfg.known && t != 0 && t != 41 && (t < 128 || 255 < t)
  }

  /** One of the forms of section 2.5: an add, or one of the three deletions. */
  ghost predicate WellMade<View>(cfg: Config<View>, u: Record) {
    || (u.cls == CLASS_IN && DataType(cfg, u.rrtype))
    || (u.cls == CLASS_ANY && u.ttl == 0 && u.rdlength == 0 && (u.rrtype == TYPE_ANY || DataType(cfg, u.rrtype)))
    || (u.cls == CLASS_NONE && u.ttl == 0 && DataType(cfg, u.rrtype))
  }

  /** Under an allowlist only the types on it, and never everything at a name. */
  ghost predicate Allowed<View>(cfg: Config<View>, u: Record) {
    cfg.mutable.Some? ==> u.rrtype in cfg.mutable.value && !(u.cls == CLASS_ANY && u.rrtype == TYPE_ANY)
  }

  /** What is wrong with an update record, in the order the faults are looked for. */
  lemma PrescanMeaning<View>(cfg: Config<View>, u: Record)
    ensures cfg.PrescanRecord(u) == NoError <==> Inside(cfg, u.name) && WellMade(cfg, u) && Allowed(cfg, u)
    ensures cfg.PrescanRecord(u) == NotZone <==> !Inside(cfg, u.name)
    ensures cfg.PrescanRecord(u) == FormErr <==> Inside(cfg, u.name) && !WellMade(cfg, u)
    ensures cfg.PrescanRecord(u) == Refused <==> Inside(cfg, u.name) && WellMade(cfg, u) && !Allowed(cfg, u)
  {
  }

  ghost predicate Clean<View>(cfg: Config<View>, u: Record) {
    Inside(cfg, u.name) && WellMade(cfg, u) && Allowed(cfg, u)
  }

  lemma {:induction false} PrescanSkips<View>(cfg: Config<View>, us: seq<Record>, k: nat)
    requires k <= |us| && forall j :: 0 <= j < k ==> cfg.PrescanRecord(us[j]) == NoError
    ensures cfg.Prescan(us) == cfg.Prescan(us[k..])
  {
    if k == 0 {
      assert us[0..] == us;
    } else {
      PrescanSkips(cfg, us, k - 1);
      assert us[k - 1..][0] == us[k - 1] && us[k - 1..][1..] == us[k..];
    }
  }

  /** The first record at fault decides. */
  lemma PrescanStopsAt<View>(cfg: Config<View>, us: seq<Record>, i: nat)
    requires i < |us| && !Clean(cfg, us[i]) && forall j :: 0 <= j < i ==> Clean(cfg, us[j])
    ensures cfg.Prescan(us) == (if !Inside(cfg, us[i].name) then NotZone
                                else if !WellMade(cfg, us[i]) then FormErr else Refused)
  {
    forall j | 0 <= j < i
      ensures cfg.PrescanRecord(us[j]) == NoError
    {
      PrescanMeaning(cfg, us[j]);
    }
    PrescanSkips(cfg, us, i);
    PrescanMeaning(cfg, us[i]);
    assert us[i..][0] == us[i];
  }

  lemma PrescanPasses<View>(cfg: Config<View>, us: seq<Record>)
    ensures cfg.Prescan(us) == NoError <==> forall u :: u in us ==> Clean(cfg, u)
    ensures cfg.Prescan(us) != ServFail
  {
    forall u | u in us
      ensures cfg.PrescanRecord(u) == NoError <==> Clean(cfg, u)
    {
      PrescanMeaning(cfg, u);
    }
    if i: nat :| i < |us| && !Clean(cfg, us[i]) {
      var first := FirstUnclean(cfg, us, i);
      PrescanStopsAt(cfg, us, first);
    }
  }

  lemma {:induction false} FirstUnclean<View>(cfg: Config<View>, us: seq<Record>, i: nat) returns (first: nat)
    requires i < |us| && !Clean(cfg, us[i])
    ensures first <= i && !Clean(cfg, us[first]) && forall j :: 0 <= j < first ==> Clean(cfg, us[j])
  {
    first := i;
    if j: nat :| j < i && !Clean(cfg, us[j]) {
      first := FirstUnclean(cfg, us, j);
    }
  }

  // ---------------------------------------------------------------------------
  // Section 3.2: what an unmet prerequisite is answered with
  // ---------------------------------------------------------------------------

  /** A prerequisite that can be asked at all: TTL 0, in the zone, of a known form. */
  ghost predicate WellAsked<View>(cfg: Config<View>, p: Record) {
    && p.ttl == 0 && Inside(cfg, p.name)
    && (p.cls == CLASS_IN || (p.cls in {CLASS_ANY, CLASS_NONE} && p.rdlength == 0))
  }

  /** The answer to each way a single prerequisite can fail, RRset contents apart. */
  lemma ObjectionMeaning<View>(cfg: Config<View>, rs: seq<Record>, p: Record)
    requires (forall r :: r in rs ==> Comparable(r)) && IsCanonical(Owner(p))
    ensures var v := cfg.PrereqRecord(rs, p);
            && (p.ttl != 0 ==> v == Some(FormErr))
            && (p.ttl == 0 && !Inside(cfg, p.name) ==> v == Some(NotZone))
            && (p.ttl == 0 && Inside(cfg, p.name) && !WellAsked(cfg, p) ==> v == Some(FormErr))
            && (WellAsked(cfg, p) && p.cls == CLASS_ANY && p.rrtype == TYPE_ANY ==>
                  v == if HasOwner(rs, Owner(p)) then None else Some(NXDomain))
            && (WellAsked(cfg, p) && p.cls == CLASS_ANY && p.rrtype != TYPE_ANY ==>
                  v == if HasRRset(rs, SetOf(p)) then None else Some(NXRRset))
            && (WellAsked(cfg, p) && p.cls == CLASS_NONE && p.rrtype == TYPE_ANY ==>
                  v == if HasOwner(rs, Owner(p)) then Some(YXDomain) else None)
            && (WellAsked(cfg, p) && p.cls == CLASS_NONE && p.rrtype != TYPE_ANY ==>
                  v == if HasRRset(rs, SetOf(p)) then Some(YXRRset) else None)
            && (WellAsked(cfg, p) && p.cls == CLASS_IN ==> v == None)
  {
    NameFound(rs, p);
    RRsetFound(rs, p);
  }

  lemma {:induction false} ScanSkips<View>(cfg: Config<View>, rs: seq<Record>, ps: seq<Record>, k: nat)
    requires k <= |ps| && forall j :: 0 <= j < k ==> cfg.PrereqRecord(rs, ps[j]).None?
    ensures cfg.PrereqScan(rs, ps) == cfg.PrereqScan(rs, ps[k..])
  {
    if k == 0 {
      assert ps[0..] == ps;
    } else {
      ScanSkips(cfg, rs, ps, k - 1);
      assert ps[k - 1..][0] == ps[k - 1] && ps[k - 1..][1..] == ps[k..];
    }
  }

  /** The first record with an objection decides. */
  lemma PrereqsStopAt<View>(cfg: Config<View>, rs: seq<Record>, ps: seq<Record>, i: nat)
    requires i < |ps| && cfg.PrereqRecord(rs, ps[i]).Some?
    requires forall j :: 0 <= j < i ==> cfg.PrereqRecord(rs, ps[j]).None?
    ensures Some(cfg.CheckPrereqs(rs, ps)) == cfg.PrereqRecord(rs, ps[i])
  {
    ScanSkips(cfg, rs, ps, i);
    assert ps[i..][0] == ps[i];
  }

  /** Differing RRset contents come last, as NXRRSET. */
  lemma ContentsLast<View>(cfg: Config<View>, rs: seq<Record>, ps: seq<Record>)
    requires (forall r :: r in rs ==> Comparable(r)) && forall p :: p in ps ==> IsCanonical(Owner(p))
    requires forall p :: p in ps ==> cfg.PrereqRecord(rs, p).None?
    ensures cfg.CheckPrereqs(rs, ps)
            == if forall p :: p in ps && p.cls == CLASS_IN ==> SameContents(rs, ps, SetOf(p)) then NoError else NXRRset
  {
    forall p | p in ps
      ensures SameRRset(RRsetOf(rs, SetOf(p)), Wanted(ps, SetOf(p))) <==> SameContents(rs, ps, SetOf(p))
    {
      ValueDependentMeaning(rs, ps, p);
    }
  }

  lemma VerdictNeverServFail(p: Record, inZone: bool, nameInUse: bool, rrsetExists: bool)
    ensures PrereqVerdict(p, inZone, nameInUse, rrsetExists) != Some(ServFail)
  {
  }

  /** No prerequisite is ever answered SERVFAIL. */
  lemma {:induction false} ScanNeverServFail<View>(cfg: Config<View>, rs: seq<Record>, ps: seq<Record>)
    ensures cfg.PrereqScan(rs, ps) != Some(ServFail)
  {
    if ps != [] {
      var p := ps[0];
      VerdictNeverServFail(p, cfg.InZone(p.name), NameInUse(rs, Owner(p)), RRsetExists(rs, SetOf(p)));
      ScanNeverServFail(cfg, rs, ps[1..]);
    }
  }

  // ---------------------------------------------------------------------------
  // The message
  // ---------------------------------------------------------------------------

  /** Exactly one SOA question of class IN. */
  ghost predicate AsksForOneZone(m: Message) {
    |m.questions| == 1 && m.questions[0].qtype == TYPE_SOA && m.questions[0].qclass == CLASS_IN
  }

  ghost predicate NamesZone<View>(cfg: Config<View>, m: Message) {
    AsksForOneZone(m) && Canonical(m.questions[0].name) == cfg.zone
  }

  /** A zone and prerequisites whose names the comparison gets right, as parsed ones are. */
  ghost predicate Readable(rs: seq<Record>, m: Message) {
    (forall r :: r in rs ==> Comparable(r)) && forall p :: p in m.prereqs ==> IsCanonical(Owner(p))
  }

  lemma AdmissionMeaning<View>(cfg: Config<View>, rs: seq<Record>, m: Message)
    requires Readable(rs, m)
    ensures Admission(cfg, rs, m) != ServFail
    ensures Admission(cfg, rs, m) == NoError <==>
            && NamesZone(cfg, m) && m.signed
            && (forall p :: p in m.prereqs ==> Holds(cfg, rs, m.prereqs, p))
            && (forall u :: u in m.updates ==> Clean(cfg, u))
  {
    assert cfg.CheckPrereqs(rs, m.prereqs) == NoError <==> forall p :: p in m.prereqs ==> Holds(cfg, rs, m.prereqs, p) by {
      PrereqsMeaning(cfg, rs, m.prereqs);
    }
    PrescanPasses(cfg, m.updates);
    ScanNeverServFail(cfg, rs, m.prereqs);
  }

  /**
    Exactly the messages that get past the checks: about this zone, signed, with every
    prerequisite met and every update record clean. Only these can change anything; they
    are answered SERVFAIL if what they change cannot be built, and NOERROR otherwise.
  */
  lemma LetThroughIff<View>(cfg: Config<View>, st: State<View>, m: Message)
    requires Readable(st.rrs, m)
    ensures Serve(cfg, st, m).rcode in {NoError, ServFail} <==>
            && NamesZone(cfg, m) && m.signed
            && (forall p :: p in m.prereqs ==> Holds(cfg, st.rrs, m.prereqs, p))
            && (forall u :: u in m.updates ==> Clean(cfg, u))
    ensures Serve(cfg, st, m).rcode != NoError ==> Serve(cfg, st, m).state == st
  {
    AdmissionMeaning(cfg, st.rrs, m);
    AnswersAfterChecks(cfg, st, m);
  }

  lemma AnswersAfterChecks<View>(cfg: Config<View>, st: State<View>, m: Message)
    ensures var a := Apply(st.rrs, m.updates, cfg.zone);
            Admission(cfg, st.rrs, m) == NoError ==>
              Serve(cfg, st, m).rcode
              == if a.changed && cfg.Build(WithSerial(st.rrs, a.rrs)).None? then ServFail else NoError
    ensures Admission(cfg, st.rrs, m) != NoError ==> Serve(cfg, st, m).rcode == Admission(cfg, st.rrs, m)
    ensures Serve(cfg, st, m).rcode != NoError ==> Serve(cfg, st, m).state == st
  {
  }

  /** What the others are told, by the first check they fail. */
  lemma TurnedAwayWith<View>(cfg: Config<View>, st: State<View>, m: Message)
    ensures !AsksForOneZone(m) ==> Serve(cfg, st, m) == Answer(FormErr, st)
    ensures AsksForOneZone(m) && !NamesZone(cfg, m) ==> Serve(cfg, st, m) == Answer(NotAuth, st)
    ensures NamesZone(cfg, m) && !m.signed ==> Serve(cfg, st, m) == Answer(Refused, st)
    ensures NamesZone(cfg, m) && m.signed && cfg.CheckPrereqs(st.rrs, m.prereqs) != NoError ==>
              Serve(cfg, st, m) == Answer(cfg.CheckPrereqs(st.rrs, m.prereqs), st)
    ensures NamesZone(cfg, m) && m.signed && cfg.CheckPrereqs(st.rrs, m.prereqs) == NoError
            && cfg.Prescan(m.updates) != NoError ==>
              Serve(cfg, st, m) == Answer(cfg.Prescan(m.updates), st)
  {
  }

  function Signed(ms: seq<Message>): seq<Message> {
    if ms == [] then [] else (if ms[0].signed then [ms[0]] else []) + Signed(ms[1..])
  }

  /** Over any run, unsigned messages might as well not have been sent. */
  lemma {:induction false} UnsignedNeverMatter<View>(cfg: Config<View>, st: State<View>, ms: seq<Message>)
    ensures Run(cfg, st, ms) == Run(cfg, st, Signed(ms))
    decreases |ms|
  {
    if ms != [] {
      TurnedAwayWith(cfg, st, ms[0]);
      UnsignedNeverMatter(cfg, Serve(cfg, st, ms[0]).state, ms[1..]);
      if ms[0].signed {
        assert Signed(ms)[1..] == Signed(ms[1..]);
      } else {
        assert Serve(cfg, st, ms[0]).state == st && Signed(ms) == Signed(ms[1..]);
      }
    }
  }

  // ---------------------------------------------------------------------------
  // The view
  // ---------------------------------------------------------------------------

  /** A view that keeps all it is given shows exactly the records, in order. */
  lemma {:induction false} BuildInsertsAll(cfg: Config<seq<Record>>, rs: seq<Record>)
    requires cfg.emptyView == [] && forall v, r :: cfg.insert(v, r) == Some(v + [r])
    ensures cfg.Build(rs) == Some(rs)
  {
    if rs != [] {
      BuildInsertsAll(cfg, rs[..|rs| - 1]);
      assert rs == rs[..|rs| - 1] + [rs[|rs| - 1]];
    } else {
      assert cfg.emptyView == rs;
    }
  }

  /** A build fails exactly when some record is refused by the view of those before it. */
  lemma {:induction false} BuildFailsIff<View>(cfg: Config<View>, rs: seq<Record>)
    ensures cfg.Build(rs).None? <==>
            exists i :: 0 <= i < |rs| && cfg.Build(rs[..i]).Some? && cfg.insert(cfg.Build(rs[..i]).value, rs[i]).None?
  {
    if rs != [] {
      var init := rs[..|rs| - 1];
      BuildFailsIff(cfg, init);
      forall i | 0 <= i < |init|
        ensures init[..i] == rs[..i] && init[i] == rs[i]
      {
      }
      if cfg.Build(init).None? {
        var i :| 0 <= i < |init| && cfg.Build(init[..i]).Some? && cfg.insert(cfg.Build(init[..i]).value, init[i]).None?;
        assert cfg.Build(rs[..i]).Some?;
      }
    }
  }
}
