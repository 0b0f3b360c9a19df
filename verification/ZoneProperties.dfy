/**
  What else an UPDATE promises: no-op updates change nothing, serials move forward, a
  type allowlist is airtight, and prerequisites mean what section 3.2 of RFC 2136 says.
*/
module ZoneProperties {
  import opened Wrappers
  import opened Bytes
  import opened Names
  import opened Zone
  import opened ZoneInvariant

  // ---------------------------------------------------------------------------
  // Filtering
  // ---------------------------------------------------------------------------

  lemma {:induction false} WithoutNothing(rs: seq<Record>, drop: Record -> bool)
    requires forall r :: r in rs ==> !drop(r)
    ensures Without(rs, drop) == rs
  {
    if rs != [] {
      WithoutNothing(rs[..|rs| - 1], drop);
      assert rs == rs[..|rs| - 1] + [rs[|rs| - 1]];
    }
  }

  lemma {:induction false} WithoutConcat(a: seq<Record>, b: seq<Record>, drop: Record -> bool)
    ensures Without(a + b, drop) == Without(a, drop) + Without(b, drop)
  {
    if b == [] {
      assert a + b == a;
    } else {
      var init, last := b[..|b| - 1], b[|b| - 1];
      assert (a + b)[..|a + b| - 1] == a + init;
      WithoutConcat(a, init, drop);
    }
  }

  /** Dropping less first makes no difference. */
  lemma {:induction false} WithoutTwice(rs: seq<Record>, less: Record -> bool, more: Record -> bool)
    requires forall r :: r in rs && less(r) ==> more(r)
    ensures Without(Without(rs, less), more) == Without(rs, more)
  {
    if rs != [] {
      var init, last := rs[..|rs| - 1], rs[|rs| - 1];
      assert rs == init + [last];
      WithoutTwice(init, less, more);
      var kept := Without(init, less);
      assert (kept + [last])[..|kept|] == kept;
    }
  }

  /** A dropped record might as well not be there. */
  lemma SplitAt(rs: seq<Record>, i: nat, drop: Record -> bool)
    requires i < |rs| && drop(rs[i])
    ensures Without(rs, drop) == Without(rs[..i] + rs[i + 1..], drop)
  {
    var a, b := rs[..i], rs[i + 1..];
    assert rs == (a + [rs[i]]) + b;
    WithoutConcat(a + [rs[i]], b, drop);
    WithoutConcat(a, b, drop);
    assert (a + [rs[i]])[..i] == a;
  }

  /** Rewriting a dropped record into another dropped one is invisible. */
  lemma WithoutRewritten(rs: seq<Record>, i: nat, x: Record, drop: Record -> bool)
    requires i < |rs| && drop(rs[i]) && drop(x)
    ensures Without(rs[i := x], drop) == Without(rs, drop)
  {
    var out := rs[i := x];
    SplitAt(rs, i, drop);
    SplitAt(out, i, drop);
    assert out[..i] == rs[..i] && out[i + 1..] == rs[i + 1..];
  }

  /** The scan with its type and owner prefilter stops where a search by full record key would. */
  lemma PrefilteredScanIsKeySearch(rs: seq<Record>, want: Record)
    requires (forall r :: r in rs ==> Comparable(r)) && IsCanonical(Owner(want))
    ensures var i := FirstIndex(rs, MatchesRecord(want));
            if i < 0 then forall j :: 0 <= j < |rs| ==> Identity(rs[j]) != Identity(want)
            else Identity(rs[i]) == Identity(want) && forall j :: 0 <= j < i ==> Identity(rs[j]) != Identity(want)
  {
    FirstIndexMeaning(rs, MatchesRecord(want));
    forall j | 0 <= j < |rs|
      ensures MatchesRecord(want)(rs[j]) <==> Identity(rs[j]) == Identity(want)
    {
      assert rs[j] in rs;
      PrefilterIsSound(rs[j], want);
    }
  }

  // ---------------------------------------------------------------------------
  // An update section that reports no change made none
  // ---------------------------------------------------------------------------

  lemma ApplyOneReports(a: Applied, rr: Record, zone: string)
    ensures a.changed ==> ApplyOne(a, rr, zone).changed
    ensures !ApplyOne(a, rr, zone).changed ==> ApplyOne(a, rr, zone).rrs == a.rrs
  {
    var name := Canonical(rr.name);
    if rr.cls == CLASS_ANY && !ApplyOne(a, rr, zone).changed {
      var drop := if rr.rrtype == TYPE_ANY then AtName(name, name == zone) else InRRset(name, rr.rrtype);
      if forall r :: r in a.rrs ==> !drop(r) {
        WithoutNothing(a.rrs, drop);
      }
    }
  }

  lemma {:induction false} UnchangedMeansIdentical(rs: seq<Record>, updates: seq<Record>, zone: string)
    ensures !Apply(rs, updates, zone).changed ==> Apply(rs, updates, zone).rrs == rs
  {
    if updates != [] {
      var init, u := updates[..|updates| - 1], updates[|updates| - 1];
      UnchangedMeansIdentical(rs, init, zone);
      ApplyOneReports(Apply(rs, init, zone), u, zone);
    }
  }

  // ---------------------------------------------------------------------------
  // Serials
  // ---------------------------------------------------------------------------

  /** The automatic increment is greater in the sense of RFC 1982, and skips 0 at the wrap. */
  lemma NextSerialAdvances(s: uint32)
    ensures SerialGreater(NextSerial(s), s) && NextSerial(s) != 0
    ensures NextSerial(s) == if s == 0xFFFF_FFFF then 1 else s + 1
  {
  }

  /** RFC 1982 order: irreflexive, asymmetric, and undefined exactly between antipodes. */
  lemma SerialOrder(a: uint32, b: uint32)
    ensures !SerialGreater(a, a)
    ensures SerialGreater(a, b) ==> !SerialGreater(b, a)
    ensures a != b ==> (SerialGreater(a, b) || SerialGreater(b, a) <==> (a - b) % 0x1_0000_0000 != 0x8000_0000)
    ensures SerialGreater(a, b) <==> 0 < (a - b) % 0x1_0000_0000 < 0x8000_0000
  {
  }

  /** In a well-formed zone the serial is that of whichever SOA record one can point at. */
  lemma SerialIsThatOf<View>(cfg: Config<View>, rs: seq<Record>, soa: Record)
    requires WellFormed(cfg, rs) && soa in rs && soa.rrtype == TYPE_SOA
    ensures soa.rdata.Soa? && SerialOf(rs) == Some(soa.rdata.serial)
  {
    var i := ExactlyOneSoa(cfg, rs);
    assert rs[i] == soa by {
      var j :| 0 <= j < |rs| && rs[j] == soa;
    }
  }

  predicate SoaAdd(u: Record) {
    u.cls == CLASS_IN && u.rrtype == TYPE_SOA
  }

  /** Adding any other record leaves the SOA record in place. */
  lemma AddSparesSoa(rs: seq<Record>, changed: bool, u: Record, zone: string, soa: Record)
    requires soa in rs && soa.rrtype == TYPE_SOA && u.rrtype != TYPE_SOA
    ensures soa in Add(rs, changed, u, zone).rrs
  {
    var c := AddCases(rs, changed, u, zone);
    WithoutMembers(rs, InRRset(Canonical(u.name), TYPE_CNAME));
    if c.NewTtl? {
      var k :| 0 <= k < |rs| && rs[k] == soa;
      assert k != c.i && rs[c.i := rs[c.i].(ttl := u.ttl)][k] == soa;
    } else if c.ReplacesCname? {
      assert !InRRset(Canonical(u.name), TYPE_CNAME)(soa);
    }
  }

  lemma DeleteRRsetSparesSoa(rs: seq<Record>, changed: bool, u: Record, zone: string, soa: Record)
    requires soa in rs && soa.rrtype == TYPE_SOA && (Owns(soa, Canonical(u.name)) <==> Canonical(u.name) == zone)
    ensures soa in DeleteRRset(rs, changed, u, zone).rrs
  {
    var name := Canonical(u.name);
    WithoutMembers(rs, AtName(name, name == zone));
    WithoutMembers(rs, InRRset(name, u.rrtype));
    assert !AtName(name, name == zone)(soa);
    assert name != zone || u.rrtype != TYPE_SOA ==> !InRRset(name, u.rrtype)(soa);
  }

  lemma DeleteRecordSparesSoa(rs: seq<Record>, changed: bool, u: Record, zone: string, soa: Record)
    requires soa in rs && soa.rrtype == TYPE_SOA
    requires forall r :: r in rs && r.rrtype == TYPE_SOA && Matches(r, u) ==> Canonical(u.name) == zone
    ensures soa in DeleteRecord(rs, changed, u, zone).rrs
  {
    var i := DeleteRecordCase(rs, changed, u, zone);
    if i >= 0 {
      var k :| 0 <= k < |rs| && rs[k] == soa;
      RemovedMembers(rs, i, k);
    }
  }

  /** Everything but an SOA add leaves the SOA record itself alone. */
  lemma OnlySoaAddsTouchSoa<View>(cfg: Config<View>, a: Applied, u: Record, soa: Record)
    requires Sound(cfg) && WellFormed(cfg, a.rrs) && Acceptable(cfg, u) && !SoaAdd(u)
    requires soa in a.rrs && soa.rrtype == TYPE_SOA
    ensures soa in ApplyOne(a, u, cfg.zone).rrs
  {
    if u.cls == CLASS_IN {
      AddSparesSoa(a.rrs, a.changed, u, cfg.zone, soa);
    } else if u.cls == CLASS_ANY {
      assert Resident(cfg, soa);
      ResidentOwns(cfg, soa, u);
      DeleteRRsetSparesSoa(a.rrs, a.changed, u, cfg.zone, soa);
    } else if u.cls == CLASS_NONE {
      forall r | r in a.rrs && r.rrtype == TYPE_SOA && Matches(r, u)
        ensures Canonical(u.name) == cfg.zone
      {
        assert Resident(cfg, r);
      }
      DeleteRecordSparesSoa(a.rrs, a.changed, u, cfg.zone, soa);
    }
  }

  /** An SOA add either changes nothing or installs a serial greater than the current one. */
  lemma SoaAddAdvances<View>(cfg: Config<View>, a: Applied, u: Record)
    requires Sound(cfg) && WellFormed(cfg, a.rrs) && Acceptable(cfg, u) && SoaAdd(u)
    ensures ApplyOne(a, u, cfg.zone) == a
            || (u.rdata.Soa? && SerialOf(ApplyOne(a, u, cfg.zone).rrs) == Some(u.rdata.serial)
                && SerialOf(a.rrs).Some? && SerialGreater(u.rdata.serial, SerialOf(a.rrs).value))
    ensures u.rdata.Soa? && Canonical(u.name) == cfg.zone && SerialOf(a.rrs).Some?
            && SerialGreater(u.rdata.serial, SerialOf(a.rrs).value)
            ==> SerialOf(ApplyOne(a, u, cfg.zone).rrs) == Some(u.rdata.serial)
  {
    if ApplyOne(a, u, cfg.zone) != a {
      AddKeeps(cfg, a.rrs, a.changed, u);
      SerialIsThatOf(cfg, ApplyOne(a, u, cfg.zone).rrs, u);
    } else if u.rdata.Soa? && Canonical(u.name) == cfg.zone && SerialOf(a.rrs).Some?
              && SerialGreater(u.rdata.serial, SerialOf(a.rrs).value) {
      SerialIsThatOf(cfg, ApplyOne(a, u, cfg.zone).rrs, u);
    }
  }

  lemma ApplyOneSerial<View>(cfg: Config<View>, a: Applied, u: Record)
    requires Sound(cfg) && WellFormed(cfg, a.rrs) && Acceptable(cfg, u)
    ensures SerialOf(a.rrs).Some?
    ensures SerialOf(ApplyOne(a, u, cfg.zone).rrs)
            == if SoaAdd(u) && u.rdata.Soa? && Canonical(u.name) == cfg.zone
                  && SerialGreater(u.rdata.serial, SerialOf(a.rrs).value)
               then Some(u.rdata.serial) else SerialOf(a.rrs)
  {
    var i := ExactlyOneSoa(cfg, a.rrs);
    if SoaAdd(u) {
      SoaAddAdvances(cfg, a, u);
    } else {
      var soa := a.rrs[i];
      OnlySoaAddsTouchSoa(cfg, a, u, soa);
      ApplyOneKeeps(cfg, a, u);
      SerialIsThatOf(cfg, ApplyOne(a, u, cfg.zone).rrs, soa);
    }
  }

  function SoaAdds(updates: seq<Record>): nat {
    if updates == [] then 0
    else SoaAdds(updates[..|updates| - 1]) + (if SoaAdd(updates[|updates| - 1]) then 1 else 0)
  }

  /**
    The serial an update section leads to from serial s, read off the section alone: each
    apex SOA add whose serial is greater than the one reached so far moves it there.
  */
  function Chain(updates: seq<Record>, zone: string, s: uint32): uint32 {
    if updates == [] then s
    else
      var reached, u := Chain(updates[..|updates| - 1], zone, s), updates[|updates| - 1];
      if SoaAdd(u) && u.rdata.Soa? && Canonical(u.name) == zone && SerialGreater(u.rdata.serial, reached)
      then u.rdata.serial else reached
  }

  lemma {:induction false} ApplySerial<View>(cfg: Config<View>, rs: seq<Record>, updates: seq<Record>)
    requires Sound(cfg) && WellFormed(cfg, rs)
    requires forall u :: u in updates ==> Acceptable(cfg, u)
    ensures SerialOf(rs).Some?
    ensures SerialOf(Apply(rs, updates, cfg.zone).rrs) == Some(Chain(updates, cfg.zone, SerialOf(rs).value))
  {
    if updates == [] {
      var _ := ExactlyOneSoa(cfg, rs);
    } else {
      var init, u := updates[..|updates| - 1], updates[|updates| - 1];
      ApplySerial(cfg, rs, init);
      ApplyKeeps(cfg, rs, init);
      ApplyOneSerial(cfg, Apply(rs, init, cfg.zone), u);
    }
  }

  /** One SOA add cannot leave the forward half of the number space. */
  lemma {:induction false} OneAddGoesForward(updates: seq<Record>, zone: string, s: uint32)
    requires SoaAdds(updates) <= 1
    ensures SoaAdds(updates) == 0 ==> Chain(updates, zone, s) == s
    ensures Chain(updates, zone, s) == s || SerialGreater(Chain(updates, zone, s), s)
  {
    if updates != [] {
      OneAddGoesForward(updates[..|updates| - 1], zone, s);
    }
  }

  lemma BumpedSerial<View>(cfg: Config<View>, rs: seq<Record>)
    requires WellFormed(cfg, rs)
    ensures SerialOf(rs).Some? && SerialOf(Bumped(rs)) == Some(NextSerial(SerialOf(rs).value))
  {
    var i := ExactlyOneSoa(cfg, rs);
    WithSerialKeeps(cfg, rs, rs);
    assert Bumped(rs)[i] in Bumped(rs);
    SerialIsThatOf(cfg, Bumped(rs), Bumped(rs)[i]);
  }

  /** The serial after settling: what the section chose, or an increment if it chose none. */
  lemma SettledSerial<View>(cfg: Config<View>, rs: seq<Record>, updates: seq<Record>)
    requires Sound(cfg) && WellFormed(cfg, rs)
    requires forall u :: u in updates ==> Acceptable(cfg, u)
    ensures SerialOf(rs).Some?
    ensures var s := SerialOf(rs).value;
            SerialOf(WithSerial(rs, Apply(rs, updates, cfg.zone).rrs))
            == Some(if Chain(updates, cfg.zone, s) == s then NextSerial(s) else Chain(updates, cfg.zone, s))
  {
    ApplySerial(cfg, rs, updates);
    ApplyKeeps(cfg, rs, updates);
    BumpedSerial(cfg, Apply(rs, updates, cfg.zone).rrs);
  }

  /**
    A successful UPDATE that reports no change leaves the zone exactly as it was; any other
    moves its serial. It moves forward in RFC 1982 order if and only if the section's SOA
    adds, each accepted against the one before, end ahead of where they started, as at most
    one always does.
  */
  lemma SuccessMovesSerial<View>(cfg: Config<View>, st: State<View>, m: Message)
    requires Sound(cfg) && WellFormed(cfg, st.rrs) && ParsedMessage(m)
    requires Serve(cfg, st, m).rcode == NoError
    ensures SerialOf(st.rrs).Some? && SerialOf(Serve(cfg, st, m).state.rrs).Some?
    ensures var s, after := SerialOf(st.rrs).value, SerialOf(Serve(cfg, st, m).state.rrs).value;
            var end := Chain(m.updates, cfg.zone, s);
            if !Apply(st.rrs, m.updates, cfg.zone).changed then Serve(cfg, st, m).state == st && end == s
            else
              && after == (if end == s then NextSerial(s) else end)
              && after != s
              && (SerialGreater(after, s) <==> end == s || SerialGreater(end, s))
              && (SoaAdds(m.updates) <= 1 ==> SerialGreater(after, s))
  {
    ServeOutcome(cfg, st, m);
    SettledSerial(cfg, st.rrs, m.updates);
    ApplySerial(cfg, st.rrs, m.updates);
    UnchangedMeansIdentical(st.rrs, m.updates, cfg.zone);
    var s := SerialOf(st.rrs).value;
    NextSerialAdvances(s);
    if SoaAdds(m.updates) <= 1 {
      OneAddGoesForward(m.updates, cfg.zone, s);
    }
  }

  /** Two steps of just under half the number space come out two below where they started. */
  lemma HalfSteps(s: uint32, mid: uint32, end: uint32)
    requires mid == (s + 0x7FFF_FFFF) % 0x1_0000_0000 && end == (s + 0xFFFF_FFFE) % 0x1_0000_0000
    ensures SerialGreater(mid, s) && SerialGreater(end, mid) && SerialGreater(s, end) && end != s
  {
  }

  lemma ChainOfTwo(first: Record, second: Record, zone: string, s: uint32)
    requires SoaAdd(first) && SoaAdd(second) && first.rdata.Soa? && second.rdata.Soa?
    requires Canonical(first.name) == zone == Canonical(second.name)
    requires SerialGreater(first.rdata.serial, s) && SerialGreater(second.rdata.serial, first.rdata.serial)
    ensures Chain([first, second], zone, s) == second.rdata.serial
  {
    assert [first, second][..1] == [first] && [first][..0] == [];
    assert Chain([], zone, s) == s;
    assert Chain([first], zone, s) == first.rdata.serial;
  }

  /** Two accepted SOA adds can carry any zone backwards, under a NOERROR answer. */
  lemma TwoSoaAddsGoBack<View>(cfg: Config<View>, st: State<View>, m: Message, s: uint32, first: Record, second: Record)
    requires Sound(cfg) && WellFormed(cfg, st.rrs) && ParsedMessage(m) && SerialOf(st.rrs) == Some(s)
    requires Serve(cfg, st, m).rcode == NoError && m.updates == [first, second]
    requires SoaAdd(first) && SoaAdd(second) && first.rdata.Soa? && second.rdata.Soa?
    requires Canonical(first.name) == cfg.zone == Canonical(second.name)
    requires first.rdata.serial == (s + 0x7FFF_FFFF) % 0x1_0000_0000
    requires second.rdata.serial == (s + 0xFFFF_FFFE) % 0x1_0000_0000
    ensures SerialOf(Serve(cfg, st, m).state.rrs) == Some(second.rdata.serial)
    ensures SerialGreater(s, second.rdata.serial)
  {
    assert Chain(m.updates, cfg.zone, s) == second.rdata.serial != s && SerialGreater(s, second.rdata.serial) by {
      HalfSteps(s, first.rdata.serial, second.rdata.serial);
      ChainOfTwo(first, second, cfg.zone, s);
    }
    SuccessMovesSerial(cfg, st, m);
  }

  /** A root zone whose view takes any record. */
  function RootConfig(): Config<bool> {
    Config(".", None, {TYPE_SOA}, (z: string, n: string) => true, true, (v: bool, r: Record) => Some(v))
  }

  function RootSoa(serial: uint32): Record {
    Record(".", TYPE_SOA, CLASS_IN, 60, 1, Soa(serial, ""))
  }

  function RootUpdate(updates: seq<Record>): Message {
    Message([Question(".", TYPE_SOA, CLASS_IN)], true, [], updates)
  }

  lemma {:induction false} RootBuilds(rs: seq<Record>)
    ensures RootConfig().Build(rs).Some?
  {
    if rs != [] {
      RootBuilds(rs[..|rs| - 1]);
    }
  }

  lemma RootAnswersNoError(st: State<bool>, first: uint32, second: uint32)
    ensures Serve(RootConfig(), st, RootUpdate([RootSoa(first), RootSoa(second)])).rcode == NoError
  {
    var cfg, updates := RootConfig(), [RootSoa(first), RootSoa(second)];
    CanonicalOfFqdn(".");
    assert cfg.CheckPrereqs(st.rrs, []) == NoError;
    assert cfg.Prescan(updates) == NoError;
    RootBuilds(WithSerial(st.rrs, Apply(st.rrs, updates, ".").rrs));
  }

  function RootSeed(serial: uint32): seq<Record> {
    [RootSoa(serial), Record(".", TYPE_NS, CLASS_IN, 60, 1, Opaque("ns."))]
  }

  lemma RootSeedIsWellFormed(serial: uint32)
    ensures Sound(RootConfig()) && WellFormed(RootConfig(), RootSeed(serial))
    ensures SerialOf(RootSeed(serial)) == Some(serial)
  {
    assert IsCanonical(".");
    ApexIsEnough(RootConfig(), RootSeed(serial)[0], RootSeed(serial)[1]);
    SerialIsThatOf(RootConfig(), RootSeed(serial), RootSoa(serial));
  }

  /** The root zone again, with a view that refuses records of one type. */
  function PickyConfig(t: uint16): Config<bool> {
    RootConfig().(insert := (v: bool, r: Record) => if r.rrtype == t then None else Some(v))
  }

  /** A well-formed seed that setup keeps without a view to serve. */
  lemma SeedWithoutView(serial: uint32, t: uint16)
    requires t !in {TYPE_SOA, TYPE_NS, TYPE_CNAME}
    ensures var cfg, extra := PickyConfig(t), Record(".", t, CLASS_IN, 60, 1, Opaque(""));
            var seed := RootSeed(serial) + [extra];
            WellFormed(cfg, seed) && Start(cfg, seed) == State(seed, None)
  {
    var cfg, extra := PickyConfig(t), Record(".", t, CLASS_IN, 60, 1, Opaque(""));
    assert WellFormed(cfg, RootSeed(serial) + [extra]) by {
      CanonicalOfFqdn(".");
      ApexIsEnough(cfg, RootSeed(serial)[0], RootSeed(serial)[1]);
      forall r | r in RootSeed(serial)
        ensures Compatible(r, extra)
      {
        assert r.rrtype in {TYPE_SOA, TYPE_NS};
      }
      AppendKeeps(cfg, RootSeed(serial), extra);
    }
    PickyRefuses(t, RootSeed(serial), extra);
  }

  lemma PickyRefuses(t: uint16, rs: seq<Record>, last: Record)
    requires last.rrtype == t
    ensures PickyConfig(t).Build(rs + [last]) == None
  {
    assert (rs + [last])[..|rs|] == rs;
  }

  lemma RootUpdateIsParsed(first: uint32, second: uint32)
    ensures ParsedMessage(RootUpdate([RootSoa(first), RootSoa(second)]))
    ensures Canonical(".") == RootConfig().zone
  {
    CanonicalOfFqdn(".");
  }

  /** At any serial s at all, one NOERROR answer can take a root zone to the serial two below. */
  lemma SerialCanGoBack(s: uint32, mid: uint32, end: uint32)
    requires mid == (s + 0x7FFF_FFFF) % 0x1_0000_0000 && end == (s + 0xFFFF_FFFE) % 0x1_0000_0000
    ensures var cfg, st := RootConfig(), Start(RootConfig(), RootSeed(s));
            var answer := Serve(cfg, st, RootUpdate([RootSoa(mid), RootSoa(end)]));
            && WellFormed(cfg, st.rrs) && SerialOf(st.rrs) == Some(s)
            && answer.rcode == NoError && SerialOf(answer.state.rrs) == Some(end) && SerialGreater(s, end)
  {
    var st, m := Start(RootConfig(), RootSeed(s)), RootUpdate([RootSoa(mid), RootSoa(end)]);
    RootSeedIsWellFormed(s);
    RootAnswersNoError(st, mid, end);
    RootUpdateIsParsed(mid, end);
    TwoSoaAddsGoBack(RootConfig(), st, m, s, RootSoa(mid), RootSoa(end));
  }

  // ---------------------------------------------------------------------------
  // The type allowlist
  // ---------------------------------------------------------------------------

  lemma AppendSpares(rs: seq<Record>, u: Record, less: Record -> bool, drop: Record -> bool)
    requires drop(u) && forall r :: less(r) ==> drop(r)
    ensures Without(Without(rs, less) + [u], drop) == Without(rs, drop)
    ensures Without(rs + [u], drop) == Without(rs, drop)
  {
    WithoutTwice(rs, less, drop);
    var kept := Without(rs, less);
    assert (kept + [u])[..|kept|] == kept && (rs + [u])[..|rs|] == rs;
  }

  lemma AddSpares(rs: seq<Record>, changed: bool, u: Record, zone: string, types: set<uint16>)
    requires u.rrtype in types
    ensures Without(Add(rs, changed, u, zone).rrs, Touchable(types)) == Without(rs, Touchable(types))
  {
    var c := AddCases(rs, changed, u, zone);
    match c
    case Ignored =>
    case ReplacesSoa => AppendSpares(rs, u, IsSoa(), Touchable(types));
    case NewTtl(i) => WithoutRewritten(rs, i, rs[i].(ttl := u.ttl), Touchable(types));
    case ReplacesCname => AppendSpares(rs, u, InRRset(Canonical(u.name), TYPE_CNAME), Touchable(types));
    case Appends => AppendSpares(rs, u, IsSoa(), Touchable(types));
  }

  lemma DeleteRecordSpares(rs: seq<Record>, changed: bool, u: Record, zone: string, types: set<uint16>)
    requires u.rrtype in types
    ensures Without(DeleteRecord(rs, changed, u, zone).rrs, Touchable(types)) == Without(rs, Touchable(types))
  {
    var i := DeleteRecordCase(rs, changed, u, zone);
    if i >= 0 {
      SplitAt(rs, i, Touchable(types));
    }
  }

  lemma ApplyOneSpares(a: Applied, u: Record, zone: string, types: set<uint16>)
    requires u.rrtype in types && !(u.cls == CLASS_ANY && u.rrtype == TYPE_ANY)
    ensures Without(ApplyOne(a, u, zone).rrs, Touchable(types)) == Without(a.rrs, Touchable(types))
  {
    if u.cls == CLASS_IN {
      AddSpares(a.rrs, a.changed, u, zone, types);
    } else if u.cls == CLASS_ANY {
      WithoutTwice(a.rrs, InRRset(Canonical(u.name), u.rrtype), Touchable(types));
    } else if u.cls == CLASS_NONE {
      DeleteRecordSpares(a.rrs, a.changed, u, zone, types);
    }
  }

  lemma {:induction false} ApplySpares(rs: seq<Record>, updates: seq<Record>, zone: string, types: set<uint16>)
    requires forall u :: u in updates ==> u.rrtype in types && !(u.cls == CLASS_ANY && u.rrtype == TYPE_ANY)
    ensures Without(Apply(rs, updates, zone).rrs, Touchable(types)) == Without(rs, Touchable(types))
  {
    if updates != [] {
      var init, u := updates[..|updates| - 1], updates[|updates| - 1];
      ApplySpares(rs, init, zone, types);
      ApplyOneSpares(Apply(rs, init, zone), u, zone, types);
    }
  }

  /** Under an allowlist, records of any other type (the SOA apart) survive, each in its place. */
  lemma AllowlistIsAirtight<View>(cfg: Config<View>, st: State<View>, m: Message)
    requires Sound(cfg) && WellFormed(cfg, st.rrs) && ParsedMessage(m) && cfg.mutable.Some?
    ensures Without(Serve(cfg, st, m).state.rrs, Touchable(cfg.mutable.value))
            == Without(st.rrs, Touchable(cfg.mutable.value))
  {
    var types := cfg.mutable.value;
    if Serve(cfg, st, m).state != st {
      forall u | u in m.updates
        ensures Acceptable(cfg, u) && u.rrtype in types && !(u.cls == CLASS_ANY && u.rrtype == TYPE_ANY)
      {
        assert cfg.PrescanRecord(u) == NoError;
      }
      ApplySpares(st.rrs, m.updates, cfg.zone, types);
      var rs := Apply(st.rrs, m.updates, cfg.zone).rrs;
      ApplyKeeps(cfg, st.rrs, m.updates);
      var i := ExactlyOneSoa(cfg, rs);
      WithoutRewritten(rs, i, Bumped(rs)[i], Touchable(types));
    }
  }

  /** The same over every run of messages. */
  lemma {:induction false} AllowlistHoldsForever<View>(cfg: Config<View>, st: State<View>, ms: seq<Message>)
    requires Sound(cfg) && WellFormed(cfg, st.rrs) && cfg.mutable.Some?
    requires forall m :: m in ms ==> ParsedMessage(m)
    ensures Without(Run(cfg, st, ms).rrs, Touchable(cfg.mutable.value)) == Without(st.rrs, Touchable(cfg.mutable.value))
    decreases |ms|
  {
    if ms != [] {
      var next := Serve(cfg, st, ms[0]).state;
      assert WellFormed(cfg, next.rrs) by {
        ServeKeeps(cfg, st, ms[0]);
      }
      assert Without(next.rrs, Touchable(cfg.mutable.value)) == Without(st.rrs, Touchable(cfg.mutable.value)) by {
        AllowlistIsAirtight(cfg, st, ms[0]);
      }
      AllowlistHoldsForever(cfg, next, ms[1..]);
    }
  }

  // ---------------------------------------------------------------------------
  // Prerequisites, declaratively
  // ---------------------------------------------------------------------------

  /** How often a record identity occurs, whatever its TTL. */
  function Occurrences(rs: seq<Record>, k: RdataKey): nat {
    multiset(Identities(rs))[k]
  }

  /** The zone holds exactly the records of RRset `of` that the prerequisites list. */
  ghost predicate SameContents(rs: seq<Record>, ps: seq<Record>, of: RRsetKey) {
    forall k: RdataKey :: RRsetKey(k.name, k.rrtype) == of ==>
      Occurrences(rs, k) == Occurrences(Without(ps, NotClassIn()), k)
  }

  ghost predicate HasOwner(rs: seq<Record>, canonical: string) {
    exists r :: r in rs && Owner(r) == canonical
  }

  ghost predicate HasRRset(rs: seq<Record>, k: RRsetKey) {
    exists r :: r in rs && SetOf(r) == k
  }

  /** What section 3.2 asks of one prerequisite, value-dependent RRsets apart. */
  predicate Demand(p: Record, inZone: bool, nameInUse: bool, rrsetExists: bool) {
    && p.ttl == 0 && inZone
    && p.cls in {CLASS_ANY, CLASS_NONE, CLASS_IN}
    && (p.cls != CLASS_IN ==> p.rdlength == 0)
    && (p.cls == CLASS_ANY ==> if p.rrtype == TYPE_ANY then nameInUse else rrsetExists)
    && (p.cls == CLASS_NONE ==> if p.rrtype == TYPE_ANY then !nameInUse else !rrsetExists)
  }

  lemma VerdictIsDemand(p: Record, inZone: bool, nameInUse: bool, rrsetExists: bool)
    ensures PrereqVerdict(p, inZone, nameInUse, rrsetExists).None? <==> Demand(p, inZone, nameInUse, rrsetExists)
  {
  }

  /** Section 3.2 of RFC 2136, one prerequisite p among all prerequisites ps. */
  ghost predicate Holds<View>(cfg: Config<View>, rs: seq<Record>, ps: seq<Record>, p: Record) {
    && Demand(p, cfg.InZone(p.name), HasOwner(rs, Owner(p)), HasRRset(rs, SetOf(p)))
    && (p.cls == CLASS_IN ==> SameContents(rs, ps, SetOf(p)))
  }

  lemma OccurrencesAppend(rs: seq<Record>, last: Record, k: RdataKey)
    ensures Occurrences(rs + [last], k) == Occurrences(rs, k) + if Identity(last) == k then 1 else 0
  {
    assert Identities(rs + [last]) == Identities(rs) + [Identity(last)];
  }

  lemma {:induction false} OccurrencesWithout(rs: seq<Record>, drop: Record -> bool, k: RdataKey, dropped: bool)
    requires forall r :: r in rs && Identity(r) == k ==> drop(r) == dropped
    ensures Occurrences(Without(rs, drop), k) == if dropped then 0 else Occurrences(rs, k)
  {
    if rs != [] {
      var init, last := rs[..|rs| - 1], rs[|rs| - 1];
      assert rs == init + [last];
      OccurrencesWithout(init, drop, k, dropped);
      OccurrencesAppend(init, last, k);
      OccurrencesAppend(Without(init, drop), last, k);
    }
  }

  lemma RRsetOccurrences(rs: seq<Record>, p: Record, k: RdataKey)
    requires (forall r :: r in rs ==> Comparable(r)) && IsCanonical(Owner(p))
    ensures Occurrences(RRsetOf(rs, SetOf(p)), k)
            == if RRsetKey(k.name, k.rrtype) == SetOf(p) then Occurrences(rs, k) else 0
  {
    forall r | r in rs
      ensures OutsideRRset(SetOf(p))(r) <==> SetOf(r) != SetOf(p)
    {
      OwnsMeaning(r, SetOf(p).name);
    }
    OccurrencesWithout(rs, OutsideRRset(SetOf(p)), k, RRsetKey(k.name, k.rrtype) != SetOf(p));
  }

  lemma WantedOccurrences(ps: seq<Record>, p: Record, k: RdataKey)
    ensures Occurrences(Wanted(ps, SetOf(p)), k)
            == if RRsetKey(k.name, k.rrtype) == SetOf(p) then Occurrences(Without(ps, NotClassIn()), k) else 0
  {
    WithoutTwice(ps, NotClassIn(), OtherThanWanted(SetOf(p)));
    var inClass := Without(ps, NotClassIn());
    WithoutMembers(ps, NotClassIn());
    forall r | r in inClass && Identity(r) == k
      ensures OtherThanWanted(SetOf(p))(r) <==> RRsetKey(k.name, k.rrtype) != SetOf(p)
    {
    }
    OccurrencesWithout(inClass, OtherThanWanted(SetOf(p)), k, RRsetKey(k.name, k.rrtype) != SetOf(p));
  }

  lemma SameRRsetIsOccurrences(a: seq<Record>, b: seq<Record>)
    ensures SameRRset(a, b) <==> forall k :: Occurrences(a, k) == Occurrences(b, k)
  {
    if forall k :: Occurrences(a, k) == Occurrences(b, k) {
      forall k
        ensures multiset(Identities(a))[k] == multiset(Identities(b))[k]
      {
        assert Occurrences(a, k) == Occurrences(b, k);
      }
    }
  }

  lemma ValueDependentMeaning(rs: seq<Record>, ps: seq<Record>, p: Record)
    requires (forall r :: r in rs ==> Comparable(r)) && IsCanonical(Owner(p))
    ensures SameRRset(RRsetOf(rs, SetOf(p)), Wanted(ps, SetOf(p))) <==> SameContents(rs, ps, SetOf(p))
  {
    SameRRsetIsOccurrences(RRsetOf(rs, SetOf(p)), Wanted(ps, SetOf(p)));
    forall k
      ensures Occurrences(RRsetOf(rs, SetOf(p)), k)
              == if RRsetKey(k.name, k.rrtype) == SetOf(p) then Occurrences(rs, k) else 0
      ensures Occurrences(Wanted(ps, SetOf(p)), k)
              == if RRsetKey(k.name, k.rrtype) == SetOf(p) then Occurrences(Without(ps, NotClassIn()), k) else 0
    {
      RRsetOccurrences(rs, p, k);
      WantedOccurrences(ps, p, k);
    }
  }

  lemma RRsetFound(rs: seq<Record>, p: Record)
    requires (forall r :: r in rs ==> Comparable(r)) && IsCanonical(Owner(p))
    ensures RRsetExists(rs, SetOf(p)) <==> HasRRset(rs, SetOf(p))
  {
    forall r | r in rs
      ensures OutsideRRset(SetOf(p))(r) <==> SetOf(r) != SetOf(p)
    {
      OwnsMeaning(r, SetOf(p).name);
    }
    var found := RRsetOf(rs, SetOf(p));
    WithoutMembers(rs, OutsideRRset(SetOf(p)));
    if found != [] {
      assert found[0] in found;
    }
  }

  lemma NameFound(rs: seq<Record>, p: Record)
    requires (forall r :: r in rs ==> Comparable(r)) && IsCanonical(Owner(p))
    ensures NameInUse(rs, Owner(p)) <==> HasOwner(rs, Owner(p))
  {
    forall r | r in rs
      ensures Owns(r, Owner(p)) <==> Owner(r) == Owner(p)
    {
      OwnsMeaning(r, Owner(p));
    }
  }

  lemma ScanMeaning<View>(cfg: Config<View>, rs: seq<Record>, ps: seq<Record>, p: Record)
    requires (forall r :: r in rs ==> Comparable(r)) && IsCanonical(Owner(p))
    ensures Holds(cfg, rs, ps, p) <==>
            cfg.PrereqRecord(rs, p).None?
            && (p.cls == CLASS_IN ==> SameRRset(RRsetOf(rs, SetOf(p)), Wanted(ps, SetOf(p))))
  {
    RRsetFound(rs, p);
    NameFound(rs, p);
    VerdictIsDemand(p, cfg.InZone(p.name), NameInUse(rs, Owner(p)), RRsetExists(rs, SetOf(p)));
    ValueDependentMeaning(rs, ps, p);
  }

  /** The prerequisite section succeeds exactly when every prerequisite holds. */
  lemma PrereqsMeaning<View>(cfg: Config<View>, rs: seq<Record>, ps: seq<Record>)
    requires forall r :: r in rs ==> Comparable(r)
    requires forall p :: p in ps ==> IsCanonical(Owner(p))
    ensures cfg.CheckPrereqs(rs, ps) == NoError <==> forall p :: p in ps ==> Holds(cfg, rs, ps, p)
  {
    forall p | p in ps
      ensures Holds(cfg, rs, ps, p) <==>
              cfg.PrereqRecord(rs, p).None?
              && (p.cls == CLASS_IN ==> SameRRset(RRsetOf(rs, SetOf(p)), Wanted(ps, SetOf(p))))
    {
      ScanMeaning(cfg, rs, ps, p);
    }
  }
}
