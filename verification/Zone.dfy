/**
  Records, zones and UPDATE messages as values: what RFC 2136 section 3 says about
  them, as functions over the record sequence.
*/
module Zone {
  import opened Wrappers
  import opened Bytes
  import opened Names

  const TYPE_NS: uint16 := 2
  const TYPE_CNAME: uint16 := 5
  const TYPE_SOA: uint16 := 6
  const TYPE_OPT: uint16 := 41
  const TYPE_RRSIG: uint16 := 46
  const TYPE_NSEC: uint16 := 47
  const TYPE_ANY: uint16 := 255

  const CLASS_IN: uint16 := 1
  const CLASS_NONE: uint16 := 254
  const CLASS_ANY: uint16 := 255

  datatype Rcode = NoError | FormErr | ServFail | NXDomain | Refused | YXDomain | YXRRset | NXRRset | NotAuth | NotZone

  /** The record's Go type: only an SOA exposes a serial, everything else is opaque here. */
  datatype RData = Soa(serial: uint32, rest: string) | Opaque(text: string)

  datatype Record = Record(name: string, rrtype: uint16, cls: uint16, ttl: uint32, rdlength: uint16, rdata: RData)

  /**
    A record the message unpacker or zone parser can deliver: its owner is fully
    qualified, and its Go type is the one its TYPE field selects.
  */
  predicate Parsed(r: Record) {
    IsFqdn(r.name) && (r.rdata.Soa? ==> r.rrtype == TYPE_SOA)
  }

  function Owner(r: Record): string {
    Canonical(r.name)
  }

  predicate Owns(r: Record, canonical: string) {
    SameName(r.name, canonical)
  }

  // ---------------------------------------------------------------------------
  // Record identity: name, type and RDATA, not TTL or class
  // ---------------------------------------------------------------------------

  datatype RRsetKey = RRsetKey(name: string, rrtype: uint16)
  datatype RdataKey = RdataKey(name: string, rrtype: uint16, rdata: RData)

  function SetOf(r: Record): RRsetKey {
    RRsetKey(Canonical(r.name), r.rrtype)
  }

  function Identity(r: Record): RdataKey {
    RdataKey(Canonical(r.name), r.rrtype, r.rdata)
  }

  function Identities(rs: seq<Record>): (ks: seq<RdataKey>)
    ensures |ks| == |rs| && forall i :: 0 <= i < |rs| ==> ks[i] == Identity(rs[i])
  {
    seq(|rs|, i requires 0 <= i < |rs| => Identity(rs[i]))
  }

  /** What the zone scan compares: type and owner first, the full key only when both agree. */
  predicate Matches(r: Record, want: Record) {
    r.rrtype == want.rrtype && Owns(r, Canonical(want.name)) && Identity(r) == Identity(want)
  }

  /** The one family of owner names that the in-place comparison gets wrong, ruled out. */
  predicate Comparable(r: Record) {
    !(Ascii(r.name) && EndsInEscapedDot(r.name))
  }

  /** Fully qualified or not: the in-place comparison decides equality of canonical owners. */
  lemma OwnsMeaning(r: Record, canonical: string)
    requires Comparable(r) && IsCanonical(canonical)
    ensures Owns(r, canonical) <==> Owner(r) == canonical
  {
    SameNameExact(r.name, canonical);
  }

  /** The cheap prefilter never hides a record the full key would find. */
  lemma PrefilterIsSound(r: Record, want: Record)
    requires Comparable(r) && IsCanonical(Owner(want))
    ensures Matches(r, want) <==> Identity(r) == Identity(want)
  {
    OwnsMeaning(r, Owner(want));
  }

  // ---------------------------------------------------------------------------
  // Which records a scan or deletion selects; named, so that code and specification
  // speak of the same closure
  // ---------------------------------------------------------------------------

  function IsSoa(): Record -> bool {
    (x: Record) => x.rrtype == TYPE_SOA
  }

  function CarriesSerial(): Record -> bool {
    (x: Record) => x.rdata.Soa?
  }

  function InRRset(name: string, t: uint16): Record -> bool {
    (x: Record) => Owns(x, name) && x.rrtype == t
  }

  /** Everything at a name, sparing the SOA and NS of the apex. */
  function AtName(name: string, apex: bool): Record -> bool {
    (x: Record) => Owns(x, name) && !(apex && (x.rrtype == TYPE_SOA || x.rrtype == TYPE_NS))
  }

  /** What may not sit beside a CNAME. */
  function NonCname(name: string): Record -> bool {
    (x: Record) => Owns(x, name) && x.rrtype !in {TYPE_CNAME, TYPE_RRSIG, TYPE_NSEC}
  }

  function MatchesRecord(want: Record): Record -> bool {
    (x: Record) => Matches(x, want)
  }

  function OutsideRRset(k: RRsetKey): Record -> bool {
    (x: Record) => !(Owns(x, k.name) && x.rrtype == k.rrtype)
  }

  function NotClassIn(): Record -> bool {
    (x: Record) => x.cls != CLASS_IN
  }

  /** Not a class IN prerequisite on this RRset. */
  function OtherThanWanted(k: RRsetKey): Record -> bool {
    (x: Record) => !(x.cls == CLASS_IN && SetOf(x) == k)
  }

  /** What an allowlist lets an update change. */
  function Touchable(types: set<uint16>): Record -> bool {
    (x: Record) => x.rrtype in types || x.rrtype == TYPE_SOA
  }

  // ---------------------------------------------------------------------------
  // Scans over a record sequence
  // ---------------------------------------------------------------------------

  /** The records `drop` does not select, in order. */
  function Without(rs: seq<Record>, drop: Record -> bool): (out: seq<Record>) {
    if rs == [] then []
    else
      var init, last := Without(rs[..|rs| - 1], drop), rs[|rs| - 1];
      if drop(last) then init else init + [last]
  }

  lemma {:induction false} WithoutMembers(rs: seq<Record>, drop: Record -> bool)
    ensures forall x :: x in Without(rs, drop) <==> x in rs && !drop(x)
  {
    if rs != [] {
      WithoutMembers(rs[..|rs| - 1], drop);
      assert rs == rs[..|rs| - 1] + [rs[|rs| - 1]];
    }
  }

  predicate Drops(rs: seq<Record>, drop: Record -> bool) {
    rs != [] && (Drops(rs[..|rs| - 1], drop) || drop(rs[|rs| - 1]))
  }

  lemma {:induction false} DropsMeaning(rs: seq<Record>, drop: Record -> bool)
    ensures Drops(rs, drop) <==> exists r :: r in rs && drop(r)
  {
    if rs != [] {
      DropsMeaning(rs[..|rs| - 1], drop);
      assert rs == rs[..|rs| - 1] + [rs[|rs| - 1]];
    }
  }

  /** Position of the first record that `hit` selects, -1 for none. */
  function FirstIndex(rs: seq<Record>, hit: Record -> bool): (i: int)
    ensures -1 <= i < |rs|
    ensures i >= 0 ==> hit(rs[i])
  {
    if rs == [] then -1
    else
      var i := FirstIndex(rs[..|rs| - 1], hit);
      if i >= 0 then i else if hit(rs[|rs| - 1]) then |rs| - 1 else -1
  }

  lemma {:induction false} FirstIndexMeaning(rs: seq<Record>, hit: Record -> bool)
    ensures var i := FirstIndex(rs, hit);
            forall j :: 0 <= j < (if i < 0 then |rs| else i) ==> !hit(rs[j])
  {
    if rs != [] {
      FirstIndexMeaning(rs[..|rs| - 1], hit);
    }
  }

  function CountOf(rs: seq<Record>, hit: Record -> bool): (n: nat) {
    if rs == [] then 0
    else CountOf(rs[..|rs| - 1], hit) + (if hit(rs[|rs| - 1]) then 1 else 0)
  }

  lemma {:induction false} CountZero(rs: seq<Record>, hit: Record -> bool)
    ensures CountOf(rs, hit) == 0 <==> forall r :: r in rs ==> !hit(r)
  {
    if rs != [] {
      CountZero(rs[..|rs| - 1], hit);
      assert rs == rs[..|rs| - 1] + [rs[|rs| - 1]];
    }
  }

  predicate NameInUse(rs: seq<Record>, canonical: string) {
    exists r :: r in rs && Owns(r, canonical)
  }

  predicate RRsetExists(rs: seq<Record>, k: RRsetKey) {
    RRsetOf(rs, k) != []
  }

  function RRsetOf(rs: seq<Record>, k: RRsetKey): seq<Record> {
    Without(rs, OutsideRRset(k))
  }

  // ---------------------------------------------------------------------------
  // Serial numbers (RFC 1982; RFC 2136 sections 3.6 and 7.11)
  // ---------------------------------------------------------------------------

  predicate SerialGreater(a: uint32, b: uint32) {
    a != b && ((a < b && b - a > 0x8000_0000) || (a > b && a - b < 0x8000_0000))
  }

  function NextSerial(s: uint32): uint32 {
    var n := (s + 1) % 0x1_0000_0000;
    if n == 0 then 1 else n
  }

  function SerialOf(rs: seq<Record>): (s: Option<uint32>) {
    var i := FirstIndex(rs, CarriesSerial());
    if i < 0 then None else Some(rs[i].rdata.serial)
  }

  function Bumped(rs: seq<Record>): (out: seq<Record>)
    ensures |out| == |rs|
  {
    var i := FirstIndex(rs, CarriesSerial());
    if i < 0 then rs else rs[i := rs[i].(rdata := rs[i].rdata.(serial := NextSerial(rs[i].rdata.serial)))]
  }

  // ---------------------------------------------------------------------------
  // Applying one update record (RFC 2136 sections 3.4.2.2 to 3.4.2.4)
  // ---------------------------------------------------------------------------

  datatype Applied = Applied(rrs: seq<Record>, changed: bool)

  function Delete(rs: seq<Record>, changed: bool, drop: Record -> bool): Applied {
    Applied(Without(rs, drop), changed || exists r :: r in rs && drop(r))
  }

  /** An SOA takes effect at the apex only, and only with a greater serial. */
  predicate SoaTakes(rr: Record, zone: string, cur: Option<uint32>) {
    rr.rdata.Soa? && Canonical(rr.name) == zone && cur.Some? && SerialGreater(rr.rdata.serial, cur.value)
  }

  function AddSoa(rs: seq<Record>, changed: bool, rr: Record, zone: string): Applied {
    if SoaTakes(rr, zone, SerialOf(rs)) then Applied(Without(rs, IsSoa()) + [rr], true) else Applied(rs, changed)
  }

  /** CNAME exclusivity, in both directions. */
  predicate Excluded(rs: seq<Record>, rr: Record) {
    exists r :: r in rs
      && if rr.rrtype == TYPE_CNAME then NonCname(Canonical(rr.name))(r) else InRRset(Canonical(rr.name), TYPE_CNAME)(r)
  }

  /** A record not yet in the zone; a CNAME takes the place of the one at its name. */
  function Joined(rs: seq<Record>, rr: Record): seq<Record> {
    (if rr.rrtype == TYPE_CNAME then Without(rs, InRRset(Canonical(rr.name), TYPE_CNAME)) else rs) + [rr]
  }

  function AddAt(rs: seq<Record>, changed: bool, rr: Record, i: int): Applied
    requires i < |rs|
  {
    if i < 0 then Applied(Joined(rs, rr), true)
    else if rs[i].ttl == rr.ttl then Applied(rs, changed)
    else Applied(rs[i := rs[i].(ttl := rr.ttl)], true)
  }

  function AddOther(rs: seq<Record>, changed: bool, rr: Record): Applied {
    AddAt(rs, changed, rr, FirstIndex(rs, MatchesRecord(rr)))
  }

  function Add(rs: seq<Record>, changed: bool, rr: Record, zone: string): Applied {
    if rr.rrtype == TYPE_SOA then AddSoa(rs, changed, rr, zone)
    else if Excluded(rs, rr) then Applied(rs, changed)
    else AddOther(rs, changed, rr)
  }

  function DeleteRRset(rs: seq<Record>, changed: bool, rr: Record, zone: string): Applied {
    var name := Canonical(rr.name);
    var apex := name == zone;
    if rr.rrtype == TYPE_ANY then
      Delete(rs, changed, AtName(name, apex))
    else if apex && (rr.rrtype == TYPE_SOA || rr.rrtype == TYPE_NS) then
      Applied(rs, changed)
    else
      Delete(rs, changed, InRRset(name, rr.rrtype))
  }

  /** The apex SOA is never deletable, and the last apex NS is kept. */
  predicate Indelible(rs: seq<Record>, rr: Record, zone: string) {
    Canonical(rr.name) == zone
    && (rr.rrtype == TYPE_SOA || (rr.rrtype == TYPE_NS && CountOf(rs, InRRset(zone, TYPE_NS)) <= 1))
  }

  function CutAt(rs: seq<Record>, changed: bool, i: int): Applied
    requires i < |rs|
  {
    if i >= 0 then Applied(rs[..i] + rs[i + 1..], true) else Applied(rs, changed)
  }

  function RemoveFirst(rs: seq<Record>, changed: bool, rr: Record): Applied {
    CutAt(rs, changed, FirstIndex(rs, MatchesRecord(rr)))
  }

  function DeleteRecord(rs: seq<Record>, changed: bool, rr: Record, zone: string): Applied {
    if Indelible(rs, rr, zone) then Applied(rs, changed) else RemoveFirst(rs, changed, rr)
  }

  function ApplyOne(a: Applied, rr: Record, zone: string): Applied {
    if rr.cls == CLASS_IN then Add(a.rrs, a.changed, rr, zone)
    else if rr.cls == CLASS_ANY then DeleteRRset(a.rrs, a.changed, rr, zone)
    else if rr.cls == CLASS_NONE then DeleteRecord(a.rrs, a.changed, rr, zone)
    else a
  }

  /** The whole update section, left to right. */
  function Apply(rs: seq<Record>, updates: seq<Record>, zone: string): Applied {
    if updates == [] then Applied(rs, false)
    else ApplyOne(Apply(rs, updates[..|updates| - 1], zone), updates[|updates| - 1], zone)
  }

  // ---------------------------------------------------------------------------
  // Configuration, messages and the server's answer
  // ---------------------------------------------------------------------------

  /** The verdict on one prerequisite, given what the zone holds at its name. */
  function PrereqVerdict(p: Record, inZone: bool, nameInUse: bool, rrsetExists: bool): Option<Rcode> {
    if p.ttl != 0 then Some(FormErr)
    else if !inZone then Some(NotZone)
    else if p.cls == CLASS_ANY then
      if p.rdlength != 0 then Some(FormErr)
      else if p.rrtype == TYPE_ANY then (if nameInUse then None else Some(NXDomain))
      else (if rrsetExists then None else Some(NXRRset))
    else if p.cls == CLASS_NONE then
      if p.rdlength != 0 then Some(FormErr)
      else if p.rrtype == TYPE_ANY then (if nameInUse then Some(YXDomain) else None)
      else (if rrsetExists then Some(YXRRset) else None)
    else if p.cls == CLASS_IN then None
    else Some(FormErr)
  }

  /**
    One configured zone. The subdomain test, the recognised types and the insertion of
    a record into a servable view belong to libraries and are taken as given functions.
  */
  datatype Config<!View> = Config(
    zone: string,
    mutable: Option<set<uint16>>,
    known: set<uint16>,
    isSubDomain: (string, string) -> bool,
    emptyView: View,
    insert: (View, Record) -> Option<View>)
  {
    predicate InZone(name: string) {
      Canonical(name) == zone || isSubDomain(zone, Canonical(name))
    }

    predicate Updatable(t: uint16) {
      !(t == 0 || t == TYPE_OPT || 128 <= t <= 255) && t in known
    }

    /** Inserts the records one by one into a fresh view; the first refusal fails the build. */
    function Build(rs: seq<Record>): Option<View> {
      if rs == [] then Some(emptyView)
      else
        var v := Build(rs[..|rs| - 1]);
        if v.None? then None else insert(v.value, rs[|rs| - 1])
    }

    // RFC 2136 section 3.4.1.
    function PrescanRecord(h: Record): Rcode {
      var everything := h.cls == CLASS_ANY && h.rrtype == TYPE_ANY;
      if !InZone(h.name) then NotZone
      else if !everything && !Updatable(h.rrtype) then FormErr
      else if h.cls !in {CLASS_IN, CLASS_ANY, CLASS_NONE} then FormErr
      else if h.cls == CLASS_ANY && (h.ttl != 0 || h.rdlength != 0) then FormErr
      else if h.cls == CLASS_NONE && h.ttl != 0 then FormErr
      else if mutable.Some? && (everything || h.rrtype !in mutable.value) then Refused
      else NoError
    }

    /** The verdict on the first record that fails, NOERROR when none does. */
    function Prescan(updates: seq<Record>): (r: Rcode)
      ensures r == NoError <==> forall u :: u in updates ==> PrescanRecord(u) == NoError
    {
      if updates == [] then NoError
      else if PrescanRecord(updates[0]) != NoError then PrescanRecord(updates[0])
      else Prescan(updates[1..])
    }

    // RFC 2136 section 3.2, one record at a time; None lets the scan go on.
    function PrereqRecord(rs: seq<Record>, p: Record): Option<Rcode> {
      var name := Canonical(p.name);
      PrereqVerdict(p, InZone(p.name), NameInUse(rs, name), RRsetExists(rs, RRsetKey(name, p.rrtype)))
    }

    function PrereqScan(rs: seq<Record>, ps: seq<Record>): (r: Option<Rcode>)
      ensures r.None? <==> forall p :: p in ps ==> PrereqRecord(rs, p).None?
      ensures r.Some? ==> r.value != NoError
    {
      if ps == [] then None
      else if PrereqRecord(rs, ps[0]).Some? then PrereqRecord(rs, ps[0])
      else PrereqScan(rs, ps[1..])
    }

    /** Section 3.2.3 compares whole RRsets, so value-dependent prerequisites come last. */
    function CheckPrereqs(rs: seq<Record>, ps: seq<Record>): Rcode {
      var scan := PrereqScan(rs, ps);
      if scan.Some? then scan.value
      else if forall p :: p in ps && p.cls == CLASS_IN ==> SameRRset(RRsetOf(rs, SetOf(p)), Wanted(ps, SetOf(p)))
      then NoError
      else NXRRset
    }
  }

  /** The value-dependent prerequisites that describe RRset k, in message order. */
  function Wanted(ps: seq<Record>, k: RRsetKey): seq<Record> {
    Without(ps, OtherThanWanted(k))
  }

  /** Equality of RRsets as section 3.2.3 means it: order and TTL do not matter. */
  predicate SameRRset(have: seq<Record>, want: seq<Record>) {
    multiset(Identities(have)) == multiset(Identities(want))
  }

  datatype Question = Question(name: string, qtype: uint16, qclass: uint16)
  datatype Message = Message(questions: seq<Question>, signed: bool, prereqs: seq<Record>, updates: seq<Record>)
  /** The records, and the view built from them; no view until a build has succeeded. */
  datatype State<!View> = State(rrs: seq<Record>, view: Option<View>)
  datatype Answer<!View> = Answer(rcode: Rcode, state: State<View>)

  /** RFC 2136 section 3.6: the serial moves by itself unless the update already moved it. */
  function WithSerial(before: seq<Record>, after: seq<Record>): seq<Record> {
    var cur, next := SerialOf(before), SerialOf(after);
    if cur.Some? && next.Some? && next == cur then Bumped(after) else after
  }

  /** Every check that comes before the first change: Zone section, TSIG, prerequisites, prescan. */
  function Admission<View>(cfg: Config<View>, rs: seq<Record>, m: Message): Rcode {
    if |m.questions| != 1 || m.questions[0].qtype != TYPE_SOA || m.questions[0].qclass != CLASS_IN then FormErr
    else if Canonical(m.questions[0].name) != cfg.zone then NotAuth
    else if !m.signed then Refused
    else if cfg.CheckPrereqs(rs, m.prereqs) != NoError then cfg.CheckPrereqs(rs, m.prereqs)
    else cfg.Prescan(m.updates)
  }

  /** One UPDATE message, from the Zone section check to the swap. */
  function Serve<View>(cfg: Config<View>, st: State<View>, m: Message): Answer<View> {
    var rcode := Admission(cfg, st.rrs, m);
    if rcode != NoError then Answer(rcode, st) else Committed(cfg, st, m.updates)
  }

  /** Records and view replaced together, or not at all if the records do not build. */
  function Swapped<View>(cfg: Config<View>, st: State<View>, rs: seq<Record>): Answer<View> {
    var v := cfg.Build(rs);
    if v.None? then Answer(ServFail, st) else Answer(NoError, State(rs, v))
  }

  /** The update section applied, the serial settled, the view rebuilt. */
  function Committed<View>(cfg: Config<View>, st: State<View>, updates: seq<Record>): Answer<View> {
    var a := Apply(st.rrs, updates, cfg.zone);
    if !a.changed then Answer(NoError, st) else Swapped(cfg, st, WithSerial(st.rrs, a.rrs))
  }

  /** After setup: the first build is attempted, and its failure only logged. */
  function Start<View>(cfg: Config<View>, seed: seq<Record>): State<View> {
    State(seed, cfg.Build(seed))
  }

  /** Every message of a run, in order. */
  function Run<View>(cfg: Config<View>, st: State<View>, ms: seq<Message>): State<View>
    decreases |ms|
  {
    if ms == [] then st else Run(cfg, Serve(cfg, st, ms[0]).state, ms[1..])
  }
}
