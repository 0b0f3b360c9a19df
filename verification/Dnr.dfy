/**
  The Encrypted DNS option of Router Advertisements (RFC 9463 section 6.1): encoder,
  decoder and the validity check they share.
*/
module Dnr {
  import opened Wrappers
  import opened Bytes
  import opened DomainName

  type Octets16 = s: seq<Byte> | |s| == 16 witness [0, 0, 0, 0, 0, 0, 0, 0, 0, 0, 0, 0, 0, 0, 0, 0]

  const OPTION_TYPE: Byte := 144
  const MAX_UNITS: int := 255

  datatype Addr = NoAddr | V4(v4: seq<Byte>) | V6(octets: Octets16, zone: string)

  predicate Mapped(o: Octets16) {
    (forall i :: 0 <= i < 10 ==> o[i] == 0) && o[10] == 255 && o[11] == 255
  }

  /** An address the option can carry: native IPv6 without a zone. */
  predicate Native(a: Addr) {
    a.V6? && !Mapped(a.octets) && a.zone == ""
  }

  predicate AllV6(addrs: seq<Addr>) {
    forall i :: 0 <= i < |addrs| ==> addrs[i].V6?
  }

  predicate AllNative(addrs: seq<Addr>)
    ensures AllNative(addrs) ==> AllV6(addrs)
  {
    forall i :: 0 <= i < |addrs| ==> Native(addrs[i])
  }

  datatype EncryptedDns = EncryptedDns(adn: Name, addrs: seq<Addr>, svcParams: seq<Byte>, priority: uint16, lifetime: uint32)

  // ---------------------------------------------------------------------------
  // Sizes and validity
  // ---------------------------------------------------------------------------

  /** Octets before padding: header, priority, lifetime and the three length-prefixed fields. */
  function UnpaddedSize(o: EncryptedDns): nat {
    2 + (2 + 4 + 2 + (|o.adn| + 2) + 2 + 16 * |o.addrs| + 2 + |o.svcParams|)
  }

  function WireSize(o: EncryptedDns): (n: nat)
    ensures n % 8 == 0 && UnpaddedSize(o) <= n < UnpaddedSize(o) + 8
  {
    var total := UnpaddedSize(o);
    total + (8 - total % 8) % 8
  }

  predicate Valid(o: EncryptedDns) {
    && o.adn != []
    && AllNative(o.addrs)
    && 16 * |o.addrs| <= 0xffff
    && |o.svcParams| <= 0xffff
    && WireSize(o) / 8 <= MAX_UNITS
  }

  method Validate(o: EncryptedDns) returns (ok: bool)
    ensures ok == Valid(o)
  {
    if o.adn == [] {
      return false;
    }
    var i := 0;
    while i < |o.addrs|
      invariant 0 <= i <= |o.addrs|
      invariant forall j :: 0 <= j < i ==> Native(o.addrs[j])
    {
      if !Native(o.addrs[i]) {
        return false;
      }
      i := i + 1;
    }
    return 16 * |o.addrs| <= 0xffff && |o.svcParams| <= 0xffff && WireSize(o) / 8 <= MAX_UNITS;
  }

  /** The octets the Length field of a buffer claims. */
  function Span(b: seq<Byte>): nat
    requires |b| >= 2
  {
    8 * (b[1] as int)
  }

  // ---------------------------------------------------------------------------
  // Encoding
  // ---------------------------------------------------------------------------

  function Octets(addrs: seq<Addr>): (b: seq<Byte>)
    requires AllV6(addrs)
    ensures |b| == 16 * |addrs|
  {
    if addrs == [] then [] else addrs[0].octets + Octets(addrs[1..])
  }

  function SvcField(svc: seq<Byte>): (b: seq<Byte>)
    requires |svc| <= 0xffff
    ensures |b| == 2 + |svc|
  {
    U16(|svc|) + svc
  }

  function AddrField(addrs: seq<Addr>): (b: seq<Byte>)
    requires AllNative(addrs) && 16 * |addrs| <= 0xffff
    ensures |b| == 2 + 16 * |addrs|
  {
    U16(16 * |addrs|) + Octets(addrs)
  }

  function AdnField(adn: Name): (b: seq<Byte>)
    requires adn != []
    ensures |b| == 2 + |adn| + 2
  {
    WireLength(adn);
    U16(|Wire(adn)|) + Wire(adn)
  }

  /** Everything after the two header octets, before padding. */
  function Body(o: EncryptedDns): (b: seq<Byte>)
    requires Valid(o)
    ensures |b| == UnpaddedSize(o) - 2
  {
    U16(o.priority) + (U32(o.lifetime) + (AdnField(o.adn) + (AddrField(o.addrs) + SvcField(o.svcParams))))
  }

  function Zeros(n: nat): (z: seq<Byte>)
    ensures |z| == n && forall i :: 0 <= i < n ==> z[i] == 0
  {
    seq(n, _ => 0)
  }

  function Encode(o: EncryptedDns): (b: seq<Byte>)
    requires Valid(o)
    ensures |b| == WireSize(o)
  {
    [OPTION_TYPE, WireSize(o) / 8] + Body(o) + Zeros(WireSize(o) - UnpaddedSize(o))
  }

  /** Aligned, the Length octet right, and nothing but zeros behind the last field. */
  lemma EncodeShape(o: EncryptedDns)
    requires Valid(o)
    ensures |Encode(o)| % 8 == 0 && |Encode(o)| <= 2040
    ensures Encode(o)[0] == OPTION_TYPE && Span(Encode(o)) == |Encode(o)|
    ensures forall i :: UnpaddedSize(o) <= i < |Encode(o)| ==> Encode(o)[i] == 0
    ensures Encode(o)[2..UnpaddedSize(o)] == Body(o)
  {
  }

  // ---------------------------------------------------------------------------
  // The encoder's buffer
  // ---------------------------------------------------------------------------

  /** `written`, followed by the zeros the allocation left. */
  ghost predicate Filled(buf: array<Byte>, written: seq<Byte>)
    reads buf
  {
    |written| <= buf.Length && buf[..] == written + Zeros(buf.Length - |written|)
  }

  /** An append that must fit the allocation. */
  method Put(buf: array<Byte>, n: nat, bs: seq<Byte>, ghost written: seq<Byte>) returns (m: nat)
    requires n == |written| && n + |bs| <= buf.Length && Filled(buf, written)
    modifies buf
    ensures m == n + |bs| && Filled(buf, written + bs)
  {
    var i := 0;
    while i < |bs|
      invariant 0 <= i <= |bs|
      invariant buf[..] == written + bs[..i] + Zeros(buf.Length - n - i)
    {
      buf[n + i] := bs[i];
      i := i + 1;
    }
    assert bs[..i] == bs;
    return n + |bs|;
  }

  method PutAddrs(buf: array<Byte>, n: nat, addrs: seq<Addr>, ghost written: seq<Byte>) returns (m: nat)
    requires AllV6(addrs)
    requires n == |written| && n + 16 * |addrs| <= buf.Length && Filled(buf, written)
    modifies buf
    ensures m == n + 16 * |addrs| && Filled(buf, written + Octets(addrs))
  {
    m := n;
    ghost var w := written;
    var i := 0;
    while i < |addrs|
      invariant 0 <= i <= |addrs| && m == |w| == n + 16 * i && Filled(buf, w)
      invariant w + Octets(addrs[i..]) == written + Octets(addrs)
    {
      assert addrs[i..][1..] == addrs[i + 1..];
      assert w + (addrs[i].octets + Octets(addrs[i + 1..])) == w + addrs[i].octets + Octets(addrs[i + 1..]);
      m := Put(buf, m, addrs[i].octets, w);
      w := w + addrs[i].octets;
      i := i + 1;
    }
    assert Octets(addrs[i..]) == [] && w + [] == w;
  }

  /** A 16-bit length, then the field itself. */
  method PutField(buf: array<Byte>, n: nat, field: seq<Byte>, ghost written: seq<Byte>) returns (m: nat)
    requires |field| <= 0xffff
    requires n == |written| && n + 2 + |field| <= buf.Length && Filled(buf, written)
    modifies buf
    ensures m == n + 2 + |field| && Filled(buf, written + (U16(|field|) + field))
  {
    m := Put(buf, n, U16(|field|), written);
    m := Put(buf, m, field, written + U16(|field|));
    assert written + U16(|field|) + field == written + (U16(|field|) + field);
  }

  method PutAddrField(buf: array<Byte>, n: nat, addrs: seq<Addr>, ghost written: seq<Byte>) returns (m: nat)
    requires AllNative(addrs) && 16 * |addrs| <= 0xffff
    requires n == |written| && n + 2 + 16 * |addrs| <= buf.Length && Filled(buf, written)
    modifies buf
    ensures m == n + 2 + 16 * |addrs| && Filled(buf, written + AddrField(addrs))
  {
    m := Put(buf, n, U16(16 * |addrs|), written);
    m := PutAddrs(buf, m, addrs, written + U16(16 * |addrs|));
    assert written + U16(16 * |addrs|) + Octets(addrs) == written + AddrField(addrs);
  }

  method PutHead(buf: array<Byte>, units: Byte, priority: uint16, lifetime: uint32) returns (n: nat)
    requires buf.Length >= 8 && Filled(buf, [])
    modifies buf
    ensures n == 8 && Filled(buf, [OPTION_TYPE, units] + U16(priority) + U32(lifetime))
  {
    n := Put(buf, 0, [OPTION_TYPE, units], []);
    assert [] + [OPTION_TYPE, units] == [OPTION_TYPE, units];
    n := Put(buf, n, U16(priority), [OPTION_TYPE, units]);
    n := Put(buf, n, U32(lifetime), [OPTION_TYPE, units] + U16(priority));
  }

  /** The fields one after the other; every append fits. */
  method PutOption(buf: array<Byte>, o: EncryptedDns)
    requires Valid(o) && buf.Length == WireSize(o) && Filled(buf, [])
    modifies buf
    ensures buf[..] == Encode(o)
  {
    var adn := EncodeWire(o.adn);
    WireLength(o.adn);
    ghost var head := [OPTION_TYPE, WireSize(o) / 8] + U16(o.priority) + U32(o.lifetime);
    var n := PutHead(buf, WireSize(o) / 8, o.priority, o.lifetime);
    n := PutField(buf, n, adn, head);
    n := PutAddrField(buf, n, o.addrs, head + AdnField(o.adn));
    n := PutField(buf, n, o.svcParams, head + AdnField(o.adn) + AddrField(o.addrs));
    FieldsInOrder(o);
  }

  /** Appends field by field into one zeroed allocation of exactly WireSize octets. */
  method Marshal(o: EncryptedDns) returns (r: Result<seq<Byte>>)
    ensures r == if Valid(o) then Ok(Encode(o)) else Err
  {
    var ok := Validate(o);
    if !ok {
      return Err;
    }
    var total := WireSize(o);
    var buf := new Byte[total](_ => 0);
    assert buf[..] == Zeros(total) == [] + Zeros(total);
    PutOption(buf, o);
    return Ok(buf[..]);
  }

  lemma FieldsInOrder(o: EncryptedDns)
    requires Valid(o)
    ensures [OPTION_TYPE, WireSize(o) / 8] + U16(o.priority) + U32(o.lifetime) + AdnField(o.adn) + AddrField(o.addrs)
            + SvcField(o.svcParams) == [OPTION_TYPE, WireSize(o) / 8] + Body(o)
  {
  }

  // ---------------------------------------------------------------------------
  // Decoding
  // ---------------------------------------------------------------------------

  /** Sixteen octets at a time. */
  function Addrs(p: seq<Byte>): (r: seq<Addr>)
    requires |p| % 16 == 0
    ensures 16 * |r| == |p|
    decreases |p|
  {
    if p == [] then [] else [V6(p[..16], "")] + Addrs(p[16..])
  }

  lemma {:induction false} AddrsAreV6(p: seq<Byte>)
    requires |p| % 16 == 0
    ensures forall i :: 0 <= i < |Addrs(p)| ==> Addrs(p)[i].V6? && Addrs(p)[i].zone == ""
    decreases |p|
  {
    if p != [] {
      AddrsAreV6(p[16..]);
    }
  }

  lemma AddrsStep(r: seq<Addr>, p: seq<Byte>, i: nat)
    requires |p| % 16 == 0 && i % 16 == 0 && i < |p|
    ensures r + Addrs(p[i..]) == r + [V6(p[i..i + 16], "")] + Addrs(p[i + 16..])
  {
    assert p[i..][..16] == p[i..i + 16] && p[i..][16..] == p[i + 16..];
  }

  method ParseAddrs(p: seq<Byte>) returns (r: seq<Addr>)
    requires |p| % 16 == 0
    ensures r == Addrs(p)
  {
    r := [];
    var i := 0;
    while i < |p|
      invariant 0 <= i <= |p| && i % 16 == 0
      invariant r + Addrs(p[i..]) == Addrs(p)
      decreases |p| - i
    {
      AddrsStep(r, p, i);
      r := r + [V6(p[i..i + 16], "")];
      i := i + 16;
    }
    assert Addrs(p[i..]) == [];
  }

  function ParseSvc(p: seq<Byte>): Result<seq<Byte>> {
    if |p| < 2 || Val16(p) > |p| - 2 then Err else Ok(p[2..2 + Val16(p)])
  }

  datatype Fields = Fields(adn: Name, addrs: seq<Addr>, svcParams: seq<Byte>)

  /** The address list and what follows it. */
  function ParseFromAddrs(p: seq<Byte>, adn: Name): Result<Fields> {
    if |p| < 2 || Val16(p) % 16 != 0 || Val16(p) > |p| - 2 then Err
    else
      var n := Val16(p);
      var svc := ParseSvc(p[2 + n..]);
      if svc.Err? then Err else Ok(Fields(adn, Addrs(p[2..2 + n]), svc.value))
  }

  function ParseFromAdn(p: seq<Byte>): Result<Fields> {
    if |p| < 2 || Val16(p) > |p| - 2 then Err
    else
      var n := Val16(p);
      var adn := DecodeFrom(p[2..2 + n], []);
      if adn.Err? then Err else ParseFromAddrs(p[2 + n..], adn.value)
  }

  /** Every field, before the final validity check. */
  function ParseBody(p: seq<Byte>): Result<EncryptedDns> {
    if |p| < 6 then Err
    else
      var f := ParseFromAdn(p[6..]);
      if f.Err? then Err
      else Ok(EncryptedDns(f.value.adn, f.value.addrs, f.value.svcParams, Val16(p), Val32(p[2..])))
  }

  predicate HeaderOk(b: seq<Byte>) {
    |b| >= 8 && b[0] == OPTION_TYPE && b[1] != 0 && Span(b) <= |b|
  }

  function Decode(b: seq<Byte>): Result<EncryptedDns> {
    if !HeaderOk(b) then Err
    else
      var o := ParseBody(b[2..Span(b)]);
      if o.Ok? && !Valid(o.value) then Err else o
  }

  /** The decoder as it runs, consuming the body field by field. */
  method Unmarshal(b: seq<Byte>) returns (r: Result<EncryptedDns>)
    ensures r == Decode(b)
  {
    if |b| < 8 || b[0] != OPTION_TYPE {
      return Err;
    }
    var total := Span(b);
    if total == 0 || total > |b| {
      return Err;
    }
    var body := b[2..total];
    if |body| < 6 {
      return Err;
    }
    var priority, lifetime := Val16(body), Val32(body[2..]);
    var f := UnmarshalFields(body[6..]);
    if f.Err? {
      return Err;
    }
    var o := EncryptedDns(f.value.adn, f.value.addrs, f.value.svcParams, priority, lifetime);
    var ok := Validate(o);
    return if ok then Ok(o) else Err;
  }

  method UnmarshalFields(body: seq<Byte>) returns (r: Result<Fields>)
    ensures r == ParseFromAdn(body)
  {
    var p := body;
    if |p| < 2 || Val16(p) > |p| - 2 {
      return Err;
    }
    var n := Val16(p);
    var adn := DecodeName(p[2..2 + n]);
    if adn.Err? {
      return Err;
    }
    p := p[2 + n..];
    if |p| < 2 || Val16(p) % 16 != 0 || Val16(p) > |p| - 2 {
      return Err;
    }
    n := Val16(p);
    var addrs := ParseAddrs(p[2..2 + n]);
    var svc := ParseSvc(p[2 + n..]);
    return if svc.Err? then Err else Ok(Fields(adn.value, addrs, svc.value));
  }

  // ---------------------------------------------------------------------------
  // Round trip
  // ---------------------------------------------------------------------------

  /** A length-prefixed field, read back from the front of a buffer. */
  lemma ReadField(field: seq<Byte>, rest: seq<Byte>)
    requires |field| <= 0xffff
    ensures var p := U16(|field|) + field + rest;
            Val16(p) == |field| && p[2..2 + |field|] == field && p[2 + |field|..] == rest
  {
    var p := U16(|field|) + field + rest;
    assert p == U16(|field|) + (field + rest);
    ReadU16(|field|, field + rest);
  }

  lemma {:induction false} AddrsOfOctets(addrs: seq<Addr>)
    requires AllNative(addrs)
    ensures Addrs(Octets(addrs)) == addrs
  {
    if addrs != [] {
      var b := Octets(addrs);
      assert b[..16] == addrs[0].octets && b[16..] == Octets(addrs[1..]);
      AddrsOfOctets(addrs[1..]);
      assert addrs == [addrs[0]] + addrs[1..];
    }
  }

  lemma SvcRoundTrip(svc: seq<Byte>, pad: seq<Byte>)
    requires |svc| <= 0xffff
    ensures ParseSvc(SvcField(svc) + pad) == Ok(svc)
  {
    ReadField(svc, pad);
  }

  lemma AddrsRoundTrip(adn: Name, addrs: seq<Addr>, svc: seq<Byte>, pad: seq<Byte>)
    requires AllNative(addrs) && 16 * |addrs| <= 0xffff && |svc| <= 0xffff
    ensures ParseFromAddrs(AddrField(addrs) + (SvcField(svc) + pad), adn) == Ok(Fields(adn, addrs, svc))
  {
    ReadField(Octets(addrs), SvcField(svc) + pad);
    AddrsOfOctets(addrs);
    SvcRoundTrip(svc, pad);
  }

  lemma AdnRoundTrip(adn: Name, addrs: seq<Addr>, svc: seq<Byte>, pad: seq<Byte>)
    requires adn != []
    requires AllNative(addrs) && 16 * |addrs| <= 0xffff && |svc| <= 0xffff
    ensures ParseFromAdn(AdnField(adn) + (AddrField(addrs) + (SvcField(svc) + pad))) == Ok(Fields(adn, addrs, svc))
  {
    WireLength(adn);
    ReadField(Wire(adn), AddrField(addrs) + (SvcField(svc) + pad));
    NameRoundTrip(adn, []);
    assert Wire(adn) + [] == Wire(adn);
    AddrsRoundTrip(adn, addrs, svc, pad);
  }

  lemma BodyRoundTrip(o: EncryptedDns, pad: seq<Byte>)
    requires Valid(o)
    ensures ParseBody(Body(o) + pad) == Ok(o)
  {
    var fields := AdnField(o.adn) + (AddrField(o.addrs) + (SvcField(o.svcParams) + pad));
    var p := Body(o) + pad;
    assert p == U16(o.priority) + (U32(o.lifetime) + fields);
    ReadU16(o.priority, U32(o.lifetime) + fields);
    ReadU32(o.lifetime, fields);
    assert p[6..] == p[2..][4..];
    AdnRoundTrip(o.adn, o.addrs, o.svcParams, pad);
  }

  /** Decoding what Marshal wrote gives the option back, also from the front of a longer buffer. */
  lemma OptionRoundTrip(o: EncryptedDns, tail: seq<Byte>)
    requires Valid(o)
    ensures Decode(Encode(o) + tail) == Ok(o)
  {
    var b := Encode(o) + tail;
    var pad := Zeros(WireSize(o) - UnpaddedSize(o));
    assert Span(b) == WireSize(o);
    assert b[2..Span(b)] == Body(o) + pad;
    BodyRoundTrip(o, pad);
  }

  // ---------------------------------------------------------------------------
  // What the decoder accepts
  // ---------------------------------------------------------------------------

  /** Every accepted field fits the bytes it came from, the name by its own wire form. */
  lemma ParsedFits(p: seq<Byte>)
    requires ParseBody(p).Ok?
    ensures var o := ParseBody(p).value;
            o.adn != [] && UnpaddedSize(o) - 2 <= |p| && 16 * |o.addrs| <= 0xffff && |o.svcParams| <= 0xffff
  {
    var q := p[6..];
    var n := Val16(q);
    DecodedIsPrefix(q[2..2 + n]);
    WireLength(DecodeFrom(q[2..2 + n], []).value);
  }

  /** The name a body decodes to is spelled, in wire form, at the start of its own field. */
  lemma AdnIsSpelledInField(p: seq<Byte>)
    requires ParseBody(p).Ok?
    ensures Wire(ParseBody(p).value.adn) <= p[8..8 + Val16(p[6..])]
  {
    var q := p[6..];
    DecodedIsPrefix(q[2..2 + Val16(q)]);
    assert q[2..2 + Val16(q)] == p[8..8 + Val16(q)];
  }

  lemma RoundedUpFits(n: nat, units: nat)
    requires n <= 8 * units
    ensures n + (8 - n % 8) % 8 <= 8 * units
  {
  }

  /** A parsed option never outgrows the octets its Length field delimits. */
  lemma ParsedSize(b: seq<Byte>)
    requires HeaderOk(b) && ParseBody(b[2..Span(b)]).Ok?
    ensures WireSize(ParseBody(b[2..Span(b)]).value) <= Span(b)
  {
    var o := ParseBody(b[2..Span(b)]).value;
    ParsedFits(b[2..Span(b)]);
    RoundedUpFits(UnpaddedSize(o), b[1]);
  }

  lemma ParsedAddrsAreV6(p: seq<Byte>)
    requires ParseBody(p).Ok?
    ensures forall a :: a in ParseBody(p).value.addrs ==> a.V6? && a.zone == ""
  {
    var q := p[6..];
    var q' := q[2 + Val16(q)..];
    assert ParseBody(p).value.addrs == Addrs(q'[2..2 + Val16(q')]);
    AddrsAreV6(q'[2..2 + Val16(q')]);
  }

  /** The final check can only ever object to an IPv4-mapped address, never to a size. */
  lemma FinalCheckOnlySeesMapped(b: seq<Byte>)
    requires HeaderOk(b) && ParseBody(b[2..Span(b)]).Ok?
    ensures var o := ParseBody(b[2..Span(b)]).value;
            Decode(b).Ok? <==> forall i :: 0 <= i < |o.addrs| ==> o.addrs[i].V6? && !Mapped(o.addrs[i].octets)
  {
    var p := b[2..Span(b)];
    ParsedFits(p);
    ParsedSize(b);
    ParsedAddrsAreV6(p);
  }

  /** Whatever is accepted re-encodes to no more than its own length and decodes to the same option. */
  lemma AcceptedReencodes(b: seq<Byte>)
    requires Decode(b).Ok?
    ensures var o := Decode(b).value;
            Valid(o) && |Encode(o)| <= Span(b) <= |b| && Decode(Encode(o)) == Ok(o)
  {
    ParsedSize(b);
    var o := Decode(b).value;
    OptionRoundTrip(o, []);
    assert Encode(o) + [] == Encode(o);
  }

  // ---------------------------------------------------------------------------
  // The layout of section 6.1, octet by octet
  // ---------------------------------------------------------------------------

  /** The big-endian 16-bit number at position i. */
  function At16(b: seq<Byte>, i: nat): int
    requires i + 2 <= |b|
  {
    b[i] as int * 256 + b[i + 1] as int
  }

  function At32(b: seq<Byte>, i: nat): int
    requires i + 4 <= |b|
  {
    At16(b, i) * 0x1_0000 + At16(b, i + 2)
  }

  /** An option is encodable exactly when it has a name, native addresses and at most 2040 octets. */
  lemma ValidMeaning(o: EncryptedDns)
    ensures Valid(o) <==>
            && o.adn != []
            && (forall a :: a in o.addrs ==> a.V6? && a.zone == "" && a.octets[..12] != [0, 0, 0, 0, 0, 0, 0, 0, 0, 0, 255, 255])
            && 16 + |o.adn| + 16 * |o.addrs| + |o.svcParams| <= 2040
  {
    forall a | a in o.addrs
      ensures Native(a) <==> a.V6? && a.zone == "" && a.octets[..12] != [0, 0, 0, 0, 0, 0, 0, 0, 0, 0, 255, 255]
    {
      if a.V6? {
        MappedMeaning(a.octets);
      }
    }
    assert AllNative(o.addrs) <==> forall a :: a in o.addrs ==> Native(a);
  }

  lemma MappedMeaning(o: Octets16)
    ensures Mapped(o) <==> o[..12] == [0, 0, 0, 0, 0, 0, 0, 0, 0, 0, 255, 255]
  {
    if Mapped(o) {
      assert o[..12] == [o[0], o[1], o[2], o[3], o[4], o[5], o[6], o[7], o[8], o[9], o[10], o[11]];
    } else if o[..12] == [0, 0, 0, 0, 0, 0, 0, 0, 0, 0, 255, 255] {
      assert forall i :: 0 <= i < 12 ==> o[i] == o[..12][i];
    }
  }

  lemma FieldAt(b: seq<Byte>, pre: seq<Byte>, field: seq<Byte>, post: seq<Byte>)
    requires |field| <= 0xffff && b == pre + (U16(|field|) + field) + post
    ensures At16(b, |pre|) == |field| && b[|pre| + 2..|pre| + 2 + |field|] == field
  {
    assert b[|pre|] == U16(|field|)[0] && b[|pre| + 1] == U16(|field|)[1];
  }

  lemma {:induction false} OctetsAt(addrs: seq<Addr>, i: nat)
    requires AllV6(addrs) && i < |addrs|
    ensures Octets(addrs)[16 * i..16 * i + 16] == addrs[i].octets
  {
    var b, rest := Octets(addrs), Octets(addrs[1..]);
    if i > 0 {
      OctetsAt(addrs[1..], i - 1);
      assert b == addrs[0].octets + rest;
      assert b[16 * i..16 * i + 16] == rest[16 * (i - 1)..16 * (i - 1) + 16];
    }
  }

  lemma HeadLayout(o: EncryptedDns)
    requires Valid(o)
    ensures var b := Encode(o);
            b[0] == 144 && 8 * (b[1] as int) == |b| && At16(b, 2) == o.priority && At32(b, 4) == o.lifetime
  {
    var b := Encode(o);
    var p, l := U16(o.priority), U32(o.lifetime);
    assert Body(o)[..6] == p + l;
    assert b[2..8] == p + l;
    assert b[2] == p[0] && b[3] == p[1] && b[4] == l[0] && b[5] == l[1] && b[6] == l[2] && b[7] == l[3];
  }

  /** The encoding as what lies before, in and behind its three fields. */
  lemma EncodeParts(o: EncryptedDns) returns (head: seq<Byte>, pad: seq<Byte>)
    requires Valid(o)
    ensures |head| == 8 && (forall i :: 0 <= i < |pad| ==> pad[i] == 0)
    ensures Encode(o) == head + AdnField(o.adn) + AddrField(o.addrs) + SvcField(o.svcParams) + pad
  {
    head, pad := Encode(o)[..8], Zeros(WireSize(o) - UnpaddedSize(o));
    FieldsInOrder(o);
  }

  lemma EncodedAdn(o: EncryptedDns)
    requires Valid(o)
    ensures var b, n := Encode(o), |o.adn| + 2;
            10 + n <= |b| && At16(b, 8) == n && b[10..10 + n] == Wire(o.adn)
  {
    var head, pad := EncodeParts(o);
    WireLength(o.adn);
    var rest := AddrField(o.addrs) + SvcField(o.svcParams) + pad;
    assert Encode(o) == head + AdnField(o.adn) + rest;
    FieldAt(Encode(o), head, Wire(o.adn), rest);
  }

  lemma EncodedAddrs(o: EncryptedDns)
    requires Valid(o)
    ensures var b, n, k := Encode(o), |o.adn| + 2, 16 * |o.addrs|;
            12 + n + k <= |b| && At16(b, 10 + n) == k && b[12 + n..12 + n + k] == Octets(o.addrs)
  {
    var head, pad := EncodeParts(o);
    var pre, rest := head + AdnField(o.adn), SvcField(o.svcParams) + pad;
    assert Encode(o) == pre + AddrField(o.addrs) + rest;
    FieldAt(Encode(o), pre, Octets(o.addrs), rest);
  }

  lemma EncodedSvc(o: EncryptedDns)
    requires Valid(o)
    ensures var b, at, v := Encode(o), 14 + |o.adn| + 16 * |o.addrs|, |o.svcParams|;
            && at + 2 + v <= |b| && At16(b, at) == v && b[at + 2..at + 2 + v] == o.svcParams
            && forall i :: at + 2 + v <= i < |b| ==> b[i] == 0
  {
    var head, pad := EncodeParts(o);
    FieldAt(Encode(o), head + AdnField(o.adn) + AddrField(o.addrs), o.svcParams, pad);
  }

  /** Section 6.1: where each part of an encoded option lies, numbers big-endian, zeros behind. */
  lemma EncodeLayout(o: EncryptedDns)
    requires Valid(o)
    ensures var b, n, k, v := Encode(o), |o.adn| + 2, 16 * |o.addrs|, |o.svcParams|;
            && b[0] == 144 && 8 * (b[1] as int) == |b| && At16(b, 2) == o.priority && At32(b, 4) == o.lifetime
            && 14 + n + k + v <= |b|
            && At16(b, 8) == n && b[10..10 + n] == Wire(o.adn)
            && At16(b, 10 + n) == k && b[12 + n..12 + n + k] == Octets(o.addrs)
            && At16(b, 12 + n + k) == v && b[14 + n + k..14 + n + k + v] == o.svcParams
            && forall i :: 14 + n + k + v <= i < |b| ==> b[i] == 0
  {
    HeadLayout(o);
    EncodedAdn(o);
    EncodedAddrs(o);
    EncodedSvc(o);
  }

  /** A field decodes to a name exactly when it starts with that name's wire form. */
  lemma DecodesIff(field: seq<Byte>, name: Name)
    requires name != []
    ensures DecodeFrom(field, []) == Ok(name) <==> Wire(name) <= field
  {
    if DecodeFrom(field, []) == Ok(name) {
      DecodedIsPrefix(field);
    }
    if Wire(name) <= field {
      assert field == Wire(name) + field[|Wire(name)|..];
      NameRoundTrip(name, field[|Wire(name)|..]);
    }
  }

  /** A buffer that starts with a 16-bit length and as many octets, and what follows them. */
  lemma Unprefixed(p: seq<Byte>)
    requires |p| >= 2 && Val16(p) + 2 <= |p|
    ensures p == U16(Val16(p)) + p[2..2 + Val16(p)] + p[2 + Val16(p)..]
  {
    assert U16(Val16(p)) == [p[0], p[1]];
  }

  /** p starts with this field behind its 16-bit length, and goes on with rest. */
  ghost predicate Carries(p: seq<Byte>, field: seq<Byte>, rest: seq<Byte>) {
    |field| <= 0xffff && p == U16(|field|) + field + rest
  }

  /** A buffer carries at most one field and rest, and they are what the length prefix says. */
  lemma CarriesIff(p: seq<Byte>, field: seq<Byte>, rest: seq<Byte>)
    ensures Carries(p, field, rest) <==>
            |p| >= 2 && Val16(p) + 2 <= |p| && field == p[2..2 + Val16(p)] && rest == p[2 + Val16(p)..]
  {
    if Carries(p, field, rest) {
      ReadField(field, rest);
    } else if |p| >= 2 && Val16(p) + 2 <= |p| {
      Unprefixed(p);
    }
  }

  predicate Zoneless(addrs: seq<Addr>)
    ensures Zoneless(addrs) ==> AllV6(addrs)
  {
    forall i :: 0 <= i < |addrs| ==> addrs[i].V6? && addrs[i].zone == ""
  }

  lemma {:induction false} OctetsOfAddrs(p: seq<Byte>)
    requires |p| % 16 == 0
    ensures Zoneless(Addrs(p)) && Octets(Addrs(p)) == p
    decreases |p|
  {
    if p != [] {
      OctetsOfAddrs(p[16..]);
      assert Addrs(p)[1..] == Addrs(p[16..]);
      assert p == p[..16] + p[16..];
    }
  }

  lemma {:induction false} AddrsOfZoneless(addrs: seq<Addr>)
    requires Zoneless(addrs)
    ensures Addrs(Octets(addrs)) == addrs
  {
    if addrs != [] {
      var b := Octets(addrs);
      assert b[..16] == addrs[0].octets && b[16..] == Octets(addrs[1..]);
      AddrsOfZoneless(addrs[1..]);
      assert addrs == [addrs[0]] + addrs[1..];
    }
  }

  /** A field of sixteen octets per address: those addresses, without a zone. */
  ghost predicate SpellsAddrs(field: seq<Byte>, addrs: seq<Addr>) {
    Zoneless(addrs) && field == Octets(addrs)
  }

  lemma AddrsSpelled(field: seq<Byte>)
    requires |field| % 16 == 0
    ensures SpellsAddrs(field, Addrs(field))
  {
    OctetsOfAddrs(field);
  }

  lemma AddrsParsed(field: seq<Byte>, addrs: seq<Addr>)
    requires SpellsAddrs(field, addrs)
    ensures |field| % 16 == 0 && Addrs(field) == addrs
  {
    AddrsOfZoneless(addrs);
  }

  /** The address field and the service parameters, with whatever comes behind. */
  ghost predicate SpellsRest(p: seq<Byte>, f: Fields) {
    exists addrs, rest, pad ::
      Carries(p, addrs, rest) && SpellsAddrs(addrs, f.addrs) && Carries(rest, f.svcParams, pad)
  }

  ghost predicate SpellsFields(p: seq<Byte>, f: Fields) {
    exists adn, rest :: Carries(p, adn, rest) && f.adn != [] && Wire(f.adn) <= adn && SpellsRest(rest, f)
  }

  lemma SvcIff(p: seq<Byte>, svc: seq<Byte>)
    ensures ParseSvc(p) == Ok(svc) <==> exists pad :: Carries(p, svc, pad)
  {
    if ParseSvc(p) == Ok(svc) {
      CarriesIff(p, svc, p[2 + Val16(p)..]);
    } else if pad :| Carries(p, svc, pad) {
      CarriesIff(p, svc, pad);
    }
  }

  lemma RestSpelled(p: seq<Byte>, adn: Name, f: Fields)
    requires ParseFromAddrs(p, adn) == Ok(f)
    ensures f.adn == adn && SpellsRest(p, f)
  {
    var addrs, rest := p[2..2 + Val16(p)], p[2 + Val16(p)..];
    CarriesIff(p, addrs, rest);
    AddrsSpelled(addrs);
    SvcIff(rest, f.svcParams);
  }

  lemma RestParsed(p: seq<Byte>, f: Fields)
    requires SpellsRest(p, f)
    ensures ParseFromAddrs(p, f.adn) == Ok(f)
  {
    var addrs, rest, pad :|
      Carries(p, addrs, rest) && SpellsAddrs(addrs, f.addrs) && Carries(rest, f.svcParams, pad);
    CarriesIff(p, addrs, rest);
    AddrsParsed(addrs, f.addrs);
    SvcIff(rest, f.svcParams);
  }

  lemma FieldsSpelled(p: seq<Byte>, f: Fields)
    requires ParseFromAdn(p) == Ok(f)
    ensures SpellsFields(p, f)
  {
    var adn, rest := p[2..2 + Val16(p)], p[2 + Val16(p)..];
    CarriesIff(p, adn, rest);
    DecodesIff(adn, f.adn);
    RestSpelled(rest, f.adn, f);
  }

  lemma FieldsParsed(p: seq<Byte>, f: Fields)
    requires SpellsFields(p, f)
    ensures ParseFromAdn(p) == Ok(f)
  {
    var adn, rest :| Carries(p, adn, rest) && f.adn != [] && Wire(f.adn) <= adn && SpellsRest(rest, f);
    CarriesIff(p, adn, rest);
    DecodesIff(adn, f.adn);
    RestParsed(rest, f);
  }

  lemma FieldsIff(p: seq<Byte>, f: Fields)
    ensures ParseFromAdn(p) == Ok(f) <==> SpellsFields(p, f)
  {
    if ParseFromAdn(p) == Ok(f) {
      FieldsSpelled(p, f);
    }
    if SpellsFields(p, f) {
      FieldsParsed(p, f);
    }
  }

  /**
    Buffer b reads as option o: type 144 and a length in units of 8 octets that b holds;
    within it priority, lifetime, and three length-prefixed fields, of which the first
    starts with the name's wire form and the second is the addresses, none IPv4-mapped.
  */
  ghost predicate ReadsAs(b: seq<Byte>, o: EncryptedDns) {
    && |b| >= 8 && b[0] == 144 && 8 <= 8 * (b[1] as int) <= |b|
    && At16(b, 2) == o.priority && At32(b, 4) == o.lifetime
    && SpellsFields(b[8..8 * (b[1] as int)], Fields(o.adn, o.addrs, o.svcParams))
    && forall a :: a in o.addrs ==> a.V6? && !Mapped(a.octets)
  }

  lemma HeadAt(b: seq<Byte>, total: nat)
    requires 8 <= total <= |b|
    ensures Val16(b[2..total]) == At16(b, 2) && Val32(b[2..total][2..]) == At32(b, 4)
  {
    var p := b[2..total];
    assert p[0] == b[2] && p[1] == b[3];
    assert p[2..][0] == b[4] && p[2..][1] == b[5] && p[2..][2..][0] == b[6] && p[2..][2..][1] == b[7];
  }

  lemma BodyIff(b: seq<Byte>, o: EncryptedDns)
    requires |b| >= 8 && 8 <= Span(b) <= |b|
    ensures ParseBody(b[2..Span(b)]) == Ok(o) <==>
            && At16(b, 2) == o.priority && At32(b, 4) == o.lifetime
            && SpellsFields(b[8..Span(b)], Fields(o.adn, o.addrs, o.svcParams))
  {
    HeadAt(b, Span(b));
    assert b[2..Span(b)][6..] == b[8..Span(b)];
    FieldsIff(b[8..Span(b)], Fields(o.adn, o.addrs, o.svcParams));
  }

  /** The decoder accepts exactly the buffers that read as an option, and gives that option. */
  lemma AcceptsExactly(b: seq<Byte>, o: EncryptedDns)
    ensures Decode(b) == Ok(o) <==> ReadsAs(b, o)
  {
    if HeaderOk(b) {
      BodyIff(b, o);
      if ParseBody(b[2..Span(b)]) == Ok(o) {
        FinalCheckOnlySeesMapped(b);
        assert forall a :: a in o.addrs ==> a.V6?;
      }
    }
  }
}
