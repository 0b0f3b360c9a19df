/**
  DNS Cookies (RFC 7873) with the version 1 server cookie of RFC 9018: minting, checking,
  and the server's decision. The keyed hash is an arbitrary function to eight octets.
*/
module Cookie {
  import opened Bytes

  type Client = s: seq<Byte> | |s| == 8 witness [0, 0, 0, 0, 0, 0, 0, 0]
  type Hash = s: seq<Byte> | |s| == 8 witness [0, 0, 0, 0, 0, 0, 0, 0]
  type Key = seq<Byte>
  type Keyed = (Key, seq<Byte>) -> Hash

  const MAX_AGE: int := 3600
  const MAX_FUTURE: int := 300
  const VERSION: Byte := 1

  // ---------------------------------------------------------------------------
  // Option lengths and layout
  // ---------------------------------------------------------------------------

  datatype Class = Malformed | ClientOnly | WithServer

  function Classify(optLen: nat): Class {
    if optLen == 8 then ClientOnly
    else if 16 <= optLen <= 40 then WithServer
    else Malformed
  }

  /** Client-IP as hashed: an IPv4-mapped IPv6 address counts as its four IPv4 octets. */
  function AddrBytes(ip: seq<Byte>): seq<Byte> {
    if |ip| == 16 && ip[..12] == [0, 0, 0, 0, 0, 0, 0, 0, 0, 0, 255, 255] then ip[12..] else ip
  }

  /** Client Cookie | Version | Reserved | Timestamp | Client-IP. */
  function HashInput(client: Client, version: Byte, reserved: seq<Byte>, ts: uint32, ip: seq<Byte>): seq<Byte>
    requires |reserved| == 3
  {
    client + [version] + reserved + U32(ts) + ip
  }

  /** Everything before the address has a fixed width, so no two inputs collide. */
  lemma HashInputInjective(c1: Client, v1: Byte, r1: seq<Byte>, t1: uint32, ip1: seq<Byte>,
                           c2: Client, v2: Byte, r2: seq<Byte>, t2: uint32, ip2: seq<Byte>)
    requires |r1| == 3 && |r2| == 3
    requires HashInput(c1, v1, r1, t1, ip1) == HashInput(c2, v2, r2, t2, ip2)
    ensures c1 == c2 && v1 == v2 && r1 == r2 && t1 == t2 && ip1 == ip2
  {
    var a, b := HashInput(c1, v1, r1, t1, ip1), HashInput(c2, v2, r2, t2, ip2);
    assert a[..8] == c1 && a[8] == v1 && a[9..12] == r1 && a[12..16] == U32(t1) && a[16..] == ip1;
    assert b[..8] == c2 && b[8] == v2 && b[9..12] == r2 && b[12..16] == U32(t2) && b[16..] == ip2;
    Val32OfU32(t1);
    Val32OfU32(t2);
  }

  function ServerCookie(hash: Keyed, secret: Key, client: Client, ts: uint32, ip: seq<Byte>): (s: seq<Byte>)
    ensures |s| == 16
  {
    [VERSION, 0, 0, 0] + U32(ts) + hash(secret, HashInput(client, VERSION, [0, 0, 0], ts, AddrBytes(ip)))
  }

  /** IPv4-mapped IPv6 addresses count as IPv4; every other address as it is. */
  lemma AddrBytesMeaning(ip: seq<Byte>, v4: seq<Byte>)
    ensures |v4| == 4 && ip == [0, 0, 0, 0, 0, 0, 0, 0, 0, 0, 255, 255] + v4 ==> AddrBytes(ip) == v4
    ensures |ip| == 4 ==> AddrBytes(ip) == ip
    ensures |ip| == 16 && ip[..12] != [0, 0, 0, 0, 0, 0, 0, 0, 0, 0, 255, 255] ==> AddrBytes(ip) == ip
  {
    if |v4| == 4 && ip == [0, 0, 0, 0, 0, 0, 0, 0, 0, 0, 255, 255] + v4 {
      assert ip[..12] == [0, 0, 0, 0, 0, 0, 0, 0, 0, 0, 255, 255] && ip[12..] == v4;
    }
  }

  /** RFC 9018 sections 4.2 to 4.4, octet by octet: what is hashed, and what is handed out. */
  lemma CookieLayout(hash: Keyed, secret: Key, client: Client, ts: uint32, ip: seq<Byte>)
    ensures var input := HashInput(client, VERSION, [0, 0, 0], ts, AddrBytes(ip));
            && |input| == 16 + |AddrBytes(ip)| && input[..8] == client && input[8..12] == [1, 0, 0, 0]
            && ((input[12] as int * 256 + input[13] as int) * 256 + input[14] as int) * 256 + input[15] as int == ts
            && input[16..] == AddrBytes(ip)
    ensures var s := ServerCookie(hash, secret, client, ts, ip);
            && |s| == 16 && s[..4] == [1, 0, 0, 0]
            && ((s[4] as int * 256 + s[5] as int) * 256 + s[6] as int) * 256 + s[7] as int == ts
            && s[8..] == hash(secret, HashInput(client, VERSION, [0, 0, 0], ts, AddrBytes(ip)))
  {
    BigEndian(ts);
    var b := U32(ts);
    var input := HashInput(client, VERSION, [0, 0, 0], ts, AddrBytes(ip));
    assert input[12] == b[0] && input[13] == b[1] && input[14] == b[2] && input[15] == b[3];
    var s := ServerCookie(hash, secret, client, ts, ip);
    assert s[4] == b[0] && s[5] == b[1] && s[6] == b[2] && s[7] == b[3];
  }

  // ---------------------------------------------------------------------------
  // The window, in serial number arithmetic
  // ---------------------------------------------------------------------------

  function Stamp(time: int): uint32 {
    time % 0x1_0000_0000
  }

  predicate InWindow(now: uint32, ts: uint32) {
    var age := (now - ts) % 0x1_0000_0000;
    age <= MAX_AGE || age >= 0x1_0000_0000 - MAX_FUTURE
  }

  lemma SmallMod(d: int)
    requires -0x1_0000_0000 < d < 0x1_0000_0000
    ensures d % 0x1_0000_0000 == if d >= 0 then d else d + 0x1_0000_0000
  {
  }

  /**
    On 32-bit stamps the test means what it means on the real times, across any wrap, as
    long as the two are less than a whole turn (less the window) apart.
  */
  lemma WindowAcrossWrap(now: int, issued: int)
    requires MAX_AGE - 0x1_0000_0000 < now - issued < 0x1_0000_0000 - MAX_FUTURE
    ensures InWindow(Stamp(now), Stamp(issued)) <==> -300 <= now - issued <= 3600
  {
    var turns := issued / 0x1_0000_0000 - now / 0x1_0000_0000;
    assert Stamp(now) - Stamp(issued) == now - issued + turns * 0x1_0000_0000;
    assert -1 <= turns <= 1;
    SmallMod(Stamp(now) - Stamp(issued));
  }

  // ---------------------------------------------------------------------------
  // Verification
  // ---------------------------------------------------------------------------

  /** Reserved is hashed as received, not required to be zero. */
  predicate Verify(hash: Keyed, secret: Key, client: Client, server: seq<Byte>, ip: seq<Byte>, now: uint32) {
    && |server| == 16 && server[0] == VERSION
    && InWindow(now, Val32(server[4..8]))
    && hash(secret, HashInput(client, server[0], server[1..4], Val32(server[4..8]), AddrBytes(ip))) == server[8..]
  }

  /** A server cookie of version 1 stamped ts, its reserved octets and hash as given. */
  function Stamped(reserved: seq<Byte>, ts: uint32, h: Hash): seq<Byte> {
    [1] + reserved + U32(ts) + h
  }

  /**
    Exactly the cookies that verify: version 1, any reserved octets, a stamp inside the
    window, and the hash of client, version, those octets, the stamp and the address.
  */
  lemma VerifiesExactly(hash: Keyed, secret: Key, client: Client, server: seq<Byte>, ip: seq<Byte>, now: uint32)
    ensures Verify(hash, secret, client, server, ip, now) <==>
            exists reserved: seq<Byte>, ts: uint32 ::
              && |reserved| == 3 && InWindow(now, ts)
              && server == Stamped(reserved, ts, hash(secret, client + [1] + reserved + U32(ts) + AddrBytes(ip)))
  {
    if Verify(hash, secret, client, server, ip, now) {
      var reserved, ts := server[1..4], Val32(server[4..8]);
      U32OfVal32(server[4..8]);
      assert server == [server[0]] + server[1..4] + server[4..8] + server[8..];
      assert server == Stamped(reserved, ts, hash(secret, client + [1] + reserved + U32(ts) + AddrBytes(ip)));
    }
    if reserved: seq<Byte>, ts: uint32 :|
         && |reserved| == 3 && InWindow(now, ts)
         && server == Stamped(reserved, ts, hash(secret, client + [1] + reserved + U32(ts) + AddrBytes(ip))) {
      StampedParts(reserved, ts, hash(secret, client + [1] + reserved + U32(ts) + AddrBytes(ip)));
    }
  }

  lemma StampedParts(reserved: seq<Byte>, ts: uint32, h: Hash)
    requires |reserved| == 3
    ensures var s := Stamped(reserved, ts, h);
            |s| == 16 && s[0] == 1 && s[1..4] == reserved && s[4..8] == U32(ts) && Val32(s[4..8]) == ts && s[8..] == h
  {
    Val32OfU32(ts);
    var s := Stamped(reserved, ts, h);
    assert s[4..8] == U32(ts);
  }

  lemma U32OfVal32(b: seq<Byte>)
    requires |b| == 4
    ensures U32(Val32(b)) == b
  {
    var hi, lo := Val16(b), Val16(b[2..]);
    assert Val32(b) / 0x1_0000 == hi && Val32(b) % 0x1_0000 == lo;
    assert U16(hi) == [b[0], b[1]] && U16(lo) == [b[2], b[3]];
  }

  /** Under its own secret, client and address, a minted cookie verifies exactly inside the window. */
  lemma MintVerifies(hash: Keyed, secret: Key, client: Client, ts: uint32, ip: seq<Byte>, now: uint32)
    ensures Verify(hash, secret, client, ServerCookie(hash, secret, client, ts, ip), ip, now) <==> InWindow(now, ts)
  {
    var s := ServerCookie(hash, secret, client, ts, ip);
    assert s[1..4] == [0, 0, 0] && s[4..8] == U32(ts);
    assert s[8..] == hash(secret, HashInput(client, VERSION, [0, 0, 0], ts, AddrBytes(ip)));
    Val32OfU32(ts);
  }

  /** What is hashed into a cookie minted at ts. */
  function MintInput(client: Client, ts: uint32, ip: seq<Byte>): seq<Byte> {
    HashInput(client, VERSION, [0, 0, 0], ts, AddrBytes(ip))
  }

  /**
    A minted cookie verifies for another secret, client or address only through a collision
    of the hash on the two inputs, which differ unless everything but the secret agrees.
  */
  lemma MintBinds(hash: Keyed, secret: Key, client: Client, ts: uint32, ip: seq<Byte>,
                  secret': Key, client': Client, ip': seq<Byte>, now: uint32)
    requires Verify(hash, secret', client', ServerCookie(hash, secret, client, ts, ip), ip', now)
    ensures hash(secret', MintInput(client', ts, ip')) == hash(secret, MintInput(client, ts, ip))
    ensures MintInput(client', ts, ip') == MintInput(client, ts, ip) <==> client' == client && AddrBytes(ip') == AddrBytes(ip)
  {
    var s := ServerCookie(hash, secret, client, ts, ip);
    assert s[1..4] == [0, 0, 0] && s[4..8] == U32(ts);
    Val32OfU32(ts);
    assert s[8..] == hash(secret, MintInput(client, ts, ip));
    if MintInput(client', ts, ip') == MintInput(client, ts, ip) {
      HashInputInjective(client, VERSION, [0, 0, 0], ts, AddrBytes(ip), client', VERSION, [0, 0, 0], ts, AddrBytes(ip'));
    }
  }

  datatype Secrets = Secrets(generate: Key, verifyOnly: seq<Key>)
  datatype Status = NoCookie | BadLength | Bare | Invalid | Current | Previous {
    predicate Validated() {
      Current? || Previous?
    }
  }

  function Check(hash: Keyed, s: Secrets, client: Client, server: seq<Byte>, ip: seq<Byte>, now: uint32): Status {
    if Verify(hash, s.generate, client, server, ip, now) then Current
    else if exists k :: k in s.verifyOnly && Verify(hash, k, client, server, ip, now) then Previous
    else Invalid
  }

  method CheckSecrets(hash: Keyed, s: Secrets, client: Client, server: seq<Byte>, ip: seq<Byte>, now: uint32)
    returns (status: Status)
    ensures status == Check(hash, s, client, server, ip, now)
  {
    if Verify(hash, s.generate, client, server, ip, now) {
      return Current;
    }
    var i := 0;
    while i < |s.verifyOnly|
      invariant 0 <= i <= |s.verifyOnly|
      invariant forall j :: 0 <= j < i ==> !Verify(hash, s.verifyOnly[j], client, server, ip, now)
    {
      if Verify(hash, s.verifyOnly[i], client, server, ip, now) {
        assert s.verifyOnly[i] in s.verifyOnly;
        return Previous;
      }
      i := i + 1;
    }
    return Invalid;
  }

  predicate Holds(s: Secrets, k: Key) {
    s.generate == k || k in s.verifyOnly
  }

  lemma CheckMeaning(hash: Keyed, s: Secrets, client: Client, server: seq<Byte>, ip: seq<Byte>, now: uint32)
    ensures Check(hash, s, client, server, ip, now).Validated()
            <==> exists k :: Holds(s, k) && Verify(hash, k, client, server, ip, now)
  {
    if Check(hash, s, client, server, ip, now).Current? {
      assert Holds(s, s.generate);
    } else if k :| k in s.verifyOnly && Verify(hash, k, client, server, ip, now) {
      assert Holds(s, k);
    }
  }

  /** A server that holds the minting secret, in either role, accepts the cookie within its window. */
  lemma HolderAccepts(hash: Keyed, s: Secrets, k: Key, client: Client, ts: uint32, ip: seq<Byte>, now: uint32)
    requires Holds(s, k) && InWindow(now, ts)
    ensures Check(hash, s, client, ServerCookie(hash, k, client, ts, ip), ip, now).Validated()
  {
    MintVerifies(hash, k, client, ts, ip, now);
  }

  // ---------------------------------------------------------------------------
  // A request and its answer
  // ---------------------------------------------------------------------------

  /** EDNS options of a message; only the cookie ones matter here. */
  datatype Opt = CookieOpt(data: seq<Byte>) | OtherOpt(code: int, payload: seq<Byte>)

  datatype Mode = Permissive | Enforce

  /** Only the first cookie option of a request counts. */
  function FirstCookie(opts: seq<Opt>): seq<Opt> {
    if opts == [] then [] else if opts[0].CookieOpt? then [opts[0]] else FirstCookie(opts[1..])
  }

  /** An address that could not be parsed is empty, and no server cookie verifies without one. */
  function Inspect(hash: Keyed, s: Secrets, opts: seq<Opt>, ip: seq<Byte>, now: uint32): Status {
    var first := FirstCookie(opts);
    if first == [] || !first[0].CookieOpt? then NoCookie
    else
      var data := first[0].data;
      match Classify(|data|)
      case Malformed => BadLength
      case ClientOnly => Bare
      case WithServer => if ip == [] then Invalid else Check(hash, s, data[..8], data[8..], ip, now)
  }

  datatype Decision = PassOn | FormErr | BadCookie | Serve

  function Decide(st: Status, mode: Mode, udp: bool): Decision {
    if st.NoCookie? then PassOn
    else if st.BadLength? then FormErr
    else if !st.Validated() && mode.Enforce? && udp then BadCookie
    else Serve
  }

  /** The option every answer carries: the client's half and a fresh server half. */
  function Fresh(hash: Keyed, s: Secrets, client: Client, ip: seq<Byte>, now: uint32): Opt {
    CookieOpt(client + ServerCookie(hash, s.generate, client, now, ip))
  }

  /**
    A client told BADCOOKIE that retries with the cookie from the refusal, from the same
    address and within the hour, is served, by any server that still holds the secret.
  */
  lemma RetryIsServed(hash: Keyed, refuser: Secrets, other: Secrets, client: Client, ip: seq<Byte>,
                      refused: int, retried: int, opts: seq<Opt>, mode: Mode, udp: bool)
    requires ip != [] && 0 <= retried - refused <= MAX_AGE && Holds(other, refuser.generate)
    requires FirstCookie(opts) == [Fresh(hash, refuser, client, ip, Stamp(refused))]
    ensures Decide(Inspect(hash, other, opts, ip, Stamp(retried)), mode, udp) == Serve
  {
    var server := ServerCookie(hash, refuser.generate, client, Stamp(refused), ip);
    var data := client + server;
    assert data[..8] == client && data[8..] == server;
    WindowAcrossWrap(retried, refused);
    HolderAccepts(hash, other, refuser.generate, client, Stamp(refused), ip, Stamp(retried));
  }

  /** The cookie a server hands out is the client's half and one it takes back as current. */
  lemma FreshIsCurrent(hash: Keyed, s: Secrets, client: Client, ip: seq<Byte>, now: uint32)
    requires ip != []
    ensures var o := Fresh(hash, s, client, ip, now);
            o.CookieOpt? && |o.data| == 24 && o.data[..8] == client && Inspect(hash, s, [o], ip, now) == Current
  {
    var o := Fresh(hash, s, client, ip, now);
    var server := ServerCookie(hash, s.generate, client, now, ip);
    assert o.data[..8] == client && o.data[8..] == server;
    MintVerifies(hash, s.generate, client, now, ip, now);
  }

  /** The first cookie option in the list, if there is one. */
  lemma {:induction false} FirstCookieMeaning(opts: seq<Opt>)
    ensures FirstCookie(opts) == [] <==> forall o :: o in opts ==> !o.CookieOpt?
    ensures FirstCookie(opts) != [] ==>
              exists i :: 0 <= i < |opts| && FirstCookie(opts) == [opts[i]] && opts[i].CookieOpt?
                          && forall j :: 0 <= j < i ==> !opts[j].CookieOpt?
  {
    if opts != [] && !opts[0].CookieOpt? {
      FirstCookieMeaning(opts[1..]);
      assert opts == [opts[0]] + opts[1..];
      if FirstCookie(opts) != [] {
        var i :| 0 <= i < |opts[1..]| && FirstCookie(opts) == [opts[1..][i]] && opts[1..][i].CookieOpt?
                 && forall j :: 0 <= j < i ==> !opts[1..][j].CookieOpt?;
        assert opts[i + 1] == opts[1..][i];
        assert forall j :: 0 < j < i + 1 ==> opts[j] == opts[1..][j - 1];
      }
    }
  }

  /** The answer for each length of the first cookie: none is ignored, a wrong length is FORMERR. */
  lemma AnswerByLength(hash: Keyed, s: Secrets, opts: seq<Opt>, ip: seq<Byte>, now: uint32, mode: Mode, udp: bool)
    ensures var answer, first := Decide(Inspect(hash, s, opts, ip, now), mode, udp), FirstCookie(opts);
            && (first == [] ==> answer == PassOn)
            && (first != [] && first[0].CookieOpt? ==>
                  var n := |first[0].data|;
                  && (n < 8 || 8 < n < 16 || 40 < n ==> answer == FormErr)
                  && (n == 8 || 16 <= n <= 40 ==> answer in {BadCookie, Serve})
                  && (!udp || mode.Permissive? ==> answer != BadCookie))
  {
  }

  /** A request whose first cookie option some held secret vouches for, from a known address. */
  ghost predicate Vouched(hash: Keyed, s: Secrets, data: seq<Byte>, ip: seq<Byte>, now: uint32) {
    16 <= |data| && ip != [] && exists k :: Holds(s, k) && Verify(hash, k, data[..8], data[8..], ip, now)
  }

  /**
    BADCOOKIE, from the request itself: exactly over UDP in enforce mode, when a cookie of
    acceptable length is present and no held secret vouches for it.
  */
  lemma RefusedExactly(hash: Keyed, s: Secrets, opts: seq<Opt>, ip: seq<Byte>, now: uint32, mode: Mode, udp: bool)
    ensures Decide(Inspect(hash, s, opts, ip, now), mode, udp) == BadCookie <==>
            && udp && mode.Enforce?
            && FirstCookie(opts) != [] && FirstCookie(opts)[0].CookieOpt?
            && (var data := FirstCookie(opts)[0].data;
                (|data| == 8 || 16 <= |data| <= 40) && !Vouched(hash, s, data, ip, now))
  {
    var first := FirstCookie(opts);
    if first != [] && first[0].CookieOpt? && 16 <= |first[0].data| {
      CheckMeaning(hash, s, first[0].data[..8], first[0].data[8..], ip, now);
    }
  }

  // ---------------------------------------------------------------------------
  // The response's option list
  // ---------------------------------------------------------------------------

  function WithoutCookies(opts: seq<Opt>): seq<Opt> {
    if opts == [] then []
    else WithoutCookies(opts[..|opts| - 1]) + (if opts[|opts| - 1].CookieOpt? then [] else [opts[|opts| - 1]])
  }

  /** Drops whatever cookie the answer already carried and appends ours. */
  method WriteOptions(opts: seq<Opt>, ours: Opt) returns (out: seq<Opt>)
    ensures out == WithoutCookies(opts) + [ours]
  {
    out := [];
    var i := 0;
    while i < |opts|
      invariant 0 <= i <= |opts|
      invariant out == WithoutCookies(opts[..i])
    {
      assert opts[..i + 1][..i] == opts[..i];
      if !opts[i].CookieOpt? {
        out := out + [opts[i]];
      }
      i := i + 1;
    }
    assert opts[..i] == opts;
    out := out + [ours];
  }

  /** So the answer carries exactly one cookie option, ours, and keeps every other option. */
  lemma {:induction false} ExactlyOneCookie(opts: seq<Opt>, ours: Opt)
    requires ours.CookieOpt?
    ensures FirstCookie(WithoutCookies(opts) + [ours]) == [ours]
    ensures forall o: Opt :: o.OtherOpt? ==> multiset(WithoutCookies(opts))[o] == multiset(opts)[o]
    ensures forall o :: o in WithoutCookies(opts) ==> o.OtherOpt?
    decreases |opts|
  {
    if opts != [] {
      var init, last := opts[..|opts| - 1], opts[|opts| - 1];
      ExactlyOneCookie(init, ours);
      assert opts == init + [last];
    }
    NoneFirst(WithoutCookies(opts), ours);
  }

  lemma {:induction false} NoneFirst(opts: seq<Opt>, ours: Opt)
    requires ours.CookieOpt?
    requires forall o :: o in opts ==> o.OtherOpt?
    ensures FirstCookie(opts + [ours]) == [ours]
  {
    if opts != [] {
      assert opts[0] in opts && (opts + [ours])[1..] == opts[1..] + [ours];
      NoneFirst(opts[1..], ours);
    }
  }
}
