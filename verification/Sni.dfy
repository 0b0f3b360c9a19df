/**
  Certificate selection by server name: the store built from the configured pairs, its
  suffix index for wildcards, and what a handshake gets (RFC 9525 section 6.3).
*/
module Sni {
  import opened Wrappers
  import opened Names

  /** A certificate with the DNS names it presents. */
  datatype Cert = Cert(id: nat, dnsNames: seq<string>)

  /** A cert/key pair on disk: loadable, absent, or present but broken. */
  datatype Load = Loaded(cert: Cert) | Missing | Broken

  datatype NoSni = AsUnmatched | Refuse | Fallback | OwnCert

  // ---------------------------------------------------------------------------
  // Presented names
  // ---------------------------------------------------------------------------

  function Count(s: string, c: char): (n: nat)
    ensures n == 0 <==> c !in s
  {
    if s == "" then 0
    else
      assert s == [s[0]] + s[1..];
      (if s[0] == c then 1 else 0) + Count(s[1..], c)
  }

  /** A wildcard is the complete left-most label, and the only one; other names have none. */
  predicate ValidPresented(name: string) {
    match Count(name, '*')
    case 0 => true
    case 1 => "*." <= name && |name| > 2
    case _ => false
  }

  /** The key a certificate is filed under for one of its names. */
  predicate Usable(c: Cert, key: string) {
    exists n :: n in c.dnsNames && ValidPresented(n) && Fold(n) == key
  }

  /** The usable names, folded, in order. */
  method UsableNames(c: Cert) returns (names: seq<string>)
    ensures forall k :: k in names <==> Usable(c, k)
  {
    names := [];
    var i := 0;
    while i < |c.dnsNames|
      invariant 0 <= i <= |c.dnsNames|
      invariant forall k :: k in names <==> exists j :: 0 <= j < i && ValidPresented(c.dnsNames[j]) && Fold(c.dnsNames[j]) == k
    {
      if ValidPresented(c.dnsNames[i]) {
        var folded := LowerAscii(c.dnsNames[i]);
        names := names + [folded];
      }
      i := i + 1;
    }
  }

  // ---------------------------------------------------------------------------
  // The store
  // ---------------------------------------------------------------------------

  datatype Store = Store(
    byName: map<string, Cert>,
    bySuffix: map<string, Cert>,
    fallback: Option<Cert>,
    ownCert: Option<Cert>,
    noSni: NoSni,
    strict: bool)

  /** The last pair, in configuration order, whose certificate carries the name. */
  ghost function LastWith(loads: seq<Load>, key: string): Option<Cert> {
    if loads == [] then None
    else
      var l := loads[|loads| - 1];
      if l.Loaded? && Usable(l.cert, key) then Some(l.cert) else LastWith(loads[..|loads| - 1], key)
  }

  function Get(m: map<string, Cert>, k: string): Option<Cert> {
    if k in m then Some(m[k]) else None
  }

  /** Both indexes say, for every key, which pair was filed under it last. */
  ghost predicate Filed(byName: map<string, Cert>, bySuffix: map<string, Cert>, loads: seq<Load>) {
    (forall k :: Get(byName, k) == LastWith(loads, k))
    && (forall x :: Get(bySuffix, x) == LastWith(loads, "*" + x))
  }

  ghost predicate Indexes(s: Store, loads: seq<Load>) {
    Filed(s.byName, s.bySuffix, loads)
  }

  ghost predicate FirstLoaded(loads: seq<Load>, c: Option<Cert>) {
    match c
    case None => forall i :: 0 <= i < |loads| ==> !loads[i].Loaded?
    case Some(cert) =>
      exists i :: 0 <= i < |loads| && loads[i] == Loaded(cert) && forall j :: 0 <= j < i ==> !loads[j].Loaded?
  }

  /** Present but broken: unreadable, or without one usable DNS name. */
  ghost predicate Fatal(l: Load) {
    l.Broken? || (l.Loaded? && forall k :: !Usable(l.cert, k))
  }

  /** An index with `cert` filed over it under `names`. */
  ghost predicate FiledOver(before: map<string, Cert>, after: map<string, Cert>, cert: Cert, names: seq<string>) {
    forall k :: Get(after, k) == if k in names then Some(cert) else Get(before, k)
  }

  ghost predicate SuffixFiledOver(before: map<string, Cert>, after: map<string, Cert>, cert: Cert, names: seq<string>) {
    forall x :: Get(after, x) == if "*" + x in names then Some(cert) else Get(before, x)
  }

  lemma FileOne(before: map<string, Cert>, after: map<string, Cert>, cert: Cert, names: seq<string>, name: string)
    requires FiledOver(before, after, cert, names)
    ensures FiledOver(before, after[name := cert], cert, names + [name])
  {
  }

  lemma FileOneSuffix(before: map<string, Cert>, after: map<string, Cert>, cert: Cert, names: seq<string>, name: string)
    requires SuffixFiledOver(before, after, cert, names)
    ensures if name != "" && name[0] == '*' then SuffixFiledOver(before, after[name[1..] := cert], cert, names + [name])
            else SuffixFiledOver(before, after, cert, names + [name])
  {
    forall x
      ensures "*" + x == name <==> name != "" && name[0] == '*' && x == name[1..]
    {
      assert ("*" + x)[1..] == x;
      assert name != "" && name[0] == '*' ==> "*" + name[1..] == name;
    }
  }

  /** Files one certificate under each of its names, wildcards also by suffix. */
  method File(byName: map<string, Cert>, bySuffix: map<string, Cert>, cert: Cert, names: seq<string>)
    returns (byName': map<string, Cert>, bySuffix': map<string, Cert>)
    ensures FiledOver(byName, byName', cert, names) && SuffixFiledOver(bySuffix, bySuffix', cert, names)
  {
    byName', bySuffix' := byName, bySuffix;
    var i := 0;
    while i < |names|
      invariant 0 <= i <= |names|
      invariant FiledOver(byName, byName', cert, names[..i]) && SuffixFiledOver(bySuffix, bySuffix', cert, names[..i])
    {
      var name := names[i];
      assert names[..i + 1] == names[..i] + [name];
      FileOne(byName, byName', cert, names[..i], name);
      FileOneSuffix(bySuffix, bySuffix', cert, names[..i], name);
      byName' := byName'[name := cert];
      if name != "" && name[0] == '*' {
        bySuffix' := bySuffix'[name[1..] := cert];
      }
      i := i + 1;
    }
    assert names[..i] == names;
  }

  lemma LastWithStep(loads: seq<Load>, i: nat, key: string)
    requires i < |loads|
    ensures LastWith(loads[..i + 1], key)
            == if loads[i].Loaded? && Usable(loads[i].cert, key) then Some(loads[i].cert) else LastWith(loads[..i], key)
  {
    assert loads[..i + 1][..i] == loads[..i];
  }

  lemma FiledStep(byName: map<string, Cert>, bySuffix: map<string, Cert>, byName': map<string, Cert>,
                  bySuffix': map<string, Cert>, loads: seq<Load>, i: nat, names: seq<string>)
    requires i < |loads| && loads[i].Loaded? && Filed(byName, bySuffix, loads[..i])
    requires forall k :: k in names <==> Usable(loads[i].cert, k)
    requires FiledOver(byName, byName', loads[i].cert, names) && SuffixFiledOver(bySuffix, bySuffix', loads[i].cert, names)
    ensures Filed(byName', bySuffix', loads[..i + 1])
  {
    forall k
      ensures Get(byName', k) == LastWith(loads[..i + 1], k)
    {
      LastWithStep(loads, i, k);
    }
    forall x
      ensures Get(bySuffix', x) == LastWith(loads[..i + 1], "*" + x)
    {
      LastWithStep(loads, i, "*" + x);
    }
  }

  lemma SkipStep(byName: map<string, Cert>, bySuffix: map<string, Cert>, loads: seq<Load>, i: nat)
    requires i < |loads| && !loads[i].Loaded? && Filed(byName, bySuffix, loads[..i])
    ensures Filed(byName, bySuffix, loads[..i + 1])
  {
    assert loads[..i + 1][..i] == loads[..i];
  }

  lemma FirstLoadedStep(loads: seq<Load>, i: nat, c: Option<Cert>)
    requires i < |loads| && FirstLoaded(loads[..i], c)
    ensures FirstLoaded(loads[..i + 1], if c.None? && loads[i].Loaded? then Some(loads[i].cert) else c)
  {
    var more := loads[..i + 1];
    assert more[i] == loads[i] && forall j :: 0 <= j < i ==> more[j] == loads[..i][j];
  }

  /** A certificate without one usable DNS name counts as broken. */
  method LoadCert(l: Load) returns (fatal: bool, names: seq<string>)
    ensures fatal <==> Fatal(l)
    ensures l.Loaded? ==> forall k :: k in names <==> Usable(l.cert, k)
  {
    names := [];
    if !l.Loaded? {
      return l.Broken?, [];
    }
    names := UsableNames(l.cert);
    fatal := names == [];
    assert !fatal ==> Usable(l.cert, names[0]);
  }

  /** One pair: skipped, refused, or filed over what the pairs before it left. */
  method FileLoad(byName: map<string, Cert>, bySuffix: map<string, Cert>, loads: seq<Load>, i: nat)
    returns (fatal: bool, byName': map<string, Cert>, bySuffix': map<string, Cert>)
    requires i < |loads| && Filed(byName, bySuffix, loads[..i])
    ensures fatal <==> Fatal(loads[i])
    ensures !fatal ==> Filed(byName', bySuffix', loads[..i + 1])
  {
    byName', bySuffix' := byName, bySuffix;
    var l := loads[i];
    var names;
    fatal, names := LoadCert(l);
    if fatal {
      return;
    }
    if l.Loaded? {
      byName', bySuffix' := File(byName, bySuffix, l.cert, names);
      FiledStep(byName, bySuffix, byName', bySuffix', loads, i, names);
    } else {
      SkipStep(byName, bySuffix, loads, i);
    }
  }

  /** Files every loadable pair; stops at the first one that is present but broken. */
  method LoadPairs(loads: seq<Load>)
    returns (ok: bool, byName: map<string, Cert>, bySuffix: map<string, Cert>, fallback: Option<Cert>)
    ensures ok <==> forall i :: 0 <= i < |loads| ==> !Fatal(loads[i])
    ensures ok ==> Filed(byName, bySuffix, loads) && FirstLoaded(loads, fallback)
  {
    ok, byName, bySuffix, fallback := true, map[], map[], None;
    var i := 0;
    while i < |loads|
      invariant 0 <= i <= |loads| && ok
      invariant Filed(byName, bySuffix, loads[..i]) && FirstLoaded(loads[..i], fallback)
      invariant forall j :: 0 <= j < i ==> !Fatal(loads[j])
    {
      var fatal;
      fatal, byName, bySuffix := FileLoad(byName, bySuffix, loads, i);
      if fatal {
        ok := false;
        return;
      }
      FirstLoadedStep(loads, i, fallback);
      if fallback.None? && loads[i].Loaded? {
        fallback := Some(loads[i].cert);
      }
      i := i + 1;
    }
    assert loads[..i] == loads;
  }

  /** What the builder hands over. */
  ghost predicate Built(s: Store, loads: seq<Load>, own: Load, noSni: NoSni, strict: bool) {
    && Indexes(s, loads) && FirstLoaded(loads, s.fallback) && s.noSni == noSni && s.strict == strict
    && s.ownCert == (if noSni.OwnCert? && own.Loaded? then Some(own.cert) else None)
  }

  /**
    Loads the pairs in order. A missing pair is skipped; a broken one is fatal, and so is a
    configuration where every pair is missing, or a broken certificate for absent SNI.
  */
  method BuildCertStore(loads: seq<Load>, own: Load, noSni: NoSni, strict: bool) returns (r: Option<Store>)
    ensures r.None? <==> (exists i :: 0 <= i < |loads| && Fatal(loads[i]))
                         || (loads != [] && forall i :: 0 <= i < |loads| ==> loads[i].Missing?)
                         || (noSni.OwnCert? && own.Broken?)
    ensures r.Some? ==> Built(r.value, loads, own, noSni, strict)
  {
    var ok, byName, bySuffix, fallback := LoadPairs(loads);
    if !ok {
      return None;
    }
    assert forall i :: 0 <= i < |loads| ==> !Fatal(loads[i]) && !loads[i].Broken?;
    if fallback.None? && |loads| > 0 {
      assert forall i :: 0 <= i < |loads| ==> !loads[i].Loaded? && loads[i].Missing?;
      return None;
    }
    if noSni.OwnCert? && own.Broken? {
      return None;
    }
    var ownCert := if noSni.OwnCert? && own.Loaded? then Some(own.cert) else None;
    return Some(Store(byName, bySuffix, fallback, ownCert, noSni, strict));
  }

  // ---------------------------------------------------------------------------
  // Lookup
  // ---------------------------------------------------------------------------

  /** The name with its first label replaced by a star; a bare or empty first label has no such form. */
  function WildcardOf(name: string): Option<string> {
    var i := IndexByte(name, '.');
    if i == |name| || i == 0 then None else Some("*" + name[i..])
  }

  /** Lookup by the constructed key, as a store without the suffix index does it. */
  function WildcardByName(s: Store, name: string): Option<Cert> {
    var w := WildcardOf(name);
    if w.None? then None else Get(s.byName, w.value)
  }

  /** Lookup by slicing the name, without building the key. */
  function WildcardBySuffix(s: Store, name: string): Option<Cert> {
    var i := IndexByte(name, '.');
    if i == |name| || i == 0 then None else Get(s.bySuffix, name[i..])
  }

  /** In every store the builder yields, the suffix index answers exactly like the constructed key. */
  lemma SuffixIndexAgrees(s: Store, loads: seq<Load>, name: string)
    requires Indexes(s, loads)
    ensures WildcardBySuffix(s, name) == WildcardByName(s, name)
  {
    var i := IndexByte(name, '.');
    if 0 < i < |name| {
      assert Get(s.bySuffix, name[i..]) == LastWith(loads, "*" + name[i..]);
      assert Get(s.byName, "*" + name[i..]) == LastWith(loads, "*" + name[i..]);
    }
  }

  /** None stands for the refusal of the handshake. */
  function GetCertificate(s: Store, serverName: string): Option<Cert> {
    if serverName == "" then
      match s.noSni
      case Refuse => None
      case Fallback => s.fallback
      case OwnCert => s.ownCert
      case AsUnmatched => if s.strict then None else s.fallback
    else
      var name := Fold(serverName);
      if name in s.byName then Some(s.byName[name])
      else if WildcardBySuffix(s, name).Some? then WildcardBySuffix(s, name)
      else if s.strict then None
      else s.fallback
  }

  // ---------------------------------------------------------------------------
  // What RFC 9525 lets a name match
  // ---------------------------------------------------------------------------

  /** The SAN is `*.` and a name from which only one whole, non-empty first label is missing. */
  ghost predicate WildcardMatch(key: string, name: string) {
    exists first, rest :: first != "" && '.' !in first && name == first + "." + rest && key == "*." + rest
  }

  /** What a certificate may present: a name without a star, or `*.` before one that is not empty. */
  ghost predicate Presentable(n: string) {
    '*' !in n || exists rest :: n == "*." + rest && rest != "" && '*' !in rest
  }

  /** Section 6.3: a presented name equal to the name asked for, case aside. */
  ghost predicate CarriesExactly(c: Cert, name: string) {
    exists n :: n in c.dnsNames && Presentable(n) && Fold(n) == Fold(name)
  }

  /** Or a wildcard for it. */
  ghost predicate CarriesWildcard(c: Cert, name: string) {
    exists n :: n in c.dnsNames && Presentable(n) && WildcardMatch(Fold(n), Fold(name))
  }

  ghost predicate CarriedBy(c: Cert, name: string) {
    CarriesExactly(c, name) || CarriesWildcard(c, name)
  }

  lemma {:induction false} CountConcat(a: string, b: string, c: char)
    ensures Count(a + b, c) == Count(a, c) + Count(b, c)
  {
    if a == "" {
      assert a + b == b;
    } else {
      assert (a + b)[1..] == a[1..] + b;
      CountConcat(a[1..], b, c);
    }
  }

  lemma ValidMeansPresentable(n: string)
    ensures ValidPresented(n) <==> Presentable(n)
  {
    if "*." <= n {
      var rest := n[2..];
      assert n == "*." + rest;
      CountConcat("*.", rest, '*');
      assert Count("*.", '*') == 1 by {
        assert "*."[1..] == "." && "."[1..] == "";
      }
    }
    if rest :| n == "*." + rest && rest != "" && '*' !in rest {
      assert "*." <= n && n[2..] == rest;
    }
  }

  /** The keys a certificate is filed under say what it carries. */
  lemma UsableMeaning(c: Cert, name: string)
    ensures Usable(c, Fold(name)) <==> CarriesExactly(c, name)
    ensures (exists key :: Usable(c, key) && WildcardMatch(key, Fold(name))) <==> CarriesWildcard(c, name)
  {
    forall n
      ensures ValidPresented(n) <==> Presentable(n)
    {
      ValidMeansPresentable(n);
    }
    if CarriesWildcard(c, name) {
      var n :| n in c.dnsNames && Presentable(n) && WildcardMatch(Fold(n), Fold(name));
      assert Usable(c, Fold(n));
    }
  }

  lemma WildcardOfMeaning(name: string, key: string)
    ensures WildcardOf(name) == Some(key) <==> WildcardMatch(key, name)
  {
    var i := IndexByte(name, '.');
    if WildcardOf(name) == Some(key) {
      var first, rest := name[..i], name[i + 1..];
      IndexByteIsFirst(name, '.');
      assert '.' !in first && name == first + "." + rest;
      assert key == "*." + rest;
    }
    if first, rest :| first != "" && '.' !in first && name == first + "." + rest && key == "*." + rest {
      IndexByteAfter(first, "." + rest, '.');
      assert name == first + ("." + rest);
      assert i == |first| && name[i..] == "." + rest;
      assert "*" + ("." + rest) == "*." + rest;
    }
  }

  /** The last loaded certificate with a property, None if there is none. */
  ghost predicate LastLoaded(loads: seq<Load>, has: Cert -> bool, c: Option<Cert>) {
    match c
    case None => forall i :: 0 <= i < |loads| && loads[i].Loaded? ==> !has(loads[i].cert)
    case Some(cert) =>
      has(cert) && exists i :: 0 <= i < |loads| && loads[i] == Loaded(cert)
                               && forall j :: i < j < |loads| && loads[j].Loaded? ==> !has(loads[j].cert)
  }

  ghost function Exact(name: string): Cert -> bool {
    (c: Cert) => CarriesExactly(c, name)
  }

  ghost function Wildcard(name: string): Cert -> bool {
    (c: Cert) => CarriesWildcard(c, name)
  }

  lemma LastLoadedSkips(init: seq<Load>, l: Load, has: Cert -> bool, c: Option<Cert>)
    requires LastLoaded(init, has, c) && (l.Loaded? ==> !has(l.cert))
    ensures LastLoaded(init + [l], has, c)
  {
    var loads := init + [l];
    if c.Some? {
      var i :| 0 <= i < |init| && init[i] == Loaded(c.value)
               && forall j :: i < j < |init| && init[j].Loaded? ==> !has(init[j].cert);
      assert loads[i] == Loaded(c.value);
      assert forall j :: 0 <= j < |init| ==> loads[j] == init[j];
    }
  }

  /** What makes a pair fatal: unreadable, or a certificate that presents no usable name at all. */
  lemma FatalMeaning(l: Load)
    ensures Fatal(l) <==> l.Broken? || (l.Loaded? && forall n :: n in l.cert.dnsNames ==> !Presentable(n))
  {
    forall n
      ensures ValidPresented(n) <==> Presentable(n)
    {
      ValidMeansPresentable(n);
    }
    if l.Loaded? {
      if n :| n in l.cert.dnsNames && Presentable(n) {
        assert Usable(l.cert, Fold(n));
      }
    }
  }

  lemma {:induction false} LastWithIsLast(loads: seq<Load>, key: string, has: Cert -> bool)
    requires forall c :: Usable(c, key) <==> has(c)
    ensures LastLoaded(loads, has, LastWith(loads, key))
  {
    if loads != [] {
      var init, l := loads[..|loads| - 1], loads[|loads| - 1];
      if l.Loaded? && Usable(l.cert, key) {
        assert loads[|loads| - 1] == Loaded(l.cert);
      } else {
        LastWithIsLast(init, key, has);
        LastLoadedSkips(init, l, has, LastWith(init, key));
        assert loads == init + [l];
      }
    }
  }

  lemma ExactIsLast(loads: seq<Load>, name: string)
    ensures LastLoaded(loads, Exact(name), LastWith(loads, Fold(name)))
  {
    forall c
      ensures Usable(c, Fold(name)) <==> Exact(name)(c)
    {
      UsableMeaning(c, name);
    }
    LastWithIsLast(loads, Fold(name), Exact(name));
  }

  lemma WildcardIsLast(loads: seq<Load>, name: string)
    ensures var w := WildcardOf(Fold(name));
            LastLoaded(loads, Wildcard(name), if w.None? then None else LastWith(loads, w.value))
  {
    var w := WildcardOf(Fold(name));
    forall key | WildcardMatch(key, Fold(name))
      ensures w == Some(key)
    {
      WildcardOfMeaning(Fold(name), key);
    }
    forall c
      ensures Wildcard(name)(c) <==> w.Some? && Usable(c, w.value)
    {
      UsableMeaning(c, name);
      if w.Some? {
        WildcardOfMeaning(Fold(name), w.value);
      }
    }
    if w.Some? {
      LastWithIsLast(loads, w.value, Wildcard(name));
    }
  }

  /**
    What a named handshake gets, for every store the builder yields and in either mode: the
    last loaded certificate that presents the name itself, else the last with a wildcard for
    it, else nothing in strict mode and the fallback otherwise.
  */
  lemma ServesTheMatch(s: Store, loads: seq<Load>, serverName: string) returns (exact: Option<Cert>, wild: Option<Cert>)
    requires Indexes(s, loads) && serverName != ""
    ensures LastLoaded(loads, Exact(serverName), exact) && LastLoaded(loads, Wildcard(serverName), wild)
    ensures GetCertificate(s, serverName)
            == if exact.Some? then exact else if wild.Some? then wild else if s.strict then None else s.fallback
  {
    var name := Fold(serverName);
    var w := WildcardOf(name);
    exact, wild := LastWith(loads, name), if w.None? then None else LastWith(loads, w.value);
    ExactIsLast(loads, serverName);
    WildcardIsLast(loads, serverName);
    SuffixIndexAgrees(s, loads, name);
    assert Get(s.byName, name) == exact;
    assert w.Some? ==> Get(s.byName, w.value) == wild;
  }

  /** What a handshake without a name gets, in each setting; the first loaded certificate is the fallback. */
  lemma AbsentSniGets(s: Store, loads: seq<Load>, own: Load, noSni: NoSni, strict: bool)
    requires Built(s, loads, own, noSni, strict)
    ensures noSni == Refuse || (noSni == AsUnmatched && strict) ==> GetCertificate(s, "") == None
    ensures noSni == Fallback || (noSni == AsUnmatched && !strict) ==> FirstLoaded(loads, GetCertificate(s, ""))
    ensures noSni == OwnCert ==> GetCertificate(s, "") == if own.Loaded? then Some(own.cert) else None
  {
  }

  /**
    Strict mode, for every store the builder yields and every name a client sends: the
    handshake is refused exactly when no loaded certificate carries the name, and what is
    served otherwise does carry it, an exact match before a wildcard.
  */
  lemma StrictServesOnlyMatches(s: Store, loads: seq<Load>, serverName: string)
    requires Indexes(s, loads) && s.strict && serverName != ""
    ensures GetCertificate(s, serverName).None? <==> forall c :: Loaded(c) in loads ==> !CarriedBy(c, serverName)
    ensures GetCertificate(s, serverName).Some? ==>
              Loaded(GetCertificate(s, serverName).value) in loads
              && CarriedBy(GetCertificate(s, serverName).value, serverName)
    ensures (exists c :: Loaded(c) in loads && CarriesExactly(c, serverName)) ==>
              GetCertificate(s, serverName).Some? && CarriesExactly(GetCertificate(s, serverName).value, serverName)
  {
    var exact, wild := ServesTheMatch(s, loads, serverName);
    NoneCarries(loads, Exact(serverName), exact);
    NoneCarries(loads, Wildcard(serverName), wild);
  }

  lemma NoneCarries(loads: seq<Load>, has: Cert -> bool, c: Option<Cert>)
    requires LastLoaded(loads, has, c)
    ensures c.None? <==> forall cert :: Loaded(cert) in loads ==> !has(cert)
    ensures c.Some? ==> Loaded(c.value) in loads && has(c.value)
  {
  }
}
