/**
  The update engine as it runs: record objects on the heap, slices that share them, and
  one server object whose records and view are replaced together. Each method is tied to
  the function over record values that specifies it.
*/
module DynUpdate {
  import opened Wrappers
  import opened Bytes
  import opened Names
  import opened Zone

  /** A record object. A slice holds references, so two slices can share one object. */
  class RR {
    var name: string
    var rrtype: uint16
    var cls: uint16
    var ttl: uint32
    var rdlength: uint16
    var rdata: RData

    constructor (v: Record)
      ensures Val() == v
    {
      name, rrtype, cls, ttl, rdlength, rdata := v.name, v.rrtype, v.cls, v.ttl, v.rdlength, v.rdata;
    }

    function Val(): Record
      reads this
    {
      Record(name, rrtype, cls, ttl, rdlength, rdata)
    }
  }

  function Vals(s: seq<RR>): (vs: seq<Record>)
    reads s
    ensures |vs| == |s| && forall i :: 0 <= i < |s| ==> vs[i] == s[i].Val()
  {
    seq(|s|, i requires 0 <= i < |s| reads s => s[i].Val())
  }

  /** A Go slice from the start of its backing array; what lies past `len` is spare capacity. */
  datatype Slice = Slice(arr: array<RR>, len: nat) {
    predicate Fits() {
      len <= arr.Length
    }

    function Elems(): seq<RR>
      requires Fits()
      reads arr
    {
      arr[..len]
    }
  }

  // ---------------------------------------------------------------------------
  // Scans
  // ---------------------------------------------------------------------------

  lemma FirstIndexStep(rs: seq<Record>, i: nat, hit: Record -> bool)
    requires i < |rs| && FirstIndex(rs[..i], hit) < 0
    ensures if hit(rs[i]) then FirstIndex(rs, hit) == i else FirstIndex(rs[..i + 1], hit) < 0
  {
    assert rs[..i + 1][..i] == rs[..i];
    if hit(rs[i]) {
      FirstIndexOfPrefix(rs, i + 1, hit);
    }
  }

  lemma {:induction false} FirstIndexOfPrefix(rs: seq<Record>, n: nat, hit: Record -> bool)
    requires n <= |rs| && FirstIndex(rs[..n], hit) >= 0
    ensures FirstIndex(rs, hit) == FirstIndex(rs[..n], hit)
  {
    if n < |rs| {
      assert rs[..|rs| - 1][..n] == rs[..n];
      FirstIndexOfPrefix(rs[..|rs| - 1], n, hit);
    } else {
      assert rs[..n] == rs;
    }
  }

  /** Type and owner are compared first; the full key only for records that share both. */
  predicate SameRecord(r: Record, want: Record, canonical: string) {
    r.rrtype == want.rrtype && SameName(r.name, canonical) && Identity(r) == Identity(want)
  }

  lemma SameRecordMatches(r: Record, want: Record)
    ensures SameRecord(r, want, Canonical(want.name)) <==> MatchesRecord(want)(r)
  {
  }

  method IndexOfRR(rrs: seq<RR>, want: RR) returns (i: int)
    ensures i == FirstIndex(Vals(rrs), MatchesRecord(want.Val()))
  {
    ghost var vals, hit := Vals(rrs), MatchesRecord(want.Val());
    var canonical := Canonical(want.name);
    i := 0;
    while i < |rrs|
      invariant 0 <= i <= |rrs|
      invariant FirstIndex(vals[..i], hit) < 0
    {
      FirstIndexStep(vals, i, hit);
      SameRecordMatches(vals[i], want.Val());
      if SameRecord(rrs[i].Val(), want.Val(), canonical) {
        return;
      }
      i := i + 1;
    }
    assert vals[..|rrs|] == vals;
    return -1;
  }

  method Exists(rrs: seq<RR>, hit: Record -> bool) returns (found: bool)
    ensures found <==> exists r :: r in Vals(rrs) && hit(r)
  {
    var i := 0;
    while i < |rrs|
      invariant 0 <= i <= |rrs|
      invariant forall j :: 0 <= j < i ==> !hit(Vals(rrs)[j])
    {
      if hit(rrs[i].Val()) {
        assert Vals(rrs)[i] in Vals(rrs);
        return true;
      }
      i := i + 1;
    }
    return false;
  }

  method CountRRset(rrs: seq<RR>, canonical: string, t: uint16) returns (c: nat)
    ensures c == CountOf(Vals(rrs), InRRset(canonical, t))
  {
    ghost var vals, hit := Vals(rrs), InRRset(canonical, t);
    c := 0;
    var i := 0;
    while i < |rrs|
      invariant 0 <= i <= |rrs|
      invariant c == CountOf(vals[..i], hit)
    {
      assert vals[..i + 1][..i] == vals[..i];
      assert hit(vals[i]) <==> SameName(rrs[i].name, canonical) && rrs[i].rrtype == t;
      if SameName(rrs[i].name, canonical) && rrs[i].rrtype == t {
        c := c + 1;
      }
      i := i + 1;
    }
    assert vals[..|rrs|] == vals;
  }

  /** The first record whose Go type is SOA; -1 for none. */
  method SoaOf(rrs: seq<RR>) returns (i: int)
    ensures i == FirstIndex(Vals(rrs), CarriesSerial())
    ensures i >= 0 ==> rrs[i].rdata.Soa?
  {
    ghost var vals, hit := Vals(rrs), CarriesSerial();
    i := 0;
    while i < |rrs|
      invariant 0 <= i <= |rrs|
      invariant FirstIndex(vals[..i], hit) < 0
    {
      FirstIndexStep(vals, i, hit);
      if rrs[i].rdata.Soa? {
        return;
      }
      i := i + 1;
    }
    assert vals[..|rrs|] == vals;
    return -1;
  }

  method CurrentSerial(rrs: seq<RR>) returns (serial: Option<uint32>)
    ensures serial == SerialOf(Vals(rrs))
  {
    var i := SoaOf(rrs);
    serial := if i < 0 then None else Some(rrs[i].rdata.serial);
  }

  // ---------------------------------------------------------------------------
  // RRset comparison and prerequisites
  // ---------------------------------------------------------------------------

  function Tally<K>(counts: map<K, nat>, k: K): nat {
    if k in counts then counts[k] else 0
  }

  ghost predicate Tallies<K(!new)>(counts: map<K, nat>, m: multiset<K>) {
    forall k: K :: k in counts || k in m ==> Tally(counts, k) == m[k]
  }

  lemma TallyOne<K(!new)>(counts: map<K, nat>, m: multiset<K>, x: K)
    requires Tallies(counts, m)
    ensures Tally(counts, x) == m[x]
    ensures Tallies(counts[x := Tally(counts, x) + 1], m + multiset{x})
    ensures Tally(counts, x) > 0 ==> Tallies(counts[x := Tally(counts, x) - 1], m - multiset{x})
  {
  }

  lemma PrefixMultiset<K>(s: seq<K>, i: nat)
    requires i < |s|
    ensures multiset(s[..i + 1]) == multiset(s[..i]) + multiset{s[i]}
    ensures multiset(s) == multiset(s[..i + 1]) + multiset(s[i + 1..])
  {
    assert s[..i + 1] == s[..i] + [s[i]];
    assert s == s[..i + 1] + s[i + 1..];
  }

  method Count<K(==,!new)>(s: seq<K>) returns (counts: map<K, nat>)
    ensures Tallies(counts, multiset(s))
  {
    counts := map[];
    var i := 0;
    while i < |s|
      invariant 0 <= i <= |s|
      invariant Tallies(counts, multiset(s[..i]))
    {
      PrefixMultiset(s, i);
      TallyOne(counts, multiset(s[..i]), s[i]);
      counts := counts[s[i] := Tally(counts, s[i]) + 1];
      i := i + 1;
    }
    assert s[..i] == s;
  }

  /** Spends the counts of `have` on `want`; equal lengths make an exact fit an equality. */
  method SameByCounting<K(==,!new)>(have: seq<K>, want: seq<K>) returns (same: bool)
    ensures same <==> multiset(have) == multiset(want)
  {
    if |have| != |want| {
      assert |multiset(have)| != |multiset(want)|;
      return false;
    }
    var counts: map<K, nat> := Count(have);
    var i := 0;
    ghost var left := multiset(have);
    while i < |want|
      invariant 0 <= i <= |want|
      invariant Tallies(counts, left) && multiset(have) == left + multiset(want[..i])
    {
      PrefixMultiset(want, i);
      TallyOne(counts, left, want[i]);
      if Tally(counts, want[i]) == 0 {
        assert multiset(have)[want[i]] < multiset(want)[want[i]];
        return false;
      }
      var spent: nat := Tally(counts, want[i]) - 1;
      counts := counts[want[i] := spent];
      left := left - multiset{want[i]};
      i := i + 1;
    }
    assert want[..i] == want;
    assert |multiset(have)| == |left| + |multiset(want)|;
    return true;
  }

  method SameRRsetByCounting(have: seq<Record>, want: seq<Record>) returns (same: bool)
    ensures same == SameRRset(have, want)
  {
    same := SameByCounting(Identities(have), Identities(want));
  }

  type RRsetTable = map<RRsetKey, seq<Record>>

  function Listed(table: RRsetTable, k: RRsetKey): seq<Record> {
    if k in table then table[k] else []
  }

  /** The table holds, under each key, the value-dependent prerequisites seen for it. */
  ghost predicate Collected(table: RRsetTable, ps: seq<Record>) {
    forall k :: Listed(table, k) == Wanted(ps, k) && (k in table ==> table[k] != [])
  }

  lemma WithoutStep(rs: seq<Record>, i: nat, drop: Record -> bool)
    requires i < |rs|
    ensures Without(rs[..i + 1], drop) == Without(rs[..i], drop) + (if drop(rs[i]) then [] else [rs[i]])
  {
    assert rs[..i + 1][..i] == rs[..i];
  }

  lemma CollectOne(table: RRsetTable, ps: seq<Record>, i: nat)
    requires i < |ps| && Collected(table, ps[..i])
    ensures ps[i].cls != CLASS_IN ==> Collected(table, ps[..i + 1])
    ensures ps[i].cls == CLASS_IN ==>
              Collected(table[SetOf(ps[i]) := Listed(table, SetOf(ps[i])) + [ps[i]]], ps[..i + 1])
  {
    forall k
      ensures Wanted(ps[..i + 1], k)
              == Wanted(ps[..i], k) + (if ps[i].cls == CLASS_IN && SetOf(ps[i]) == k then [ps[i]] else [])
    {
      WithoutStep(ps, i, OtherThanWanted(k));
    }
  }

  /** The keys of the table are the RRsets the prerequisites name. */
  lemma CollectedKeys(table: RRsetTable, ps: seq<Record>, k: RRsetKey)
    requires Collected(table, ps)
    ensures k in table <==> exists p :: p in ps && p.cls == CLASS_IN && SetOf(p) == k
  {
    WithoutMembers(ps, OtherThanWanted(k));
    assert Listed(table, k) == Wanted(ps, k);
    if k in table {
      assert table[k][0] in Wanted(ps, k);
    }
    if p :| p in ps && p.cls == CLASS_IN && SetOf(p) == k {
      assert p in Wanted(ps, k);
    }
  }

  /** First the records one by one, then the collected RRsets in whatever order the map yields them. */
  method JudgePrereqs<View>(cfg: Config<View>, zone: seq<Record>, ps: seq<Record>) returns (rcode: Rcode)
    ensures rcode == cfg.CheckPrereqs(zone, ps)
  {
    var table: RRsetTable := map[];
    var i := 0;
    while i < |ps|
      invariant 0 <= i <= |ps|
      invariant cfg.PrereqScan(zone, ps) == cfg.PrereqScan(zone, ps[i..])
      invariant Collected(table, ps[..i])
    {
      var verdict := cfg.PrereqRecord(zone, ps[i]);
      if verdict.Some? {
        return verdict.value;
      }
      CollectOne(table, ps, i);
      if ps[i].cls == CLASS_IN {
        table := table[SetOf(ps[i]) := Listed(table, SetOf(ps[i])) + [ps[i]]];
      }
      i := i + 1;
    }
    assert ps[..i] == ps;
    var same := CompareRRsets(zone, ps, table);
    rcode := if same then NoError else NXRRset;
  }

  method CompareRRsets(zone: seq<Record>, ghost ps: seq<Record>, table: RRsetTable) returns (same: bool)
    requires Collected(table, ps)
    ensures same <==> forall p :: p in ps && p.cls == CLASS_IN ==> SameRRset(RRsetOf(zone, SetOf(p)), Wanted(ps, SetOf(p)))
  {
    var todo := table.Keys;
    while todo != {}
      invariant todo <= table.Keys
      invariant forall k :: k in table.Keys - todo ==> SameRRset(RRsetOf(zone, k), Wanted(ps, k))
      decreases |todo|
    {
      var k :| k in todo;
      assert Listed(table, k) == Wanted(ps, k);
      same := SameRRsetByCounting(RRsetOf(zone, k), table[k]);
      if !same {
        CollectedKeys(table, ps, k);
        return false;
      }
      todo := todo - {k};
    }
    forall p | p in ps && p.cls == CLASS_IN
      ensures SameRRset(RRsetOf(zone, SetOf(p)), Wanted(ps, SetOf(p)))
    {
      CollectedKeys(table, ps, SetOf(p));
    }
    return true;
  }

  // ---------------------------------------------------------------------------
  // Slice edits. They write the backing array they are given and fresh objects, never a
  // record that existed before.
  // ---------------------------------------------------------------------------

  method Copy(r: RR) returns (c: RR)
    ensures fresh(c) && c.Val() == r.Val()
  {
    c := new RR(r.Val());
  }

  /** A new backing array holding the same record objects. */
  method CopySlice(s: Slice) returns (out: Slice)
    requires s.Fits()
    ensures out.Fits() && fresh(out.arr) && out.Elems() == s.Elems()
  {
    var a := new RR[s.len](i requires 0 <= i < s.len reads s.arr => s.arr[i]);
    out := Slice(a, s.len);
  }

  /** Go's append: in place while capacity lasts, into a larger array after. */
  method Append(s: Slice, x: RR) returns (out: Slice)
    requires s.Fits()
    modifies s.arr
    ensures out.Fits() && (out.arr == s.arr || fresh(out.arr))
    ensures out.Elems() == old(s.Elems()) + [x]
  {
    if s.len < s.arr.Length {
      s.arr[s.len] := x;
      return Slice(s.arr, s.len + 1);
    }
    var a := new RR[2 * s.len + 1](i requires i >= 0 reads s.arr => if i < s.len then s.arr[i] else x);
    out := Slice(a, s.len + 1);
  }

  /** Closes the gap by moving the tail down in place. */
  method RemoveAt(s: Slice, i: nat) returns (out: Slice)
    requires s.Fits() && i < s.len
    modifies s.arr
    ensures out == Slice(s.arr, s.len - 1)
    ensures Vals(out.Elems()) == old(Vals(s.Elems()))[..i] + old(Vals(s.Elems()))[i + 1..]
    ensures forall x :: x in out.Elems() ==> x in old(s.Elems())
  {
    var j := i;
    while j < s.len - 1
      invariant i <= j <= s.len - 1
      invariant forall k :: 0 <= k < i || j < k < s.len ==> s.arr[k] == old(s.arr[k])
      invariant forall k :: i <= k < j ==> s.arr[k] == old(s.arr[k + 1])
    {
      s.arr[j] := s.arr[j + 1];
      j := j + 1;
    }
    out := Slice(s.arr, s.len - 1);
  }

  /** The references whose recorded values are not selected. */
  ghost function Kept(xs: seq<RR>, vs: seq<Record>, drop: Record -> bool): seq<RR>
    requires |xs| == |vs|
  {
    if xs == [] then []
    else Kept(xs[..|xs| - 1], vs[..|vs| - 1], drop) + if drop(vs[|vs| - 1]) then [] else [xs[|xs| - 1]]
  }

  lemma KeptStep(xs: seq<RR>, vs: seq<Record>, i: nat, drop: Record -> bool)
    requires |xs| == |vs| && i < |xs|
    ensures Kept(xs[..i + 1], vs[..i + 1], drop)
            == Kept(xs[..i], vs[..i], drop) + if drop(vs[i]) then [] else [xs[i]]
  {
    assert xs[..i + 1][..i] == xs[..i] && vs[..i + 1][..i] == vs[..i];
  }

  lemma DropsStep(vs: seq<Record>, i: nat, drop: Record -> bool)
    requires i < |vs|
    ensures Drops(vs[..i + 1], drop) <==> Drops(vs[..i], drop) || drop(vs[i])
  {
    assert vs[..i + 1][..i] == vs[..i];
  }

  lemma KeptAll(xs: seq<RR>, vs: seq<Record>, drop: Record -> bool)
    requires |xs| == |vs|
    ensures Kept(xs[..|xs|], vs[..|xs|], drop) == Kept(xs, vs, drop)
    ensures Drops(vs[..|xs|], drop) == Drops(vs, drop)
    ensures Kept(xs[..0], vs[..0], drop) == [] && !Drops(vs[..0], drop)
  {
    assert xs[..|xs|] == xs && vs[..|xs|] == vs;
  }

  lemma {:induction false} KeptMeaning(xs: seq<RR>, vs: seq<Record>, drop: Record -> bool)
    requires vs == Vals(xs)
    ensures Vals(Kept(xs, vs, drop)) == Without(vs, drop)
    ensures forall x :: x in Kept(xs, vs, drop) ==> x in xs
  {
    if xs != [] {
      var init := xs[..|xs| - 1];
      assert vs[..|vs| - 1] == Vals(init);
      KeptMeaning(init, Vals(init), drop);
    }
  }

  /** An empty slice with room for as many records. */
  method Make(xs: seq<RR>) returns (out: Slice)
    ensures out.Fits() && fresh(out.arr) && out.arr.Length == |xs| && out.len == 0
  {
    var a := new RR[|xs|](i requires 0 <= i < |xs| => xs[i]);
    out := Slice(a, 0);
  }

  /** The next record looked at, after what the earlier ones came to. */
  method AppendUnless(s: Slice, changed: bool, drop: Record -> bool, x: RR,
                      ghost xs: seq<RR>, ghost vs: seq<Record>, ghost i: nat)
    returns (out: Slice, ch: bool)
    requires s.Fits() && |xs| == |vs| && i < |xs| && x == xs[i] && x.Val() == vs[i]
    requires s.Elems() == Kept(xs[..i], vs[..i], drop)
    modifies s.arr
    ensures out.Fits() && (out.arr == s.arr || fresh(out.arr))
    ensures out.Elems() == Kept(xs[..i + 1], vs[..i + 1], drop)
    ensures ch == (changed || drop(vs[i]))
  {
    KeptStep(xs, vs, i, drop);
    if drop(x.Val()) {
      return s, true;
    }
    out := Append(s, x);
    ch := changed;
  }

  /** Filters into an array of its own. */
  method Filter(xs: seq<RR>, changed: bool, drop: Record -> bool) returns (out: Slice, ch: bool)
    ensures out.Fits() && fresh(out.arr)
    ensures out.Elems() == Kept(xs, Vals(xs), drop)
    ensures ch == (changed || Drops(Vals(xs), drop))
  {
    ghost var vs := Vals(xs);
    KeptAll(xs, vs, drop);
    out := Make(xs);
    ch := changed;
    var i := 0;
    while i < |xs|
      invariant 0 <= i <= |xs| && out.Fits() && fresh(out.arr)
      invariant out.Elems() == Kept(xs[..i], vs[..i], drop)
      invariant ch == (changed || Drops(vs[..i], drop))
    {
      DropsStep(vs, i, drop);
      out, ch := AppendUnless(out, ch, drop, xs[i], xs, vs, i);
      i := i + 1;
    }
  }

  method DeleteWhere(s: Slice, changed: bool, drop: Record -> bool) returns (out: Slice, ch: bool)
    requires s.Fits()
    ensures out.Fits() && fresh(out.arr)
    ensures Applied(Vals(out.Elems()), ch) == Delete(Vals(s.Elems()), changed, drop)
    ensures forall x :: x in out.Elems() ==> x in s.Elems()
  {
    DropsMeaning(Vals(s.Elems()), drop);
    out, ch := Filter(s.Elems(), changed, drop);
    KeptMeaning(s.Elems(), Vals(s.Elems()), drop);
  }

  method AppendCopy(s: Slice, rr: RR) returns (out: Slice)
    requires s.Fits()
    modifies s.arr
    ensures out.Fits() && (out.arr == s.arr || fresh(out.arr))
    ensures Vals(out.Elems()) == old(Vals(s.Elems())) + [rr.Val()]
    ensures forall x :: x in out.Elems() ==> x in old(s.Elems()) || fresh(x)
  {
    var c := Copy(rr);
    out := Append(s, c);
  }

  /** The TTL changes on a copy that takes the record's place in the slice. */
  method SetTtl(s: Slice, i: nat, ttl: uint32)
    requires s.Fits() && i < s.len
    modifies s.arr
    ensures Vals(s.Elems()) == old(Vals(s.Elems()))[i := old(s.arr[i].Val()).(ttl := ttl)]
    ensures forall x :: x in s.Elems() ==> x in old(s.Elems()) || fresh(x)
  {
    var c := Copy(s.arr[i]);
    s.arr[i] := c;
    s.arr[i].ttl := ttl;
  }

  /** Wraps at 2^32, and skips 0 (RFC 2136 section 7.11). */
  method Incremented(soa: RR) returns (next: RR)
    requires soa.rdata.Soa?
    ensures fresh(next)
    ensures next.Val() == soa.Val().(rdata := soa.rdata.(serial := NextSerial(soa.rdata.serial)))
  {
    var n := (soa.rdata.serial + 1) % 0x1_0000_0000;
    if n == 0 {
      n := 1;
    }
    next := Copy(soa);
    next.rdata := next.rdata.(serial := n);
  }

  /** An incremented copy takes the SOA's place in the slice; the shared object keeps its serial. */
  method BumpSerial(s: Slice)
    requires s.Fits()
    modifies s.arr
    ensures Vals(s.Elems()) == Bumped(old(Vals(s.Elems())))
    ensures forall x :: x in s.Elems() ==> x in old(s.Elems()) || fresh(x)
  {
    var i := SoaOf(s.Elems());
    if i < 0 {
      return;
    }
    var next := Incremented(s.arr[i]);
    s.arr[i] := next;
  }

  // ---------------------------------------------------------------------------
  // One update record
  // ---------------------------------------------------------------------------

  /** Filters, then appends a copy of the record that takes the place of what went. */
  method Refill(s: Slice, rr: RR, drop: Record -> bool) returns (out: Slice)
    requires s.Fits()
    ensures out.Fits() && fresh(out.arr)
    ensures Vals(out.Elems()) == Without(Vals(s.Elems()), drop) + [rr.Val()]
    ensures forall x :: x in out.Elems() ==> x in s.Elems() || fresh(x)
  {
    var kept, _ := DeleteWhere(s, false, drop);
    out := AppendCopy(kept, rr);
  }

  method ReplaceSoa(s: Slice, changed: bool, rr: RR, apex: bool, ghost zone: string) returns (out: Slice, ch: bool)
    requires s.Fits() && apex == (Canonical(rr.name) == zone)
    ensures out.Fits() && (out.arr == s.arr || fresh(out.arr))
    ensures Applied(Vals(out.Elems()), ch) == AddSoa(Vals(s.Elems()), changed, rr.Val(), zone)
    ensures forall x :: x in out.Elems() ==> x in s.Elems() || fresh(x)
  {
    var cur := CurrentSerial(s.Elems());
    if !rr.rdata.Soa? || !apex || cur.None? || !SerialGreater(rr.rdata.serial, cur.value) {
      return s, changed;
    }
    out := Refill(s, rr, IsSoa());
    return out, true;
  }

  /** CNAME exclusivity, in both directions. */
  method IsExcluded(rrs: seq<RR>, rr: RR, name: string) returns (r: bool)
    requires name == Canonical(rr.name)
    ensures r <==> Excluded(Vals(rrs), rr.Val())
  {
    if rr.rrtype == TYPE_CNAME {
      r := Exists(rrs, NonCname(name));
    } else {
      r := Exists(rrs, InRRset(name, TYPE_CNAME));
    }
  }

  method Join(s: Slice, rr: RR, name: string) returns (out: Slice)
    requires s.Fits() && name == Canonical(rr.name)
    modifies s.arr
    ensures out.Fits() && (out.arr == s.arr || fresh(out.arr))
    ensures Vals(out.Elems()) == Joined(old(Vals(s.Elems())), rr.Val())
    ensures forall x :: x in out.Elems() ==> x in old(s.Elems()) || fresh(x)
  {
    if rr.rrtype == TYPE_CNAME {
      out := Refill(s, rr, InRRset(name, TYPE_CNAME));
    } else {
      out := AppendCopy(s, rr);
    }
  }

  method ApplyAt(s: Slice, changed: bool, rr: RR, name: string, i: int) returns (out: Slice, ch: bool)
    requires s.Fits() && name == Canonical(rr.name) && i < s.len
    modifies s.arr
    ensures out.Fits() && (out.arr == s.arr || fresh(out.arr))
    ensures Applied(Vals(out.Elems()), ch) == AddAt(old(Vals(s.Elems())), changed, rr.Val(), i)
    ensures forall x :: x in out.Elems() ==> x in old(s.Elems()) || fresh(x)
  {
    if i < 0 {
      out := Join(s, rr, name);
      return out, true;
    }
    if s.arr[i].ttl == rr.ttl {
      return s, changed;
    }
    SetTtl(s, i, rr.ttl);
    return s, true;
  }

  method ApplyOther(s: Slice, changed: bool, rr: RR, name: string) returns (out: Slice, ch: bool)
    requires s.Fits() && name == Canonical(rr.name)
    modifies s.arr
    ensures out.Fits() && (out.arr == s.arr || fresh(out.arr))
    ensures Applied(Vals(out.Elems()), ch) == AddOther(old(Vals(s.Elems())), changed, rr.Val())
    ensures forall x :: x in out.Elems() ==> x in old(s.Elems()) || fresh(x)
  {
    var i := IndexOfRR(s.Elems(), rr);
    out, ch := ApplyAt(s, changed, rr, name, i);
  }

  method ApplyAdd(s: Slice, changed: bool, rr: RR, name: string, apex: bool, ghost zone: string)
    returns (out: Slice, ch: bool)
    requires s.Fits() && name == Canonical(rr.name) && apex == (name == zone)
    modifies s.arr
    ensures out.Fits() && (out.arr == s.arr || fresh(out.arr))
    ensures Applied(Vals(out.Elems()), ch) == Add(old(Vals(s.Elems())), changed, rr.Val(), zone)
    ensures forall x :: x in out.Elems() ==> x in old(s.Elems()) || fresh(x)
  {
    if rr.rrtype == TYPE_SOA {
      out, ch := ReplaceSoa(s, changed, rr, apex, zone);
      return;
    }
    var excluded := IsExcluded(s.Elems(), rr, name);
    if excluded {
      return s, changed;
    }
    out, ch := ApplyOther(s, changed, rr, name);
  }

  method ApplyDeleteRRset(s: Slice, changed: bool, rr: RR, name: string, apex: bool, ghost zone: string)
    returns (out: Slice, ch: bool)
    requires s.Fits() && name == Canonical(rr.name) && apex == (name == zone)
    ensures out.Fits() && (out.arr == s.arr || fresh(out.arr))
    ensures Applied(Vals(out.Elems()), ch) == DeleteRRset(Vals(s.Elems()), changed, rr.Val(), zone)
    ensures forall x :: x in out.Elems() ==> x in s.Elems()
  {
    if rr.rrtype == TYPE_ANY {
      out, ch := DeleteWhere(s, changed, AtName(name, apex));
    } else if apex && (rr.rrtype == TYPE_SOA || rr.rrtype == TYPE_NS) {
      out, ch := s, changed;
    } else {
      out, ch := DeleteWhere(s, changed, InRRset(name, rr.rrtype));
    }
  }

  method IsIndelible(rrs: seq<RR>, rr: RR, name: string, apex: bool, ghost zone: string) returns (r: bool)
    requires name == Canonical(rr.name) && apex == (name == zone)
    ensures r <==> Indelible(Vals(rrs), rr.Val(), zone)
  {
    if apex && rr.rrtype == TYPE_SOA {
      return true;
    }
    if apex && rr.rrtype == TYPE_NS {
      var servers := CountRRset(rrs, name, TYPE_NS);
      return servers <= 1;
    }
    return false;
  }

  method Cut(s: Slice, changed: bool, i: int) returns (out: Slice, ch: bool)
    requires s.Fits() && i < s.len
    modifies s.arr
    ensures out.Fits() && out.arr == s.arr
    ensures Applied(Vals(out.Elems()), ch) == CutAt(old(Vals(s.Elems())), changed, i)
    ensures forall x :: x in out.Elems() ==> x in old(s.Elems())
  {
    if i < 0 {
      return s, changed;
    }
    out := RemoveAt(s, i);
    return out, true;
  }

  method RemoveRecord(s: Slice, changed: bool, rr: RR) returns (out: Slice, ch: bool)
    requires s.Fits()
    modifies s.arr
    ensures out.Fits() && out.arr == s.arr
    ensures Applied(Vals(out.Elems()), ch) == RemoveFirst(old(Vals(s.Elems())), changed, rr.Val())
    ensures forall x :: x in out.Elems() ==> x in old(s.Elems())
  {
    var i := IndexOfRR(s.Elems(), rr);
    out, ch := Cut(s, changed, i);
  }

  method ApplyDeleteRecord(s: Slice, changed: bool, rr: RR, name: string, apex: bool, ghost zone: string)
    returns (out: Slice, ch: bool)
    requires s.Fits() && name == Canonical(rr.name) && apex == (name == zone)
    modifies s.arr
    ensures out.Fits() && out.arr == s.arr
    ensures Applied(Vals(out.Elems()), ch) == DeleteRecord(old(Vals(s.Elems())), changed, rr.Val(), zone)
    ensures forall x :: x in out.Elems() ==> x in old(s.Elems())
  {
    var indelible := IsIndelible(s.Elems(), rr, name, apex, zone);
    if indelible {
      return s, changed;
    }
    out, ch := RemoveRecord(s, changed, rr);
  }

  /** Dispatch on the update record's class (RFC 2136 section 3.4.2). */
  method ApplyRecord(s: Slice, changed: bool, rr: RR, zone: string) returns (out: Slice, ch: bool)
    requires s.Fits()
    modifies s.arr
    ensures out.Fits() && (out.arr == s.arr || fresh(out.arr))
    ensures Applied(Vals(out.Elems()), ch) == ApplyOne(Applied(old(Vals(s.Elems())), changed), rr.Val(), zone)
    ensures forall x :: x in out.Elems() ==> x in old(s.Elems()) || fresh(x)
  {
    var name := Canonical(rr.name);
    var apex := name == zone;
    out, ch := s, changed;
    if rr.cls == CLASS_IN {
      out, ch := ApplyAdd(s, changed, rr, name, apex, zone);
    } else if rr.cls == CLASS_ANY {
      out, ch := ApplyDeleteRRset(s, changed, rr, name, apex, zone);
    } else if rr.cls == CLASS_NONE {
      out, ch := ApplyDeleteRecord(s, changed, rr, name, apex, zone);
    }
  }

  lemma ApplyStep(rs: seq<Record>, us: seq<Record>, i: nat, zone: string)
    requires i < |us|
    ensures Zone.Apply(rs, us[..i + 1], zone) == ApplyOne(Zone.Apply(rs, us[..i], zone), us[i], zone)
  {
    assert us[..i + 1][..i] == us[..i];
  }

  lemma ApplyWhole(rs: seq<Record>, us: seq<Record>, zone: string)
    ensures Zone.Apply(rs, us[..0], zone) == Applied(rs, false)
    ensures Zone.Apply(rs, us[..|us|], zone) == Zone.Apply(rs, us, zone)
  {
    assert us[..|us|] == us;
  }

  /** The next record of the section, applied to what the earlier ones came to. */
  method ApplyNext(s: Slice, changed: bool, rr: RR, zone: string, ghost rs: seq<Record>, ghost us: seq<Record>, ghost i: nat)
    returns (out: Slice, ch: bool)
    requires s.Fits() && i < |us| && rr.Val() == us[i]
    requires Applied(Vals(s.Elems()), changed) == Zone.Apply(rs, us[..i], zone)
    modifies s.arr
    ensures out.Fits() && (out.arr == s.arr || fresh(out.arr))
    ensures Applied(Vals(out.Elems()), ch) == Zone.Apply(rs, us[..i + 1], zone)
    ensures forall x :: x in out.Elems() ==> x in old(s.Elems()) || fresh(x)
  {
    ApplyStep(rs, us, i, zone);
    out, ch := ApplyRecord(s, changed, rr, zone);
  }

  /** The working slice has an array of its own, holding the live zone's record objects. */
  method ApplyAll(live: Slice, updates: seq<RR>, zone: string) returns (out: Slice, changed: bool)
    requires live.Fits()
    ensures out.Fits() && fresh(out.arr)
    ensures Applied(Vals(out.Elems()), changed) == Zone.Apply(Vals(live.Elems()), Vals(updates), zone)
    ensures forall x :: x in out.Elems() ==> x in live.Elems() || fresh(x)
  {
    ghost var rs, us := Vals(live.Elems()), Vals(updates);
    ApplyWhole(rs, us, zone);
    out := CopySlice(live);
    changed := false;
    var i := 0;
    while i < |updates|
      invariant 0 <= i <= |updates|
      invariant out.Fits() && fresh(out.arr)
      invariant Applied(Vals(out.Elems()), changed) == Zone.Apply(rs, us[..i], zone)
      invariant forall x :: x in out.Elems() ==> x in live.Elems() || fresh(x)
    {
      out, changed := ApplyNext(out, changed, updates[i], zone, rs, us, i);
      i := i + 1;
    }
  }

  /** Section 3.6 of RFC 2136: bump unless the update moved the serial itself. */
  method FixSerial(live: Slice, s: Slice)
    requires live.Fits() && s.Fits()
    modifies s.arr
    ensures Vals(s.Elems()) == WithSerial(old(Vals(live.Elems())), old(Vals(s.Elems())))
    ensures forall x :: x in s.Elems() ==> x in old(s.Elems()) || fresh(x)
  {
    var cur := CurrentSerial(live.Elems());
    var next := CurrentSerial(s.Elems());
    if cur.Some? && next.Some? && next == cur {
      BumpSerial(s);
    }
  }

  // ---------------------------------------------------------------------------
  // The server
  // ---------------------------------------------------------------------------

  /** An UPDATE message whose records are objects of their own. */
  datatype Request = Request(questions: seq<Question>, signed: bool, prereqs: seq<RR>, updates: seq<RR>)

  function MessageOf(r: Request): Message
    reads r.prereqs, r.updates
  {
    Message(r.questions, r.signed, Vals(r.prereqs), Vals(r.updates))
  }

  class Server<View(!new)> {
    const cfg: Config<View>
    var rrs: Slice
    var view: Option<View>

    /** Setup swaps the seed in; a seed that does not build is kept, without a view. */
    constructor (cfg: Config<View>, seed: Slice)
      requires seed.Fits()
      ensures Valid() && this.cfg == cfg && rrs == seed
      ensures State() == Start(cfg, Vals(seed.Elems()))
    {
      this.cfg, rrs, view := cfg, seed, None;
      new;
      var _ := Swap(seed);
    }

    /** The view readers see is the one built from the records, absent if they do not build. */
    ghost predicate Valid()
      reads this, rrs.arr, if rrs.Fits() then rrs.Elems() else []
    {
      rrs.Fits() && view == cfg.Build(Vals(rrs.Elems()))
    }

    ghost function State(): Zone.State<View>
      requires rrs.Fits()
      reads this, rrs.arr, rrs.Elems()
    {
      Zone.State(Vals(rrs.Elems()), view)
    }

    method CheckPrereqs(prereqs: seq<RR>) returns (rcode: Rcode)
      requires rrs.Fits()
      ensures rcode == cfg.CheckPrereqs(Vals(rrs.Elems()), Vals(prereqs))
    {
      rcode := JudgePrereqs(cfg, Vals(rrs.Elems()), Vals(prereqs));
    }

    method Prescan(updates: seq<RR>) returns (rcode: Rcode)
      ensures rcode == cfg.Prescan(Vals(updates))
    {
      var us := Vals(updates);
      var i := 0;
      while i < |us|
        invariant 0 <= i <= |us|
        invariant cfg.Prescan(us) == cfg.Prescan(us[i..])
      {
        rcode := cfg.PrescanRecord(us[i]);
        if rcode != NoError {
          return;
        }
        i := i + 1;
      }
      return NoError;
    }

    /** Inserting rewrites the names of the record it is given, so it is given a copy. */
    method Insert(v: View, rec: RR) returns (w: Option<View>)
      ensures w == cfg.insert(v, rec.Val())
    {
      var c := Copy(rec);
      w := cfg.insert(v, c.Val());
      c.name := Fold(c.name);
    }

    method Build(recs: Slice) returns (v: Option<View>)
      requires recs.Fits()
      ensures v == cfg.Build(Vals(recs.Elems()))
    {
      ghost var vals := Vals(recs.Elems());
      v := Some(cfg.emptyView);
      var i := 0;
      while i < recs.len
        invariant 0 <= i <= recs.len
        invariant v.Some? && v == cfg.Build(vals[..i])
      {
        BuildStep(cfg, vals, i);
        v := Insert(v.value, recs.arr[i]);
        if v.None? {
          BuildFailsEarly(cfg, vals, i + 1);
          return;
        }
        i := i + 1;
      }
      assert vals[..recs.len] == vals;
    }

    method Swap(recs: Slice) returns (ok: bool)
      requires rrs.Fits() && recs.Fits()
      modifies this
      ensures ok == cfg.Build(Vals(recs.Elems())).Some?
      ensures ok ==> Valid() && rrs == recs
      ensures !ok ==> unchanged(this)
      ensures Answer(if ok then NoError else ServFail, State()) == Swapped(cfg, old(State()), Vals(recs.Elems()))
    {
      var v := Build(recs);
      if v.None? {
        return false;
      }
      rrs, view := recs, v;
      return true;
    }

    method Admit(r: Request) returns (rcode: Rcode)
      requires rrs.Fits()
      ensures rcode == Admission(cfg, Vals(rrs.Elems()), MessageOf(r))
    {
      if |r.questions| != 1 || r.questions[0].qtype != TYPE_SOA || r.questions[0].qclass != CLASS_IN {
        return FormErr;
      }
      if Canonical(r.questions[0].name) != cfg.zone {
        return NotAuth;
      }
      if !r.signed {
        return Refused;
      }
      rcode := CheckPrereqs(r.prereqs);
      if rcode == NoError {
        rcode := Prescan(r.updates);
      }
    }

    /** The slice to install: the update section applied and the serial settled. */
    method Prepare(updates: seq<RR>) returns (out: Slice, changed: bool)
      requires rrs.Fits()
      ensures out.Fits() && fresh(out.arr)
      ensures var a := Zone.Apply(Vals(rrs.Elems()), Vals(updates), cfg.zone);
              changed == a.changed && (changed ==> Vals(out.Elems()) == WithSerial(Vals(rrs.Elems()), a.rrs))
      ensures forall x :: x in out.Elems() ==> x in rrs.Elems() || fresh(x)
    {
      out, changed := ApplyAll(rrs, updates, cfg.zone);
      if changed {
        FixSerial(rrs, out);
      }
    }

    /** Apply, bump, rebuild, swap; reached only once every check has passed. */
    method Commit(updates: seq<RR>) returns (rcode: Rcode)
      requires Valid()
      modifies this
      ensures Valid()
      ensures Answer(rcode, State()) == Committed(cfg, old(State()), old(Vals(updates)))
      ensures rcode != NoError ==> unchanged(this)
      ensures rrs == old(rrs) || fresh(rrs.arr)
      ensures forall x :: x in rrs.Elems() ==> x in old(rrs.Elems()) || fresh(x)
    {
      var updated, changed := Prepare(updates);
      if !changed {
        return NoError;
      }
      var ok := Swap(updated);
      rcode := if ok then NoError else ServFail;
    }

    /**
      One UPDATE, atomically. The frame is the server object alone: no record and no backing
      array that existed before the call is written, whether the message succeeds or not, so
      whoever still holds the old slice reads what it held. On any answer but NOERROR the
      slice and the view are the very ones the call started with; otherwise a new slice may
      have been installed, in an array of its own. No record of the message itself ever
      becomes part of the zone.
    */
    method ServeUpdate(r: Request) returns (rcode: Rcode)
      requires Valid()
      modifies this
      ensures Valid()
      ensures Answer(rcode, State()) == Serve(cfg, old(State()), old(MessageOf(r)))
      ensures rcode != NoError ==> rrs == old(rrs) && view == old(view)
      ensures old(rrs).arr[..] == old(rrs.arr[..]) && (rrs == old(rrs) || fresh(rrs.arr))
      ensures forall x: RR :: old(allocated(x)) ==> x.Val() == old(x.Val())
      ensures forall x :: x in rrs.Elems() ==> x in old(rrs.Elems()) || fresh(x)
    {
      rcode := Admit(r);
      if rcode != NoError {
        return;
      }
      rcode := Commit(r.updates);
    }

    /** Any number of messages, whatever their answers, come to the run of the specification. */
    method ServeAll(rs: seq<Request>, ghost ms: seq<Message>)
      requires Valid()
      requires |ms| == |rs| && forall i :: 0 <= i < |rs| ==> MessageOf(rs[i]) == ms[i]
      modifies this
      ensures Valid() && State() == Run(cfg, old(State()), ms)
    {
      ghost var start := State();
      var i := 0;
      while i < |rs|
        invariant 0 <= i <= |rs|
        invariant Valid() && Run(cfg, State(), ms[i..]) == Run(cfg, start, ms)
        invariant forall j :: 0 <= j < |rs| ==> MessageOf(rs[j]) == ms[j]
      {
        RunStep(cfg, State(), ms, i);
        var _ := ServeUpdate(rs[i]);
        i := i + 1;
      }
    }
  }

  lemma RunStep<View>(cfg: Config<View>, st: Zone.State<View>, ms: seq<Message>, i: nat)
    requires i < |ms|
    ensures Run(cfg, st, ms[i..]) == Run(cfg, Serve(cfg, st, ms[i]).state, ms[i + 1..])
  {
    assert ms[i..][1..] == ms[i + 1..];
  }

  lemma BuildStep<View>(cfg: Config<View>, rs: seq<Record>, i: nat)
    requires i < |rs|
    ensures cfg.Build(rs[..i]).Some? ==> cfg.Build(rs[..i + 1]) == cfg.insert(cfg.Build(rs[..i]).value, rs[i])
  {
    assert rs[..i + 1][..i] == rs[..i];
  }

  lemma {:induction false} BuildFailsEarly<View>(cfg: Config<View>, rs: seq<Record>, i: nat)
    requires i <= |rs| && cfg.Build(rs[..i]).None?
    ensures cfg.Build(rs).None?
    decreases |rs| - i
  {
    if i < |rs| {
      assert rs[..i + 1][..i] == rs[..i];
      BuildFailsEarly(cfg, rs, i + 1);
    } else {
      assert rs[..i] == rs;
    }
  }
}
