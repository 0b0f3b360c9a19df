/**
  The in-process observation store: per map a queue of the live entries in first-seen
  order, so that expiry pops from the front instead of sweeping the map.
*/
module MemStore {
  import opened Wrappers
  import opened Observations

  class Entry<T> {
    const first: int
    const token: string
    var recs: seq<T>

    constructor (first: int, token: string)
      ensures this.first == first && this.token == token && recs == []
    {
      this.first, this.token, recs := first, token, [];
    }
  }

  lemma Overwrite<K, V>(m: map<K, V>, k: K, a: V, b: V)
    ensures m[k := a][k := b] == m[k := b]
  {
  }

  lemma SameRows<T>(a: Observations.Rows<T>, b: Observations.Rows<T>)
    requires a.Keys == b.Keys && forall t :: t in a ==> a[t] == b[t]
    ensures a == b
  {
  }

  /** What a map of entries holds. */
  ghost function RowsOf<T>(m: map<string, Entry<T>>): Observations.Rows<T>
    reads m.Values
  {
    map t | t in m :: Row(m[t].first, m[t].recs)
  }

  twostate lemma RowsUnchanged<T>(m: map<string, Entry<T>>)
    requires forall t :: t in m ==> m[t].recs == old(m[t].recs)
    ensures RowsOf(m) == old(RowsOf(m))
  {
    SameRows(RowsOf(m), old(RowsOf(m)));
  }

  ghost function Live<T>(m: map<string, Entry<T>>, now: int, ttl: int): map<string, Entry<T>> {
    map t | t in m && !Expired(m[t].first, now, ttl) :: m[t]
  }

  lemma RowsOfLive<T>(m: map<string, Entry<T>>, now: int, ttl: int)
    ensures RowsOf(Live(m, now, ttl)) == Swept(RowsOf(m), now, ttl)
  {
    SameRows(RowsOf(Live(m, now, ttl)), Swept(RowsOf(m), now, ttl));
  }

  // The queue discipline, stated on the first-seen times and tokens, which never change.

  predicate Sorted<T>(q: seq<Entry<T>>) {
    forall i, j :: 0 <= i < j < |q| ==> q[i].first <= q[j].first
  }

  predicate Distinct<T>(q: seq<Entry<T>>) {
    forall i, j :: 0 <= i < j < |q| ==> q[i] != q[j]
  }

  /** The queue and the map hold the same entries, each under its own token. */
  ghost predicate Matched<T>(q: seq<Entry<T>>, m: map<string, Entry<T>>) {
    && (forall e :: e in q ==> e.token in m && m[e.token] == e)
    && (forall t :: t in m ==> m[t] in q && m[t].token == t)
  }

  ghost function Remaining<T>(q: seq<Entry<T>>, m: map<string, Entry<T>>, i: nat): map<string, Entry<T>>
    requires i <= |q|
  {
    map t | t in m && m[t] !in q[..i] :: m[t]
  }

  /** In a sorted queue, the expired prefix is everything that has expired. */
  lemma PrefixIsTheExpired<T>(q: seq<Entry<T>>, i: nat, now: int, ttl: int, e: Entry<T>)
    requires Sorted(q) && i <= |q| && e in q
    requires forall j :: 0 <= j < i ==> Expired(q[j].first, now, ttl)
    requires i < |q| ==> !Expired(q[i].first, now, ttl)
    ensures e in q[..i] <==> Expired(e.first, now, ttl)
  {
    var j :| 0 <= j < |q| && q[j] == e;
    if j < i {
      assert q[..i][j] == e;
    } else {
      assert q[i].first <= q[j].first;
    }
  }

  lemma RemainingIsLive<T>(q: seq<Entry<T>>, m: map<string, Entry<T>>, i: nat, now: int, ttl: int)
    requires Sorted(q) && Matched(q, m) && i <= |q|
    requires forall j :: 0 <= j < i ==> Expired(q[j].first, now, ttl)
    requires i < |q| ==> !Expired(q[i].first, now, ttl)
    ensures Remaining(q, m, i) == Live(m, now, ttl)
  {
    forall t | t in m
      ensures m[t] in q[..i] <==> Expired(m[t].first, now, ttl)
    {
      PrefixIsTheExpired(q, i, now, ttl, m[t]);
    }
  }

  /** Dropping a prefix from queue and map together keeps them in step. */
  lemma DropFront<T>(q: seq<Entry<T>>, m: map<string, Entry<T>>, i: nat)
    requires Sorted(q) && Distinct(q) && Matched(q, m) && i <= |q|
    ensures Sorted(q[i..]) && Distinct(q[i..]) && Matched(q[i..], Remaining(q, m, i))
  {
    assert q == q[..i] + q[i..];
    forall e | e in q[i..]
      ensures e in q && e !in q[..i]
    {
      var j :| i <= j < |q| && q[j] == e;
    }
  }

  lemma RemainingStep<T>(q: seq<Entry<T>>, m: map<string, Entry<T>>, i: nat)
    requires Distinct(q) && Matched(q, m) && i < |q|
    ensures var e := q[i];
            e.token in Remaining(q, m, i) && Remaining(q, m, i)[e.token] == e
            && Remaining(q, m, i + 1) == Remaining(q, m, i) - {e.token}
  {
    assert q[..i + 1] == q[..i] + [q[i]];
    assert q[i] in q;
  }

  lemma InsertedAt<X>(q: seq<X>, i: nat, e: X, j: nat)
    requires i <= |q| && j <= |q|
    ensures (q[..i] + [e] + q[i..])[j] == if j < i then q[j] else if j == i then e else q[j - 1]
  {
  }

  lemma InsertedMembers<X>(q: seq<X>, i: nat, e: X)
    requires i <= |q|
    ensures forall x :: x in q[..i] + [e] + q[i..] <==> x in q || x == e
  {
    assert q == q[..i] + q[i..];
  }

  lemma InsertedIsSorted<T>(q: seq<Entry<T>>, i: nat, e: Entry<T>)
    requires Sorted(q) && Distinct(q) && i <= |q| && e !in q
    requires forall j :: 0 <= j < i ==> q[j].first <= e.first
    requires forall j :: i <= j < |q| ==> q[j].first > e.first
    ensures Sorted(q[..i] + [e] + q[i..]) && Distinct(q[..i] + [e] + q[i..])
  {
    var out := q[..i] + [e] + q[i..];
    forall j, k | 0 <= j < k < |out|
      ensures out[j].first <= out[k].first && out[j] != out[k]
    {
      InsertedAt(q, i, e, j);
      InsertedAt(q, i, e, k);
    }
  }

  /** One map of entries together with its queue. */
  class Shelf<T> {
    var entries: map<string, Entry<T>>
    var order: seq<Entry<T>>

    /** The queue is sorted by first-seen time and holds exactly the map's entries, once each. */
    ghost predicate Valid()
      reads this
    {
      Sorted(order) && Distinct(order) && Matched(order, entries)
    }

    ghost function Rows(): Observations.Rows<T>
      requires Valid()
      reads this, order
    {
      RowsOf(entries)
    }

    ghost function Objects(): set<Entry<T>>
      reads this
    {
      set e | e in order
    }

    constructor ()
      ensures Valid() && Rows() == map[] && order == []
    {
      entries, order := map[], [];
    }

    /** Binary search for the first entry seen later than `first`. */
    method FirstLater(first: int) returns (i: nat)
      requires Valid()
      ensures i <= |order|
      ensures forall j :: 0 <= j < i ==> order[j].first <= first
      ensures forall j :: i <= j < |order| ==> order[j].first > first
    {
      i := 0;
      var hi := |order|;
      while i < hi
        invariant 0 <= i <= hi <= |order|
        invariant forall j :: 0 <= j < i ==> order[j].first <= first
        invariant forall j :: hi <= j < |order| ==> order[j].first > first
      {
        var mid := (i + hi) / 2;
        if order[mid].first > first {
          hi := mid;
        } else {
          i := mid + 1;
        }
      }
    }

    /** Where a new entry belongs: at the end, unless its time is before the newest one's. */
    method Place(first: int) returns (i: nat)
      requires Valid()
      ensures i <= |order|
      ensures forall j :: 0 <= j < i ==> order[j].first <= first
      ensures forall j :: i <= j < |order| ==> order[j].first > first
    {
      if |order| > 0 && first < order[|order| - 1].first {
        i := FirstLater(first);
      } else {
        i := |order|;
      }
    }

    /** Opens a row under a token that has none, keeping queue and map in step. */
    method Add(token: string, now: int) returns (e: Entry<T>)
      requires Valid() && token !in entries
      modifies this
      ensures Valid() && fresh(e) && e.first == now && e.recs == []
      ensures entries == old(entries)[token := e]
      ensures Objects() == old(Objects()) + {e}
    {
      e := new Entry(now, token);
      var i := Place(now);
      InsertedIsSorted(order, i, e);
      InsertedMembers(order, i, e);
      entries := entries[token := e];
      order := order[..i] + [e] + order[i..];
    }

    /** The number of live tokens is the number of rows. */
    lemma Sizes()
      requires Valid()
      ensures Rows().Keys == entries.Keys && |Rows()| == |entries|
    {
      assert |Rows()| == |Rows().Keys| && |entries| == |entries.Keys|;
    }

    /** Retains one more record in an entry's row, unless the row is full. */
    method Keep(e: Entry<T>, max: int, make: nat -> T)
      requires Valid() && e in order
      modifies e
      ensures Valid() && Rows() == old(Rows())[e.token := Kept(old(Rows())[e.token], max, make)]
    {
      if |e.recs| < max {
        e.recs := e.recs + [make(|e.recs| + 1)];
      }
    }

    /** The token's entry, opened if need be; null at the token ceiling. */
    method Find(token: string, now: int, lim: Limits) returns (e: Entry?<T>)
      requires Valid()
      modifies this
      ensures Valid() && (e == null <==> Refused(old(Rows()), lim, token))
      ensures e == null ==> unchanged(this)
      ensures e != null ==> e in order && e.token == token && Rows() == old(Rows())[token := Open(old(Rows()), token, now)]
      ensures forall x :: x in Objects() ==> x in old(Objects()) || fresh(x)
    {
      Sizes();
      if token in entries {
        return entries[token];
      }
      if |entries| >= lim.maxTokens {
        return null;
      }
      e := Add(token, now);
    }

    method Record(lim: Limits, token: string, now: int, make: nat -> T) returns (seen: nat, full: bool)
      requires Valid()
      modifies this, Objects()
      ensures Valid() && Outcome(Rows(), seen, full) == Visited(old(Rows()), lim, token, now, make)
      ensures forall x :: x in Objects() ==> x in old(Objects()) || fresh(x)
    {
      ghost var live := Rows();
      var e := Find(token, now, lim);
      if e == null {
        return 1, true;
      }
      assert Rows()[token] == Open(live, token, now) == Row(e.first, e.recs);
      seen, full := |e.recs| + 1, false;
      Keep(e, lim.maxPerToken, make);
      ghost var kept := Kept(Open(live, token, now), lim.maxPerToken, make);
      Overwrite(live, token, Open(live, token, now), kept);
    }

    /**
      Drops map entries from the front of the queue while the front is too old. The guard
      never fails: the entry is always still the one under its token.
    */
    method DropExpired(now: int, ttl: int) returns (i: nat)
      requires Valid()
      modifies this`entries
      ensures i <= |order| && entries == Remaining(order, old(entries), i)
      ensures forall j :: 0 <= j < i ==> Expired(order[j].first, now, ttl)
      ensures i < |order| ==> !Expired(order[i].first, now, ttl)
    {
      ghost var before := entries;
      i := 0;
      while i < |order| && now - order[i].first > ttl
        invariant 0 <= i <= |order|
        invariant entries == Remaining(order, before, i)
        invariant forall j :: 0 <= j < i ==> Expired(order[j].first, now, ttl)
      {
        var e := order[i];
        RemainingStep(order, before, i);
        assert e.token in entries && entries[e.token] == e;
        if e.token in entries && entries[e.token] == e {
          entries := entries - {e.token};
        }
        i := i + 1;
      }
    }

    /** Popping the front of the queue removes exactly what a sweep of the whole map would. */
    method Expire(now: int, ttl: int)
      requires Valid()
      modifies this
      ensures Valid() && Rows() == Swept(old(Rows()), now, ttl)
      ensures Objects() <= old(Objects())
    {
      ghost var before := entries;
      RowsOfLive(before, now, ttl);
      var i := DropExpired(now, ttl);
      DropFront(order, before, i);
      RemainingIsLive(order, before, i, now, ttl);
      order := order[i..];
      RowsUnchanged(entries);
    }
  }

  /** Go's zero time stands for "now"; Seen is filled in by the store. */
  datatype Observation = Observation(token: string, at: Option<int>, detail: string, seen: nat)
  datatype Report = Report(token: string, at: Option<int>, detail: string)

  const MAX_UNATTRIBUTED: int := 256

  function Stamp(at: Option<int>, clock: int): int {
    if at.None? then clock else at.value
  }

  /** What is stored for the k-th sighting of an observation. */
  function Sighting(o: Observation, now: int): nat -> Observation {
    (k: nat) => o.(at := Some(now), seen := k)
  }

  /** In an empty store the ceiling never refuses, and the row is the observation alone. */
  lemma FirstSighting(lim: Limits, o: Observation, now: int)
    requires lim.maxTokens > 0 && lim.maxPerToken > 0
    ensures var r := Recorded(map[], lim, o.token, now, Sighting(o, now));
            !r.full && r.seen == 1 && r.rows == map[o.token := Row(now, [o.(at := Some(now), seen := 1)])]
  {
    var rows: Rows<Observation> := map[];
    FullMeaning(rows, lim, o.token, now, Sighting(o, now));
    RecordedMeaning(rows, lim, o.token, now, Sighting(o, now));
    assert (set t | t in rows && Alive(rows, t, now, lim.ttl)) == {};
    assert Recorded(rows, lim, o.token, now, Sighting(o, now)).rows.Keys == {o.token};
  }

  function Filed(r: Report, now: int): nat -> Report {
    (k: nat) => r.(at := Some(now))
  }

  /** A call on the store: a sighting, a query for a token, or an error report. */
  datatype Visit =
    | Sight(o: Observation, clock: int)
    | Ask(token: string, clock: int)
    | File(rep: Report, clock: int)

  /** What it means for the observations; the other two only sweep them. */
  function CallOf(v: Visit): Call<Observation> {
    match v
    case Sight(o, clock) => Call.Record(o.token, Stamp(o.at, clock), Sighting(o, Stamp(o.at, clock)))
    case Ask(_, clock) => Call.Lookup(clock)
    case File(rep, clock) => Call.Lookup(Stamp(rep.at, clock))
  }

  function CallsOf(vs: seq<Visit>): (cs: seq<Call<Observation>>)
    ensures |cs| == |vs| && forall i :: 0 <= i < |vs| ==> cs[i] == CallOf(vs[i])
  {
    seq(|vs|, i requires 0 <= i < |vs| => CallOf(vs[i]))
  }

  lemma RunStep<T>(rows: Observations.Rows<T>, lim: Limits, calls: seq<Call<T>>, i: nat, seen: seq<nat>)
    requires i < |calls|
    ensures RunStore(rows, lim, calls[i..]) == RunStore(StoreStep(rows, lim, calls[i]), lim, calls[i + 1..])
    ensures seen + Answers(rows, lim, calls[i..])
            == seen + [AnswerTo(rows, lim, calls[i])] + Answers(StoreStep(rows, lim, calls[i]), lim, calls[i + 1..])
  {
    assert calls[i..][1..] == calls[i + 1..];
  }

  class MemStore {
    const lim: Limits
    const observations: Shelf<Observation>
    const reports: Shelf<Report>

    ghost predicate Valid()
      reads this, observations, reports
    {
      && observations.Valid() && reports.Valid()
      && lim.maxTokens > 0 && lim.maxPerToken > 0
      && (forall x: object :: x in observations.Objects() ==> x !in reports.Objects())
      && observations as object != reports
    }

    constructor (ttl: int, maxTokens: int, maxPerToken: int)
      ensures Valid() && lim == Configure(ttl, maxTokens, maxPerToken)
      ensures observations.Rows() == map[] && reports.Rows() == map[]
    {
      lim := Configure(ttl, maxTokens, maxPerToken);
      observations := new Shelf();
      reports := new Shelf();
    }

    method Expire(now: int)
      requires Valid()
      modifies observations, reports
      ensures Valid()
      ensures observations.Rows() == Swept(old(observations.Rows()), now, lim.ttl)
      ensures reports.Rows() == Swept(old(reports.Rows()), now, lim.ttl)
      ensures observations.Objects() <= old(observations.Objects()) && reports.Objects() <= old(reports.Objects())
    {
      observations.Expire(now, lim.ttl);
      reports.Expire(now, lim.ttl);
    }

    method Record(o: Observation, clock: int) returns (out: Observation, full: bool)
      requires Valid()
      modifies observations, reports, observations.Objects()
      ensures Valid()
      ensures var now := Stamp(o.at, clock);
              var r := Recorded(old(observations.Rows()), lim, o.token, now, Sighting(o, now));
              observations.Rows() == r.rows && full == r.full
              && out == o.(at := Some(now), seen := r.seen)
              && reports.Rows() == Swept(old(reports.Rows()), now, lim.ttl)
      ensures old(observations.Rows()) == map[] ==>
                !full && out.seen == 1 && out.at == Some(Stamp(o.at, clock))
                && observations.Rows() == map[o.token := Row(Stamp(o.at, clock), [out])]
      ensures forall x :: x in observations.Objects() ==> x in old(observations.Objects()) || fresh(x)
      ensures reports.Objects() <= old(reports.Objects())
    {
      var now := Stamp(o.at, clock);
      Expire(now);
      label swept:
      var seen;
      seen, full := observations.Record(lim, o.token, now, Sighting(o, now));
      RowsUnchanged@swept(reports.entries);
      out := o.(at := Some(now), seen := seen);
      FirstSighting(lim, o, now);
    }

    method Lookup(token: string, clock: int) returns (found: seq<Observation>)
      requires Valid()
      modifies observations, reports
      ensures Valid() && observations.Rows() == Swept(old(observations.Rows()), clock, lim.ttl)
      ensures found == if token in observations.Rows() then observations.Rows()[token].recs else []
      ensures observations.Objects() <= old(observations.Objects()) && reports.Objects() <= old(reports.Objects())
    {
      Expire(clock);
      found := if token in observations.entries then observations.entries[token].recs else [];
    }

    /** Reports go to the same kind of shelf; the unattributed ones share one larger row. */
    method RecordReport(rep: Report, clock: int) returns (refused: bool)
      requires Valid()
      modifies observations, reports, reports.Objects()
      ensures Valid()
      ensures var now := Stamp(rep.at, clock);
              var limit := if rep.token == "" then MAX_UNATTRIBUTED else lim.maxPerToken;
              var r := Recorded(old(reports.Rows()), lim.(maxPerToken := limit), rep.token, now, Filed(rep, now));
              reports.Rows() == r.rows && (refused <==> r.full || r.seen > limit)
              && observations.Rows() == Swept(old(observations.Rows()), now, lim.ttl)
      ensures forall x :: x in reports.Objects() ==> x in old(reports.Objects()) || fresh(x)
      ensures observations.Objects() <= old(observations.Objects())
    {
      var now := Stamp(rep.at, clock);
      Expire(now);
      var limit := if rep.token == "" then MAX_UNATTRIBUTED else lim.maxPerToken;
      label swept:
      var seen, full := reports.Record(lim.(maxPerToken := limit), rep.token, now, Filed(rep, now));
      RowsUnchanged@swept(observations.entries);
      refused := full || seen > limit;
    }

    method Serve(v: Visit) returns (seen: nat)
      requires Valid()
      modifies observations, reports, observations.Objects(), reports.Objects()
      ensures Valid() && observations.Rows() == StoreStep(old(observations.Rows()), lim, CallOf(v))
      ensures seen == AnswerTo(old(observations.Rows()), lim, CallOf(v))
      ensures forall x :: x in observations.Objects() ==> x in old(observations.Objects()) || fresh(x)
      ensures forall x :: x in reports.Objects() ==> x in old(reports.Objects()) || fresh(x)
    {
      seen := 0;
      match v {
        case Sight(o, clock) =>
          var out, _ := Record(o, clock);
          seen := out.seen;
        case Ask(token, clock) =>
          var _ := Lookup(token, clock);
        case File(rep, clock) =>
          var _ := RecordReport(rep, clock);
      }
    }

    /** Any number of calls of all three kinds come to the run of the specification. */
    method ServeAll(vs: seq<Visit>) returns (seen: seq<nat>)
      requires Valid()
      modifies observations, reports, observations.Objects(), reports.Objects()
      ensures Valid() && observations.Rows() == RunStore(old(observations.Rows()), lim, CallsOf(vs))
      ensures seen == Answers(old(observations.Rows()), lim, CallsOf(vs))
    {
      ghost var start, calls := observations.Rows(), CallsOf(vs);
      seen := [];
      var i := 0;
      while i < |vs|
        invariant 0 <= i <= |vs| && Valid()
        invariant RunStore(observations.Rows(), lim, calls[i..]) == RunStore(start, lim, calls)
        invariant seen + Answers(observations.Rows(), lim, calls[i..]) == Answers(start, lim, calls)
        invariant forall x :: x in observations.Objects() ==> x in old(observations.Objects()) || fresh(x)
        invariant forall x :: x in reports.Objects() ==> x in old(reports.Objects()) || fresh(x)
      {
        RunStep(observations.Rows(), lim, calls, i, seen);
        var n := Serve(vs[i]);
        seen := seen + [n];
        i := i + 1;
      }
    }
  }
}
