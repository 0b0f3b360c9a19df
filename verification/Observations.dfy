/**
  What the observation store keeps, as values: rows under tokens, swept by age, and the
  unbounded log of which they are the retained part.
*/
module Observations {

  /** A token's row: when it was first seen and what is retained. */
  datatype Row<T> = Row(first: int, recs: seq<T>)

  type Rows<T> = map<string, Row<T>>

  datatype Limits = Limits(ttl: int, maxTokens: int, maxPerToken: int)

  /** Defaults for every field that is not positive: 10 minutes, 10 000 tokens, 64 each. */
  function Configure(ttl: int, maxTokens: int, maxPerToken: int): (l: Limits)
    ensures l.ttl > 0 && l.maxTokens > 0 && l.maxPerToken > 0
  {
    Limits(if ttl <= 0 then 600_000_000_000 else ttl,
           if maxTokens <= 0 then 10000 else maxTokens,
           if maxPerToken <= 0 then 64 else maxPerToken)
  }

  /** Ten minutes, ten thousand tokens and sixty-four observations each, unless configured otherwise. */
  lemma Defaults(ttl: int, maxTokens: int, maxPerToken: int)
    ensures Configure(0, 0, 0) == Limits(600_000_000_000, 10000, 64)
    ensures ttl > 0 ==> Configure(ttl, maxTokens, maxPerToken).ttl == ttl
    ensures maxTokens > 0 ==> Configure(ttl, maxTokens, maxPerToken).maxTokens == maxTokens
    ensures maxPerToken > 0 ==> Configure(ttl, maxTokens, maxPerToken).maxPerToken == maxPerToken
  {
  }

  predicate Expired(first: int, now: int, ttl: int) {
    now - first > ttl
  }

  /** A full sweep by age: every row first seen more than ttl ago goes, and no other. */
  function Swept<T>(rows: Rows<T>, now: int, ttl: int): Rows<T> {
    map t | t in rows && !Expired(rows[t].first, now, ttl) :: rows[t]
  }

  datatype Outcome<T> = Outcome(rows: Rows<T>, seen: nat, full: bool)

  /** The token's row, or a new one first seen now. */
  function Open<T>(rows: Rows<T>, token: string, now: int): Row<T> {
    if token in rows then rows[token] else Row(now, [])
  }

  /** New tokens are refused at the ceiling rather than displacing old ones. */
  predicate Refused<T>(rows: Rows<T>, lim: Limits, token: string) {
    token !in rows && |rows| >= lim.maxTokens
  }

  /** Retains one more observation while there is room. */
  function Kept<T>(row: Row<T>, max: int, make: nat -> T): Row<T> {
    if |row.recs| >= max then row else row.(recs := row.recs + [make(|row.recs| + 1)])
  }

  /** A Record on rows already swept: find or open the token's row, retain while there is room. */
  function Visited<T>(live: Rows<T>, lim: Limits, token: string, now: int, make: nat -> T): Outcome<T> {
    if Refused(live, lim, token) then Outcome(live, 1, true)
    else
      var row := Open(live, token, now);
      Outcome(live[token := Kept(row, lim.maxPerToken, make)], |row.recs| + 1, false)
  }

  function Recorded<T>(rows: Rows<T>, lim: Limits, token: string, now: int, make: nat -> T): Outcome<T> {
    Visited(Swept(rows, now, lim.ttl), lim, token, now, make)
  }

  // ---------------------------------------------------------------------------
  // What one call leaves behind, spelled out
  // ---------------------------------------------------------------------------

  /** First seen at most ttl ago. */
  predicate Alive<T>(rows: Rows<T>, t: string, now: int, ttl: int) {
    t in rows && now - rows[t].first <= ttl
  }

  /** A sweep takes exactly the rows first seen more than ttl ago. */
  lemma SweptMeaning<T>(rows: Rows<T>, now: int, ttl: int)
    ensures forall t :: t in Swept(rows, now, ttl) <==> Alive(rows, t, now, ttl)
    ensures forall t :: t in Swept(rows, now, ttl) ==> Swept(rows, now, ttl)[t] == rows[t]
    ensures Swept(rows, now, ttl).Keys == set t | t in rows && Alive(rows, t, now, ttl)
  {
  }

  /** A refusal: exactly a token without a live row, while the live rows are at the ceiling. */
  lemma FullMeaning<T>(rows: Rows<T>, lim: Limits, token: string, now: int, make: nat -> T)
    ensures Recorded(rows, lim, token, now, make).full <==>
            !Alive(rows, token, now, lim.ttl)
            && |set t | t in rows && Alive(rows, t, now, lim.ttl)| >= lim.maxTokens
  {
    SweptMeaning(rows, now, lim.ttl);
    assert |Swept(rows, now, lim.ttl)| == |Swept(rows, now, lim.ttl).Keys|;
  }

  /**
    One call, row by row. Whatever has expired is gone and every other row is as it was; the
    token's row is new and first seen now, or it gains the observation while it has room, and
    the answer is its position there. A refused token has no row and is answered 1.
  */
  lemma RecordedMeaning<T>(rows: Rows<T>, lim: Limits, token: string, now: int, make: nat -> T)
    requires lim.maxPerToken > 0
    ensures var r := Recorded(rows, lim, token, now, make);
            && (forall t :: t != token ==> (t in r.rows <==> Alive(rows, t, now, lim.ttl)))
            && (forall t :: t != token && t in r.rows ==> r.rows[t] == rows[t])
            && (token in r.rows <==> !r.full)
            && (r.full ==> r.seen == 1)
            && (!r.full && !Alive(rows, token, now, lim.ttl) ==> r.rows[token] == Row(now, [make(1)]) && r.seen == 1)
            && (Alive(rows, token, now, lim.ttl) ==>
                  var n := |rows[token].recs|;
                  && !r.full && r.rows[token].first == rows[token].first && r.seen == n + 1
                  && r.rows[token].recs == rows[token].recs + if n < lim.maxPerToken then [make(n + 1)] else [])
  {
    SweptMeaning(rows, now, lim.ttl);
  }

  // ---------------------------------------------------------------------------
  // The abstract log: same sweep, same ceiling on tokens, nothing truncated
  // ---------------------------------------------------------------------------

  function Min(a: int, b: int): int {
    if a < b then a else b
  }

  /** The retained part of a life: its first max observations, in order. */
  function Retained<T>(life: Row<T>, max: nat): Row<T> {
    Row(life.first, life.recs[..Min(|life.recs|, max)])
  }

  function RetainedRows<T>(log: Rows<T>, max: nat): Rows<T> {
    map t | t in log :: Retained(log[t], max)
  }

  function Noted<T>(life: Row<T>, make: nat -> T): Row<T> {
    life.(recs := life.recs + [make(|life.recs| + 1)])
  }

  /** Every call is logged, with its own position in the token's life. */
  function Logged<T>(log: Rows<T>, lim: Limits, token: string, now: int, make: nat -> T): Rows<T> {
    var live := Swept(log, now, lim.ttl);
    if Refused(live, lim, token) then live else live[token := Noted(Open(live, token, now), make)]
  }

  /** How many observations of the token the log holds after a call; 0 if it was refused. */
  function Position<T>(log: Rows<T>, token: string): nat {
    if token in log then |log[token].recs| else 0
  }

  /** A Record, with what is stored for the k-th sighting, or a Lookup, which only sweeps. */
  datatype Call<!T> = Record(token: string, now: int, make: nat -> T) | Lookup(now: int)

  function StoreStep<T>(rows: Rows<T>, lim: Limits, c: Call<T>): Rows<T> {
    match c
    case Record(token, now, make) => Recorded(rows, lim, token, now, make).rows
    case Lookup(now) => Swept(rows, now, lim.ttl)
  }

  function LogStep<T>(log: Rows<T>, lim: Limits, c: Call<T>): Rows<T> {
    match c
    case Record(token, now, make) => Logged(log, lim, token, now, make)
    case Lookup(now) => Swept(log, now, lim.ttl)
  }

  function RunStore<T>(rows: Rows<T>, lim: Limits, calls: seq<Call<T>>): Rows<T>
    decreases |calls|
  {
    if calls == [] then rows else RunStore(StoreStep(rows, lim, calls[0]), lim, calls[1..])
  }

  function RunLog<T>(log: Rows<T>, lim: Limits, calls: seq<Call<T>>): Rows<T>
    decreases |calls|
  {
    if calls == [] then log else RunLog(LogStep(log, lim, calls[0]), lim, calls[1..])
  }

  /** The sighting count a call is answered with; a Lookup has none. */
  function AnswerTo<T>(rows: Rows<T>, lim: Limits, c: Call<T>): nat {
    match c
    case Record(token, now, make) => Recorded(rows, lim, token, now, make).seen
    case Lookup(_) => 0
  }

  function Answers<T>(rows: Rows<T>, lim: Limits, calls: seq<Call<T>>): (ns: seq<nat>)
    decreases |calls|
  {
    if calls == [] then [] else [AnswerTo(rows, lim, calls[0])] + Answers(StoreStep(rows, lim, calls[0]), lim, calls[1..])
  }

  /** What the log says a call is due: its position in the token's life, saturating, or 1 if refused. */
  function DueTo<T>(log: Rows<T>, lim: Limits, c: Call<T>): nat
    requires lim.maxPerToken > 0
  {
    match c
    case Record(token, now, make) =>
      var after := Logged(log, lim, token, now, make);
      if token in after then Min(Position(after, token), lim.maxPerToken + 1) else 1
    case Lookup(_) => 0
  }

  function Due<T>(log: Rows<T>, lim: Limits, calls: seq<Call<T>>): seq<nat>
    requires lim.maxPerToken > 0
    decreases |calls|
  {
    if calls == [] then [] else [DueTo(log, lim, calls[0])] + Due(LogStep(log, lim, calls[0]), lim, calls[1..])
  }

  /** Sweeping and truncating commute: expiry looks only at first-seen times. */
  lemma SweptRetained<T>(log: Rows<T>, max: nat, now: int, ttl: int)
    ensures Swept(RetainedRows(log, max), now, ttl) == RetainedRows(Swept(log, now, ttl), max)
    ensures |RetainedRows(log, max)| == |log|
  {
    assert RetainedRows(log, max).Keys == log.Keys;
  }

  /** Keeping one more of a retained row is retaining one more of the life. */
  lemma KeptRefines<T>(life: Row<T>, max: nat, make: nat -> T)
    ensures Kept(Retained(life, max), max, make) == Retained(Noted(life, make), max)
    ensures |Retained(life, max).recs| + 1 == Min(|Noted(life, make).recs|, max + 1)
  {
    var grown := Noted(life, make).recs;
    if |life.recs| >= max {
      assert grown[..max] == life.recs[..max];
    } else {
      assert grown[..|grown|] == grown && life.recs[..|life.recs|] == life.recs;
    }
  }

  lemma OpenRetained<T>(log: Rows<T>, max: nat, token: string, now: int)
    ensures Open(RetainedRows(log, max), token, now) == Retained(Open(log, token, now), max)
  {
  }

  lemma RetainedUpdate<T>(log: Rows<T>, max: nat, token: string, life: Row<T>)
    ensures RetainedRows(log[token := life], max) == RetainedRows(log, max)[token := Retained(life, max)]
  {
  }

  /**
    One call on the bounded store does what the log does, cut to the first max: the k-th
    observation is answered with min(k, max + 1), and a refusal with 1.
  */
  lemma RecordRefinesLog<T>(log: Rows<T>, lim: Limits, token: string, now: int, make: nat -> T)
    requires lim.maxPerToken > 0
    ensures var r := Recorded(RetainedRows(log, lim.maxPerToken), lim, token, now, make);
            var after := Logged(log, lim, token, now, make);
            r.rows == RetainedRows(after, lim.maxPerToken)
            && (r.full <==> token !in after)
            && r.seen == (if r.full then 1 else Min(Position(after, token), lim.maxPerToken + 1))
  {
    var max := lim.maxPerToken;
    var live := Swept(log, now, lim.ttl);
    SweptRetained(log, max, now, lim.ttl);
    SweptRetained(live, max, now, lim.ttl);
    var life := Open(live, token, now);
    OpenRetained(live, max, token, now);
    KeptRefines(life, max, make);
    RetainedUpdate(live, max, token, Noted(life, make));
  }

  /** The count a call returns is its true position exactly up to one past what is retained. */
  lemma SeenIsTruthfulIff<T>(log: Rows<T>, lim: Limits, token: string, now: int, make: nat -> T)
    requires lim.maxPerToken > 0
    ensures var r := Recorded(RetainedRows(log, lim.maxPerToken), lim, token, now, make);
            var k := Position(Logged(log, lim, token, now, make), token);
            !r.full ==> (r.seen == k <==> k <= lim.maxPerToken + 1)
  {
    RecordRefinesLog(log, lim, token, now, make);
  }

  /**
    Any run of calls, timestamps in any order: the store is the log, cut to its retained
    part, and every call is answered as the log has it.
  */
  lemma {:induction false} StoreRefinesLog<T>(log: Rows<T>, lim: Limits, calls: seq<Call<T>>)
    requires lim.maxPerToken > 0
    ensures RunStore(RetainedRows(log, lim.maxPerToken), lim, calls) == RetainedRows(RunLog(log, lim, calls), lim.maxPerToken)
    ensures Answers(RetainedRows(log, lim.maxPerToken), lim, calls) == Due(log, lim, calls)
    decreases |calls|
  {
    if calls != [] {
      match calls[0] {
        case Record(token, now, make) => RecordRefinesLog(log, lim, token, now, make);
        case Lookup(now) => SweptRetained(log, lim.maxPerToken, now, lim.ttl);
      }
      StoreRefinesLog(LogStep(log, lim, calls[0]), lim, calls[1..]);
    }
  }

  // ---------------------------------------------------------------------------
  // Bounds and retention
  // ---------------------------------------------------------------------------

  lemma SweptIsSmaller<T>(rows: Rows<T>, now: int, ttl: int)
    ensures |Swept(rows, now, ttl)| <= |rows|
  {
    var live := Swept(rows, now, ttl);
    SubsetSize(live.Keys, rows.Keys);
    assert |live| == |live.Keys| && |rows| == |rows.Keys|;
  }

  lemma {:induction false} SubsetSize<X>(a: set<X>, b: set<X>)
    requires a <= b
    ensures |a| <= |b|
    decreases a
  {
    if a != {} {
      var x :| x in a;
      SubsetSize(a - {x}, b - {x});
    }
  }

  predicate WithinCeilings<T>(rows: Rows<T>, lim: Limits) {
    |rows| <= lim.maxTokens && forall t :: t in rows ==> |rows[t].recs| <= lim.maxPerToken
  }

  lemma RecordStaysWithin<T>(rows: Rows<T>, lim: Limits, token: string, now: int, make: nat -> T)
    requires WithinCeilings(rows, lim) && lim.maxPerToken > 0
    ensures WithinCeilings(Recorded(rows, lim, token, now, make).rows, lim)
  {
    SweptIsSmaller(rows, now, lim.ttl);
    var live := Swept(rows, now, lim.ttl);
    var after := Recorded(rows, lim, token, now, make).rows;
    if token !in live && |live| < lim.maxTokens {
      assert after.Keys == live.Keys + {token};
    } else {
      assert after.Keys == live.Keys;
    }
  }

  /** Both ceilings hold after any run of calls. */
  lemma {:induction false} EveryRunStaysWithin<T>(rows: Rows<T>, lim: Limits, calls: seq<Call<T>>)
    requires WithinCeilings(rows, lim) && lim.maxPerToken > 0
    ensures WithinCeilings(RunStore(rows, lim, calls), lim)
    decreases |calls|
  {
    if calls != [] {
      match calls[0] {
        case Record(token, now, make) => RecordStaysWithin(rows, lim, token, now, make);
        case Lookup(now) => SweptIsSmaller(rows, now, lim.ttl);
      }
      EveryRunStaysWithin(StoreStep(rows, lim, calls[0]), lim, calls[1..]);
    }
  }

  /** A new store, after any run of calls. */
  lemma EveryRunFromEmpty<T>(lim: Limits, calls: seq<Call<T>>)
    requires lim.maxTokens > 0 && lim.maxPerToken > 0
    ensures RunStore(map[], lim, calls) == RetainedRows(RunLog(map[], lim, calls), lim.maxPerToken)
    ensures Answers(map[], lim, calls) == Due(map[], lim, calls)
    ensures WithinCeilings(RunStore(map[], lim, calls), lim)
  {
    var empty: Rows<T> := map[];
    assert RetainedRows(empty, lim.maxPerToken) == empty;
    StoreRefinesLog(empty, lim, calls);
    EveryRunStaysWithin(empty, lim, calls);
  }

  /** A row leaves only by age: until then it keeps its first-seen time and everything retained. */
  lemma NothingLeavesEarly<T>(rows: Rows<T>, lim: Limits, token: string, now: int, make: nat -> T, t: string)
    requires t in rows
    ensures var after := Recorded(rows, lim, token, now, make).rows;
            if Expired(rows[t].first, now, lim.ttl) then t in after ==> t == token && after[t].first == now
            else t in after && after[t].first == rows[t].first && rows[t].recs <= after[t].recs
  {
  }

  /** Over any run none of whose calls comes past its expiry, a row stays and only grows. */
  lemma {:induction false} LivesUntilExpiry<T>(rows: Rows<T>, lim: Limits, calls: seq<Call<T>>, t: string)
    requires t in rows && forall c :: c in calls ==> c.now - rows[t].first <= lim.ttl
    ensures var after := RunStore(rows, lim, calls);
            t in after && after[t].first == rows[t].first && rows[t].recs <= after[t].recs
    decreases |calls|
  {
    if calls != [] {
      var c := calls[0];
      assert c in calls;
      if c.Record? {
        NothingLeavesEarly(rows, lim, c.token, c.now, c.make, t);
      }
      LivesUntilExpiry(StoreStep(rows, lim, c), lim, calls[1..], t);
    }
  }
}
