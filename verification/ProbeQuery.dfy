/**
  The grammar of probe query names below the zone: modifier labels, then the token. A
  parser and a renderer, and the two neighbouring grammars no name may also belong to.
*/
module ProbeQuery {
  import opened Wrappers
  import opened Names
  import opened Modifiers

  datatype Query = Query(token: string, mods: bv16)

  predicate HexLower(c: char) {
    '0' <= c <= '9' || 'a' <= c <= 'f'
  }

  predicate ValidToken(t: string) {
    8 <= |t| <= 32 && forall i :: 0 <= i < |t| ==> HexLower(t[i])
  }

  predicate ValidQuery(q: Query) {
    ValidToken(q.token) && ValidMods(q.mods)
  }

  // ---------------------------------------------------------------------------
  // Labels one at a time
  // ---------------------------------------------------------------------------

  function ParseToken(l: string): Option<string> {
    if ValidToken(Fold(l)) then Some(Fold(l)) else None
  }

  method ParseTokenLabel(l: string) returns (r: Option<string>)
    ensures r == ParseToken(l)
  {
    if |l| < 8 || |l| > 32 {
      return None;
    }
    var lower := LowerAscii(l);
    var i := 0;
    while i < |lower|
      invariant 0 <= i <= |lower|
      invariant forall j :: 0 <= j < i ==> HexLower(lower[j])
    {
      if !HexLower(lower[i]) {
        return None;
      }
      i := i + 1;
    }
    return Some(lower);
  }

  const MAX_MODIFIER_LABEL: int := 16

  function LookupModifier(name: string): Option<Slot> {
    if |name| > MAX_MODIFIER_LABEL then None else Lookup(Fold(name))
  }

  /** Folds into a fixed buffer and looks the written part up. */
  method LookupModifierLabel(name: string) returns (r: Option<Slot>)
    ensures r == LookupModifier(name)
  {
    if |name| > MAX_MODIFIER_LABEL {
      return None;
    }
    var buf := new char[MAX_MODIFIER_LABEL](_ => '\0');
    var i := 0;
    while i < |name|
      invariant 0 <= i <= |name|
      invariant forall j :: 0 <= j < i ==> buf[j] == FoldByte(name[j])
    {
      var c := name[i];
      if 'A' <= c <= 'Z' {
        c := (c as int + 32) as char;
      }
      buf[i] := c;
      i := i + 1;
    }
    assert buf[..|name|] == Fold(name);
    return Lookup(buf[..|name|]);
  }

  /** The modifier a label names, if it is a modifier label at all. */
  function ModifierOf(l: string): Option<Slot> {
    if l == "" || l[0] != '_' then None else LookupModifier(l[1..])
  }

  /** Adds a label's modifier to the set; an unknown or repeated one fails the parse. */
  function AddLabel(m: bv16, l: string): Option<bv16> {
    var k := ModifierOf(l);
    if k.None? || Has(m, Bit(k.value)) then None else Some(m | Bit(k.value))
  }

  /** The modifier labels left to right, cut off at each dot. */
  function ParseMods(mods: string, m: bv16): Option<bv16>
    decreases |mods|
  {
    if mods == "" then Some(m)
    else
      var i := IndexByte(mods, '.');
      var next := AddLabel(m, mods[..i]);
      if next.None? then None
      else ParseMods(if i < |mods| then mods[i + 1..] else "", next.value)
  }

  /** Position of the last byte equal to c; -1 for none. */
  function LastIndexByte(s: string, c: char): (i: int)
    ensures -1 <= i < |s|
    ensures i >= 0 ==> s[i] == c
  {
    if s == "" then -1 else if s[|s| - 1] == c then |s| - 1 else LastIndexByte(s[..|s| - 1], c)
  }

  lemma {:induction false} LastIndexByteNone(s: string, c: char)
    requires c !in s
    ensures LastIndexByte(s, c) == -1
  {
    if s != "" {
      LastIndexByteNone(s[..|s| - 1], c);
    }
  }

  function TrimDot(s: string): string {
    if s != "" && s[|s| - 1] == '.' then s[..|s| - 1] else s
  }

  datatype Cut = Cut(front: string, last: string)

  /** The last label, and what comes before its dot (nothing, if it is the only one). */
  function CutLast(s: string): Cut {
    var i := LastIndexByte(s, '.');
    if i < 0 then Cut("", s) else Cut(s[..i], s[i + 1..])
  }

  function Assemble(token: Option<string>, mods: Option<bv16>): Option<Query> {
    if token.None? || mods.None? || !ValidMods(mods.value) then None else Some(Query(token.value, mods.value))
  }

  function ParseQuery(sub: string): Option<Query> {
    var cut := CutLast(TrimDot(sub));
    Assemble(ParseToken(cut.last), ParseMods(cut.front, 0))
  }

  /** The parser as it runs: the token first, then a loop that cuts labels off the front. */
  method ParseQueryName(sub: string) returns (r: Option<Query>)
    ensures r == ParseQuery(sub)
  {
    var s := TrimDot(sub);
    if s == "" {
      assert CutLast(s).last == "";
      return None;
    }
    var cut := CutLast(s);
    var token := ParseTokenLabel(cut.last);
    if token.None? {
      return None;
    }
    var mods := ParseModLabels(cut.front);
    if mods.None? || !ValidMods(mods.value) {
      return None;
    }
    return Some(Query(token.value, mods.value));
  }

  method ParseModLabels(front: string) returns (r: Option<bv16>)
    ensures r == ParseMods(front, 0)
  {
    var rest, mods: bv16 := front, 0;
    while rest != ""
      invariant ParseMods(rest, mods) == ParseMods(front, 0)
      decreases |rest|
    {
      var i := IndexByte(rest, '.');
      var next := AddModLabel(mods, rest[..i]);
      if next.None? {
        return None;
      }
      mods := next.value;
      rest := if i < |rest| then rest[i + 1..] else "";
    }
    return Some(mods);
  }

  method AddModLabel(m: bv16, l: string) returns (r: Option<bv16>)
    ensures r == AddLabel(m, l)
  {
    if l == "" || l[0] != '_' {
      return None;
    }
    var k := LookupModifierLabel(l[1..]);
    if k.None? || Has(m, Bit(k.value)) {
      return None;
    }
    return Some(m | Bit(k.value));
  }

  // ---------------------------------------------------------------------------
  // Any spelling of a valid query parses to it
  // ---------------------------------------------------------------------------

  predicate DotFree(s: string) {
    forall i :: 0 <= i < |s| ==> s[i] != '.'
  }

  /** Labels, each followed by a dot, and then a last one. */
  function Dotted(ls: seq<string>, last: string): string {
    if ls == [] then last else ls[0] + "." + Dotted(ls[1..], last)
  }

  /** A label that spells modifier k, in any mixture of case. */
  predicate Spells(l: string, k: Slot) {
    Fold(l) == "_" + NameOf(k)
  }

  lemma NamesAreDotFree(k: Slot)
    ensures DotFree(NameOf(k))
  {
  }

  lemma SpelledModifier(l: string, k: Slot)
    requires Spells(l, k)
    ensures ModifierOf(l) == Some(k) && DotFree(l) && l != ""
  {
    LookupNames(k);
    NamesAreShort(k);
    NamesAreDotFree(k);
    assert |l| == |Fold(l)| && FoldByte(l[0]) == Fold(l)[0] == '_';
    assert Fold(l[1..]) == Fold(l)[1..] == NameOf(k);
    forall i | 0 <= i < |l|
      ensures l[i] != '.'
    {
      assert Fold(l)[i] == FoldByte(l[i]);
      assert i > 0 ==> Fold(l)[i] == NameOf(k)[i - 1];
    }
  }

  /** The set a list of distinct modifiers builds up. */
  function Union(m: bv16, ks: seq<Slot>): bv16
    decreases |ks|
  {
    if ks == [] then m else Union(m | Bit(ks[0]), ks[1..])
  }

  predicate Distinct(ks: seq<Slot>) {
    forall i, j :: 0 <= i < j < |ks| ==> ks[i] != ks[j]
  }

  predicate SpelledBy(ks: seq<Slot>, ls: seq<string>) {
    |ks| == |ls| && forall i :: 0 <= i < |ls| ==> Spells(ls[i], ks[i])
  }

  /** The modifier part of a dotted name: everything before the last dot. */
  function Front(ls: seq<string>): string
    requires ls != []
  {
    Dotted(ls[..|ls| - 1], ls[|ls| - 1])
  }

  lemma SpelledLabel(l: string, k: Slot, m: bv16)
    requires Spells(l, k) && !Has(m, Bit(k))
    ensures AddLabel(m, l) == Some(m | Bit(k)) && DotFree(l) && l != ""
  {
    SpelledModifier(l, k);
  }

  /** The last label of the modifier part. */
  lemma LastLabel(l: string, m: bv16, next: bv16)
    requires l != "" && DotFree(l) && AddLabel(m, l) == Some(next)
    ensures ParseMods(l, m) == Some(next)
  {
    IndexByteAfter(l, "", '.');
    assert l + "" == l && l[..|l|] == l;
    assert ParseMods("", next) == Some(next);
  }

  /** A label at the front of the modifier part. */
  lemma FrontLabel(l: string, rest: string, m: bv16, next: bv16)
    requires l != "" && DotFree(l) && AddLabel(m, l) == Some(next)
    ensures ParseMods(l + "." + rest, m) == ParseMods(rest, next)
  {
    var s := l + "." + rest;
    IndexByteAfter(l, "." + rest, '.');
    assert s == l + ("." + rest);
    assert s[..|l|] == l && s[|l| + 1..] == rest;
  }

  lemma FrontCons(ls: seq<string>)
    requires |ls| > 1
    ensures Front(ls) == ls[0] + "." + Front(ls[1..])
  {
    assert ls[..|ls| - 1][1..] == ls[1..][..|ls| - 2];
  }

  lemma StillMissing(m: bv16, ks: seq<Slot>)
    requires ks != [] && Distinct(ks) && forall i :: 0 <= i < |ks| ==> !Has(m, Bit(ks[i]))
    ensures Distinct(ks[1..]) && forall i :: 0 <= i < |ks[1..]| ==> !Has(m | Bit(ks[0]), Bit(ks[1..][i]))
  {
    forall i | 0 <= i < |ks[1..]|
      ensures !Has(m | Bit(ks[0]), Bit(ks[1..][i]))
    {
      OrHas(m, ks[0], ks[i + 1]);
    }
  }

  lemma {:induction false} ModsParse(ls: seq<string>, ks: seq<Slot>, m: bv16)
    requires ls != [] && SpelledBy(ks, ls) && Distinct(ks)
    requires forall i :: 0 <= i < |ks| ==> !Has(m, Bit(ks[i]))
    ensures ParseMods(Front(ls), m) == Some(Union(m, ks))
    decreases |ls|
  {
    assert Spells(ls[0], ks[0]);
    var m' := m | Bit(ks[0]);
    SpelledLabel(ls[0], ks[0], m);
    if |ls| == 1 {
      LastLabel(ls[0], m, m');
      assert ks[1..] == [];
    } else {
      FrontCons(ls);
      FrontLabel(ls[0], Front(ls[1..]), m, m');
      StillMissing(m, ks);
      ModsParse(ls[1..], ks[1..], m');
    }
  }

  lemma {:induction false} UnionHas(m: bv16, ks: seq<Slot>, j: Slot)
    ensures Has(Union(m, ks), Bit(j)) <==> Has(m, Bit(j)) || j in ks
    decreases |ks|
  {
    if ks != [] {
      OrHas(m, ks[0], j);
      UnionHas(m | Bit(ks[0]), ks[1..], j);
    }
  }

  lemma {:induction false} UnionStaysDefined(m: bv16, ks: seq<Slot>)
    requires m >> 9 == 0
    ensures Union(m, ks) >> 9 == 0
    decreases |ks|
  {
    if ks != [] {
      OrStaysDefined(m, ks[0]);
      UnionStaysDefined(m | Bit(ks[0]), ks[1..]);
    }
  }

  /** ks lists each modifier of m once, in some order. */
  ghost predicate Lists(ks: seq<Slot>, m: bv16) {
    Distinct(ks) && forall k: Slot :: k in ks <==> Has(m, Bit(k))
  }

  lemma UnionOfListing(ks: seq<Slot>, m: bv16)
    requires Lists(ks, m) && m >> 9 == 0
    ensures Union(0, ks) == m
  {
    UnionStaysDefined(0, ks);
    forall j: Slot
      ensures Has(Union(0, ks), Bit(j)) <==> Has(m, Bit(j))
    {
      UnionHas(0, ks, j);
    }
    BitsDetermine(Union(0, ks), m);
  }

  lemma {:induction false} DottedSplits(ls: seq<string>, last: string)
    requires ls != []
    ensures Dotted(ls, last) == Front(ls) + "." + last
    decreases |ls|
  {
    if |ls| > 1 {
      DottedSplits(ls[1..], last);
      FrontCons(ls);
    } else {
      assert ls[1..] == [];
    }
  }

  lemma {:induction false} LastDotBefore(a: string, b: string)
    requires DotFree(b)
    ensures LastIndexByte(a + "." + b, '.') == |a|
  {
    var s := a + "." + b;
    if b == "" {
      assert s == a + ".";
    } else {
      var init := b[..|b| - 1];
      assert s[..|s| - 1] == a + "." + init;
      LastDotBefore(a, init);
    }
  }

  lemma TokenIsDotFree(t: string)
    requires ValidToken(Fold(t))
    ensures DotFree(t) && t != "" && t[|t| - 1] != '.'
  {
    forall i | 0 <= i < |t|
      ensures t[i] != '.'
    {
      assert HexLower(Fold(t)[i]) && Fold(t)[i] == FoldByte(t[i]);
    }
  }

  lemma CutAtLastDot(front: string, t: string)
    requires DotFree(t) && t != ""
    ensures TrimDot(t) == t && CutLast(t) == Cut("", t)
    ensures TrimDot(front + "." + t) == front + "." + t && CutLast(front + "." + t) == Cut(front, t)
  {
    var s := front + "." + t;
    LastDotBefore(front, t);
    assert s[|s| - 1] == t[|t| - 1] && s[|front| + 1..] == t && s[..|front|] == front;
  }

  /** A token alone is the baseline query; before it comes the modifier part. */
  lemma TokenParses(front: string, t: string)
    requires ValidToken(Fold(t))
    ensures ParseQuery(t) == Assemble(Some(Fold(t)), ParseMods("", 0))
    ensures ParseQuery(front + "." + t) == Assemble(Some(Fold(t)), ParseMods(front, 0))
  {
    TokenIsDotFree(t);
    CutAtLastDot(front, t);
  }

  lemma FinalDotIsIgnored(s: string)
    requires s != "" && s[|s| - 1] != '.'
    ensures ParseQuery(s + ".") == ParseQuery(s)
  {
    assert TrimDot(s + ".") == s && TrimDot(s) == s;
  }

  lemma {:induction false} DottedEnds(ls: seq<string>, last: string)
    requires last != ""
    ensures Dotted(ls, last) != "" && Dotted(ls, last)[|Dotted(ls, last)| - 1] == last[|last| - 1]
    decreases |ls|
  {
    if ls != [] {
      DottedEnds(ls[1..], last);
    }
  }

  /**
    Every spelling of a valid query parses back to it: modifier labels in any order, any
    mixture of case anywhere, with or without the final dot.
  */
  lemma AnySpellingParses(q: Query, ks: seq<Slot>, ls: seq<string>, t: string)
    requires ValidQuery(q) && Lists(ks, q.mods) && SpelledBy(ks, ls) && Fold(t) == q.token
    ensures ParseQuery(Dotted(ls, t)) == Some(q)
    ensures ParseQuery(Dotted(ls, t) + ".") == Some(q)
  {
    UnionOfListing(ks, q.mods);
    if ls == [] {
      TokenParses("", t);
    } else {
      NothingInEmpty(ks);
      ModsParse(ls, ks, 0);
      DottedSplits(ls, t);
      TokenParses(Front(ls), t);
    }
    TokenIsDotFree(t);
    DottedEnds(ls, t);
    FinalDotIsIgnored(Dotted(ls, t));
  }

  // ---------------------------------------------------------------------------
  // And nothing else parses
  // ---------------------------------------------------------------------------

  /**
    A name that spells query q: modifier labels, each of q's modifiers once and in any
    order and case, then the token. The loop also lets one empty label stand between the
    two, and a final dot is ignored.
  */
  ghost predicate SpellsQuery(sub: string, q: Query, ks: seq<Slot>, ls: seq<string>, t: string) {
    && Lists(ks, q.mods) && SpelledBy(ks, ls)
    && Fold(t) == q.token && 8 <= |t| <= 32 && (forall i :: 0 <= i < |t| ==> HexDigit(t[i]))
    && TrimDot(sub) in {Dotted(ls, t), Dotted(ls, "." + t)}
  }

  predicate HexDigit(c: char) {
    HexLower(FoldByte(c))
  }

  lemma ModifierIsSpelled(l: string)
    requires ModifierOf(l).Some?
    ensures Spells(l, ModifierOf(l).value)
  {
    var k := ModifierOf(l).value;
    SearchFinds(Fold(l[1..]), 0);
    assert NameOf(k) == Fold(l[1..]);
    assert l == "_" + l[1..];
    FoldConcat("_", l[1..]);
    assert Fold("_") == "_";
  }

  lemma ConsIsFresh(m: bv16, k: Slot, ks: seq<Slot>)
    requires !Has(m, Bit(k)) && Distinct(ks) && forall i :: 0 <= i < |ks| ==> !Has(m | Bit(k), Bit(ks[i]))
    ensures Distinct([k] + ks) && forall i :: 0 <= i < |ks| + 1 ==> !Has(m, Bit(([k] + ks)[i]))
  {
    var all := [k] + ks;
    forall i | 0 < i < |all|
      ensures all[i] != k && !Has(m, Bit(all[i]))
    {
      OrHas(m, k, all[i]);
      assert all[i] == ks[i - 1];
    }
    forall i, j | 0 <= i < j < |all|
      ensures all[i] != all[j]
    {
      assert all[j] == ks[j - 1] && (i > 0 ==> all[i] == ks[i - 1]);
    }
  }

  /** What a modifier part that parses consists of; an empty label may end it. */
  ghost predicate FrontOf(mods: string, ls: seq<string>) {
    if ls == [] then mods == "" else mods == Front(ls) || mods == Front(ls) + "."
  }

  lemma FrontOfOne(l: string)
    ensures FrontOf(l, [l]) && FrontOf(l + "." + "", [l])
  {
    assert [l][..0] == [] && Front([l]) == Dotted([], l) == l;
    assert l + "." + "" == l + ".";
  }

  lemma FrontOfMore(l: string, rest: string, ls: seq<string>)
    requires ls != [] && FrontOf(rest, ls)
    ensures FrontOf(l + "." + rest, [l] + ls)
  {
    var all := [l] + ls;
    assert all[1..] == ls;
    FrontCons(all);
    assert Front(all) == l + "." + Front(ls);
    assert l + "." + (Front(ls) + ".") == Front(all) + ".";
  }

  lemma FrontIsNotEmpty(ls: seq<string>)
    requires ls != [] && ls[0] != ""
    ensures Front(ls) != ""
  {
    if |ls| > 1 {
      FrontCons(ls);
    }
  }

  lemma LabelInvert(m: bv16, l: string)
    requires AddLabel(m, l).Some?
    ensures ModifierOf(l).Some? && Spells(l, ModifierOf(l).value) && !Has(m, Bit(ModifierOf(l).value))
    ensures AddLabel(m, l) == Some(m | Bit(ModifierOf(l).value))
  {
    ModifierIsSpelled(l);
  }

  /** One label cut off the front, and the rest. */
  function RestOf(mods: string): string {
    var i := IndexByte(mods, '.');
    if i < |mods| then mods[i + 1..] else ""
  }

  lemma ModsUnfold(mods: string, m: bv16)
    requires mods != "" && ParseMods(mods, m).Some?
    ensures var l := mods[..IndexByte(mods, '.')];
            AddLabel(m, l).Some? && ParseMods(mods, m) == ParseMods(RestOf(mods), AddLabel(m, l).value)
    ensures |RestOf(mods)| < |mods|
  {
  }

  lemma CutFirst(mods: string)
    requires mods != ""
    ensures var i := IndexByte(mods, '.');
            if i < |mods| then mods == mods[..i] + "." + RestOf(mods) else mods == mods[..i] && RestOf(mods) == ""
  {
    var i := IndexByte(mods, '.');
    if i < |mods| {
      CutAt(mods, i);
    }
  }

  lemma CutAt(s: string, i: nat)
    requires i < |s| && s[i] == '.'
    ensures s == s[..i] + "." + s[i + 1..]
  {
  }

  lemma Grouped(a: string, b: string, c: string)
    ensures a + b + c == a + (b + c) && a + "" == a
  {
  }

  lemma FrontOne(ls: seq<string>)
    requires |ls| == 1
    ensures Front(ls) == ls[0]
  {
    assert ls[..0] == [];
  }

  lemma FrontOfCons(mods: string, ls: seq<string>)
    requires mods != "" && FrontOf(RestOf(mods), ls) && (RestOf(mods) == "" ==> ls == [])
    ensures FrontOf(mods, [mods[..IndexByte(mods, '.')]] + ls)
  {
    CutFirst(mods);
    var l := mods[..IndexByte(mods, '.')];
    if ls == [] {
      FrontOfOne(l);
      assert [l] + ls == [l];
    } else {
      FrontOfMore(l, RestOf(mods), ls);
    }
  }

  lemma {:induction false} ModsInvert(mods: string, m: bv16) returns (ks: seq<Slot>, ls: seq<string>)
    requires ParseMods(mods, m).Some?
    ensures SpelledBy(ks, ls) && Distinct(ks) && FrontOf(mods, ls)
    ensures forall i :: 0 <= i < |ks| ==> !Has(m, Bit(ks[i]))
    ensures ParseMods(mods, m) == Some(Union(m, ks))
    decreases |mods|
  {
    if mods == "" {
      ks, ls := [], [];
    } else {
      var l := mods[..IndexByte(mods, '.')];
      ModsUnfold(mods, m);
      LabelInvert(m, l);
      var k := ModifierOf(l).value;
      var ks', ls' := ModsInvert(RestOf(mods), m | Bit(k));
      if RestOf(mods) == "" {
        EmptyFront(ls', ks');
      }
      FrontOfCons(mods, ls');
      ConsIsFresh(m, k, ks');
      UnionCons(m, k, ks');
      ks, ls := [k] + ks', [l] + ls';
      SpelledCons(k, ks', l, ls');
    }
  }

  lemma UnionCons(m: bv16, k: Slot, ks: seq<Slot>)
    ensures Union(m, [k] + ks) == Union(m | Bit(k), ks)
  {
    assert ([k] + ks)[1..] == ks;
  }

  lemma SpelledCons(k: Slot, ks: seq<Slot>, l: string, ls: seq<string>)
    requires SpelledBy(ks, ls) && Spells(l, k)
    ensures SpelledBy([k] + ks, [l] + ls)
  {
  }

  lemma EmptyFront(ls: seq<string>, ks: seq<Slot>)
    requires FrontOf("", ls) && SpelledBy(ks, ls)
    ensures ls == []
  {
    if ls != [] {
      SpelledModifier(ls[0], ks[0]);
      FrontIsNotEmpty(ls);
    }
  }

  lemma ParsedIsSpelled(sub: string, q: Query) returns (ks: seq<Slot>, ls: seq<string>, t: string)
    requires ParseQuery(sub) == Some(q)
    ensures SpellsQuery(sub, q, ks, ls, t)
  {
    var s := TrimDot(sub);
    var cut := CutLast(s);
    t := cut.last;
    ks, ls := ModsInvert(cut.front, 0);
    forall k: Slot
      ensures k in ks <==> Has(q.mods, Bit(k))
    {
      UnionHas(0, ks, k);
      NothingInEmpty([k]);
      assert [k][0] == k;
    }
    forall i | 0 <= i < |t|
      ensures HexDigit(t[i])
    {
      assert Fold(t)[i] == FoldByte(t[i]);
    }
    if ls != [] {
      SpelledModifier(ls[0], ks[0]);
    }
    Reassembled(s, ls);
  }

  lemma DotBehind(mods: string)
    requires mods != "" && mods[|mods| - 1] != '.'
    ensures var i := IndexByte(mods, '.');
            && IndexByte(mods + ".", '.') == i && (mods + ".")[..i] == mods[..i]
            && RestOf(mods + ".") == (if i < |mods| then RestOf(mods) + "." else "")
            && (i < |mods| ==> RestOf(mods) != "" && RestOf(mods)[|RestOf(mods)| - 1] != '.')
  {
    var i := IndexByte(mods, '.');
    IndexByteIsFirst(mods, '.');
    IndexByteAfter(mods[..i], mods[i..] + ".", '.');
    assert mods[..i] + (mods[i..] + ".") == mods + ".";
  }

  /** An empty label at the end of the modifier part makes no difference. */
  lemma {:induction false} TrailingDot(mods: string, m: bv16)
    requires mods != "" && mods[|mods| - 1] != '.'
    ensures ParseMods(mods + ".", m) == ParseMods(mods, m)
    decreases |mods|
  {
    var i := IndexByte(mods, '.');
    DotBehind(mods);
    ModsStep(mods, m);
    ModsStep(mods + ".", m);
    var next := AddLabel(m, mods[..i]);
    if i < |mods| && next.Some? {
      TrailingDot(RestOf(mods), next.value);
    }
  }

  lemma ModsStep(mods: string, m: bv16)
    requires mods != ""
    ensures var next := AddLabel(m, mods[..IndexByte(mods, '.')]);
            ParseMods(mods, m) == if next.None? then None else ParseMods(RestOf(mods), next.value)
  {
  }

  lemma FrontEnds(ls: seq<string>, ks: seq<Slot>)
    requires ls != [] && SpelledBy(ks, ls)
    ensures Front(ls) != "" && Front(ls)[|Front(ls)| - 1] != '.'
  {
    var n := |ls| - 1;
    SpelledModifier(ls[n], ks[n]);
    DottedEnds(ls[..n], ls[n]);
  }

  lemma EmptyFirst(t: string)
    ensures "" + "." + t == "." + t
  {
  }

  lemma EmptyLabelParses(q: Query, ks: seq<Slot>, ls: seq<string>, t: string)
    requires ValidQuery(q) && Lists(ks, q.mods) && SpelledBy(ks, ls) && Fold(t) == q.token
    ensures ParseQuery(Dotted(ls, "." + t)) == Some(q)
  {
    UnionOfListing(ks, q.mods);
    if ls == [] {
      TokenParses("", t);
      EmptyFirst(t);
    } else {
      NothingInEmpty(ks);
      ModsParse(ls, ks, 0);
      FrontEnds(ls, ks);
      TrailingDot(Front(ls), 0);
      DottedSplits(ls, "." + t);
      Grouped(Front(ls) + ".", ".", t);
      TokenParses(Front(ls) + ".", t);
    }
  }

  /** The parser looks at a name without its final dot. */
  lemma ParsesTrimmed(sub: string, s: string)
    requires TrimDot(sub) == s == TrimDot(s)
    ensures ParseQuery(sub) == ParseQuery(s)
  {
  }

  lemma SpelledIsParsed(sub: string, q: Query, ks: seq<Slot>, ls: seq<string>, t: string)
    requires ValidMods(q.mods) && SpellsQuery(sub, q, ks, ls, t)
    ensures ParseQuery(sub) == Some(q)
  {
    assert ValidToken(Fold(t)) by {
      assert forall i :: 0 <= i < |t| ==> Fold(t)[i] == FoldByte(t[i]);
    }
    TokenIsDotFree(t);
    AnySpellingParses(q, ks, ls, t);
    EmptyLabelParses(q, ks, ls, t);
    DottedEnds(ls, t);
    DottedEnds(ls, "." + t);
    ParsesTrimmed(sub, TrimDot(sub));
  }

  /** A name parses to a query exactly when it spells it and its modifiers go together. */
  lemma ParsesExactly(sub: string, q: Query)
    ensures ParseQuery(sub) == Some(q) <==> ValidMods(q.mods) && exists ks, ls, t :: SpellsQuery(sub, q, ks, ls, t)
  {
    if ParseQuery(sub) == Some(q) {
      var ks, ls, t := ParsedIsSpelled(sub, q);
    }
    if ks, ls, t :| ValidMods(q.mods) && SpellsQuery(sub, q, ks, ls, t) {
      SpelledIsParsed(sub, q, ks, ls, t);
    }
  }

  lemma Reassembled(s: string, ls: seq<string>)
    requires FrontOf(CutLast(s).front, ls) && (ls != [] ==> ls[0] != "")
    ensures s in {Dotted(ls, CutLast(s).last), Dotted(ls, "." + CutLast(s).last)}
  {
    var i := LastIndexByte(s, '.');
    var front, t := CutLast(s).front, CutLast(s).last;
    if i >= 0 {
      CutAt(s, i);
    }
    if ls == [] {
      EmptyFirst(t);
    } else {
      FrontIsNotEmpty(ls);
      DottedSplits(ls, t);
      DottedSplits(ls, "." + t);
      Grouped(Front(ls) + ".", ".", t);
    }
  }

  lemma NothingInEmpty(ks: seq<Slot>)
    ensures forall i :: 0 <= i < |ks| ==> !Has(0, Bit(ks[i]))
  {
  }

  // ---------------------------------------------------------------------------
  // The renderer
  // ---------------------------------------------------------------------------

  /** The modifiers of m from slot k on, in canonical order. */
  function Slots(m: bv16, k: nat): (ks: seq<Slot>)
    requires k <= 9
    ensures forall j :: j in ks ==> k <= j
    decreases 9 - k
  {
    if k == 9 then [] else (if Has(m, Bit(k)) then [k as Slot] else []) + Slots(m, k + 1)
  }

  function Labels(ks: seq<Slot>): (ls: seq<string>)
    ensures |ls| == |ks| && forall i :: 0 <= i < |ks| ==> ls[i] == "_" + NameOf(ks[i])
  {
    seq(|ks|, i requires 0 <= i < |ks| => "_" + NameOf(ks[i]))
  }

  /** What slot k contributes: its label with a dot, or nothing. */
  function Piece(m: bv16, k: Slot): string {
    if Has(m, Bit(k)) then "_" + NameOf(k) + "." else ""
  }

  function Pieces(m: bv16): (ps: seq<string>)
    ensures |ps| == 9 && forall k: Slot :: ps[k] == Piece(m, k)
  {
    seq(9, k requires 0 <= k < 9 => Piece(m, k))
  }

  function Concat(ps: seq<string>, last: string): string {
    if ps == [] then last else ps[0] + Concat(ps[1..], last)
  }

  /** The modifiers in canonical order, and the token last. */
  function Sub(q: Query): string {
    Concat(Pieces(q.mods), q.token)
  }

  lemma Regroup(s: string, ps: seq<string>, k: nat, last: string)
    requires k < |ps|
    ensures s + Concat(ps[k..], last) == (s + ps[k]) + Concat(ps[k + 1..], last)
  {
    assert ps[k..][1..] == ps[k + 1..];
  }

  method WritePiece(m: bv16, k: Slot, ghost ps: seq<string>) returns (piece: string)
    requires ps == Pieces(m)
    ensures piece == ps[k]
  {
    piece := "";
    if Has(m, Bit(k)) {
      piece := "_" + NameOf(k) + ".";
    }
  }

  method Render(q: Query) returns (s: string)
    ensures s == Sub(q)
  {
    ghost var ps := Pieces(q.mods);
    s := "";
    var k := 0;
    while k < 9
      invariant 0 <= k <= 9
      invariant s + Concat(ps[k..], q.token) == Concat(ps, q.token)
    {
      Regroup(s, ps, k, q.token);
      var piece := WritePiece(q.mods, k, ps);
      s := s + piece;
      k := k + 1;
    }
    s := s + q.token;
  }

  lemma WritesSlot(m: bv16, k: Slot, rest: string, last: string)
    requires Has(m, Bit(k)) && rest == Dotted(Labels(Slots(m, k + 1)), last)
    ensures Piece(m, k) + rest == Dotted(Labels(Slots(m, k)), last)
  {
    var ks := Slots(m, k);
    assert ks == [k] + Slots(m, k + 1);
    assert Labels(ks) == ["_" + NameOf(k)] + Labels(Slots(m, k + 1));
  }

  lemma SkipsSlot(m: bv16, k: Slot, rest: string)
    requires !Has(m, Bit(k))
    ensures Piece(m, k) + rest == rest && Slots(m, k) == Slots(m, k + 1)
  {
  }

  lemma ConcatStep(ps: seq<string>, k: nat, last: string)
    requires k < |ps|
    ensures Concat(ps[k..], last) == ps[k] + Concat(ps[k + 1..], last)
  {
    assert ps[k..][1..] == ps[k + 1..];
  }

  lemma {:induction false} WrittenIsDotted(q: Query, k: nat)
    requires k <= 9
    ensures Concat(Pieces(q.mods)[k..], q.token) == Dotted(Labels(Slots(q.mods, k)), q.token)
    decreases 9 - k
  {
    if k < 9 {
      WrittenIsDotted(q, k + 1);
      ConcatStep(Pieces(q.mods), k, q.token);
      var rest := Concat(Pieces(q.mods)[k + 1..], q.token);
      if Has(q.mods, Bit(k)) {
        WritesSlot(q.mods, k, rest, q.token);
      } else {
        SkipsSlot(q.mods, k, rest);
      }
    }
  }

  lemma ConsIsDistinct(k: Slot, ks: seq<Slot>)
    requires Distinct(ks) && forall j :: j in ks ==> k < j
    ensures Distinct([k] + ks)
  {
    var s := [k] + ks;
    forall i, j | 0 <= i < j < |s|
      ensures s[i] != s[j]
    {
      assert s[j] == ks[j - 1] && ks[j - 1] in ks && (i > 0 ==> s[i] == ks[i - 1]);
    }
  }

  lemma {:induction false} SlotsMembers(m: bv16, k: nat, j: Slot)
    requires k <= 9
    ensures j in Slots(m, k) <==> k <= j && Has(m, Bit(j))
    decreases 9 - k
  {
    if k < 9 {
      SlotsMembers(m, k + 1, j);
    }
  }

  lemma {:induction false} SlotsDistinct(m: bv16, k: nat)
    requires k <= 9
    ensures Distinct(Slots(m, k))
    decreases 9 - k
  {
    if k < 9 {
      SlotsDistinct(m, k + 1);
      var rest := Slots(m, k + 1);
      if Has(m, Bit(k)) {
        assert Slots(m, k) == [k as Slot] + rest;
        ConsIsDistinct(k, rest);
      } else {
        assert Slots(m, k) == rest;
      }
    }
  }

  lemma SlotsList(m: bv16)
    ensures Lists(Slots(m, 0), m)
  {
    SlotsDistinct(m, 0);
    forall j: Slot
      ensures j in Slots(m, 0) <==> Has(m, Bit(j))
    {
      SlotsMembers(m, 0, j);
    }
  }

  lemma NamesAreFolded(k: Slot)
    ensures Fold("_" + NameOf(k)) == "_" + NameOf(k)
  {
  }

  lemma TokensAreFolded(t: string)
    requires ValidToken(t)
    ensures Fold(t) == t
  {
    forall i | 0 <= i < |t|
      ensures FoldByte(t[i]) == t[i]
    {
      assert HexLower(t[i]);
    }
  }

  /** Rendering then parsing is the identity on valid queries. */
  lemma SubRoundTrip(q: Query)
    requires ValidQuery(q)
    ensures ParseQuery(Sub(q)) == Some(q)
  {
    var ks := Slots(q.mods, 0);
    SlotsList(q.mods);
    forall i | 0 <= i < |ks|
      ensures Spells(Labels(ks)[i], ks[i])
    {
      NamesAreFolded(ks[i]);
    }
    TokensAreFolded(q.token);
    AnySpellingParses(q, ks, Labels(ks), q.token);
    WrittenIsDotted(q, 0);
    assert Pieces(q.mods)[0..] == Pieces(q.mods);
  }

  /** A query validates if and only if the parser can produce it. */
  lemma ValidIffParsable(q: Query)
    ensures ValidQuery(q) <==> exists sub :: ParseQuery(sub) == Some(q)
  {
    if ValidQuery(q) {
      SubRoundTrip(q);
    }
  }

  // ---------------------------------------------------------------------------
  // Neighbouring grammars
  // ---------------------------------------------------------------------------

  /** Whether a name is exactly these labels, folding case, consumed label by label. */
  predicate LabelsEqualFold(name: string, labels: seq<string>) {
    if labels == [] then name == ""
    else
      var i := IndexByte(name, '.');
      if i < |name| then Fold(name[..i]) == Fold(labels[0]) && LabelsEqualFold(name[i + 1..], labels[1..])
      else |labels| == 1 && Fold(name) == Fold(labels[0])
  }

  method LabelsEqualFoldLoop(name: string, labels: seq<string>) returns (r: bool)
    ensures r == LabelsEqualFold(name, labels)
  {
    var rest := name;
    var i := 0;
    while i < |labels|
      invariant 0 <= i <= |labels|
      invariant LabelsEqualFold(rest, labels[i..]) == LabelsEqualFold(name, labels)
    {
      var j := IndexByte(rest, '.');
      var l := rest;
      assert labels[i..][1..] == labels[i + 1..];
      if j < |rest| {
        l, rest := rest[..j], rest[j + 1..];
      } else if i == |labels| - 1 {
        rest := "";
      } else {
        return false;
      }
      var same := EqualFoldAscii(l, labels[i]);
      if !same {
        return false;
      }
      i := i + 1;
    }
    return rest == "";
  }

  datatype Kind = NotDnssd | Browse | Instance | Enumerate

  const BROWSE: seq<string> := ["_services", "_dns-sd", "_udp"]
  const INSTANCE: seq<string> := ["probe", "_probe", "_tcp"]
  const ENUMERATE: seq<string> := ["_probe", "_tcp"]

  function ParseDnssd(sub: string): Kind {
    var s := TrimDot(sub);
    var cut := CutLast(s);
    if '.' !in s || ParseToken(cut.last).None? then NotDnssd
    else if LabelsEqualFold(cut.front, BROWSE) then Browse
    else if LabelsEqualFold(cut.front, INSTANCE) then Instance
    else if LabelsEqualFold(cut.front, ENUMERATE) then Enumerate
    else NotDnssd
  }

  function SplitDash(s: string): seq<string>
    decreases |s|
  {
    var i := IndexByte(s, '-');
    if i == |s| then [s] else [s[..i]] + SplitDash(s[i + 1..])
  }

  predicate KeyTag(p: string) {
    |p| == 4 && forall i :: 0 <= i < 4 ==> HexDigit(p[i])
  }

  /** A Key Tag query: one label, `_ta-`, then up to sixteen four-digit tags. */
  predicate IsKeyTagQuery(sub: string) {
    && '.' !in sub
    && |sub| > 4 && Fold(sub[..4]) == "_ta-"
    && |SplitDash(sub[4..])| <= 16
    && forall i :: 0 <= i < |SplitDash(sub[4..])| ==> KeyTag(SplitDash(sub[4..])[i])
  }

  /** A label that folds to a service label is no modifier. */
  lemma ServiceLabelIsNoModifier(l: string)
    requires Fold(l) == "_services" || Fold(l) == "probe" || Fold(l) == "_probe"
    ensures ModifierOf(l) == None
  {
    assert |l| == |Fold(l)| && FoldByte(l[0]) == Fold(l)[0];
    assert Fold(l[1..]) == Fold(l)[1..];
    assert "_services"[1..] == "services" && "_probe"[1..] == "probe";
    if Fold(l) != "probe" {
      var name := Fold(l[1..]);
      assert name == "services" || name == "probe";
      SearchFinds(name, 0);
      if Lookup(name).Some? {
        NoModifierIsNamedSo(Lookup(name).value);
      }
    }
  }

  lemma NoModifierIsNamedSo(k: Slot)
    ensures NameOf(k) != "services" && NameOf(k) != "probe"
  {
  }

  lemma FirstLabelDecides(name: string, labels: seq<string>, m: bv16)
    requires labels in {BROWSE, INSTANCE, ENUMERATE} && LabelsEqualFold(name, labels)
    ensures name != "" && ParseMods(name, m).None?
  {
    var i := IndexByte(name, '.');
    assert name[..|name|] == name;
    FoldedConstants();
    ServiceLabelIsNoModifier(name[..i]);
  }

  lemma FoldedConstants()
    ensures Fold("_services") == "_services" && Fold("probe") == "probe" && Fold("_probe") == "_probe"
  {
  }

  /** No name belongs to two of the three grammars. */
  lemma GrammarsAreDisjoint(sub: string)
    ensures !(ParseQuery(sub).Some? && ParseDnssd(sub) != NotDnssd)
    ensures !(ParseQuery(sub).Some? && IsKeyTagQuery(sub))
    ensures !(ParseDnssd(sub) != NotDnssd && IsKeyTagQuery(sub))
  {
    var s := TrimDot(sub);
    if ParseDnssd(sub) != NotDnssd {
      var labels := if ParseDnssd(sub) == Browse then BROWSE else if ParseDnssd(sub) == Instance then INSTANCE else ENUMERATE;
      FirstLabelDecides(CutLast(s).front, labels, 0);
    }
    if IsKeyTagQuery(sub) {
      LastIndexByteNone(s, '.');
      assert s == sub && CutLast(s) == Cut("", s);
      assert Fold(sub)[0] == FoldByte(sub[0]) == Fold(sub[..4])[0];
      assert !HexLower(Fold(sub)[0]);
    }
  }
}
