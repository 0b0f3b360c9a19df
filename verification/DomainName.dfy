/**
  Validated DNS names in dotted form without a trailing dot, and their wire form: length
  prefixed labels ended by the root label (RFC 1035 section 3.1).
*/
module DomainName {
  import opened Wrappers
  import opened Bytes

  const DOT: Byte := 46
  const MAX_LABEL: int := 63
  const MAX_NAME: int := 255

  // ---------------------------------------------------------------------------
  // Labels
  // ---------------------------------------------------------------------------

  /** Position of the first dot, |s| for none. */
  function FirstDot(s: seq<Byte>): (i: nat)
    ensures i <= |s|
    ensures i < |s| ==> s[i] == DOT
  {
    if s == [] || s[0] == DOT then 0 else 1 + FirstDot(s[1..])
  }

  function Split(s: seq<Byte>): (ls: seq<seq<Byte>>)
    ensures |ls| > 0
    decreases |s|
  {
    var i := FirstDot(s);
    if i == |s| then [s] else [s[..i]] + Split(s[i + 1..])
  }

  function Join(ls: seq<seq<Byte>>): seq<Byte> {
    if ls == [] then [] else if |ls| == 1 then ls[0] else ls[0] + [DOT] + Join(ls[1..])
  }

  predicate DotFree(s: seq<Byte>) {
    forall i :: 0 <= i < |s| ==> s[i] != DOT
  }

  predicate AllDotFree(ls: seq<seq<Byte>>) {
    forall i :: 0 <= i < |ls| ==> DotFree(ls[i])
  }

  lemma {:induction false} BeforeFirstDot(s: seq<Byte>)
    ensures DotFree(s[..FirstDot(s)])
  {
    var i := FirstDot(s);
    if i > 0 {
      BeforeFirstDot(s[1..]);
      assert s[..i] == [s[0]] + s[1..][..i - 1];
    }
  }

  lemma CutAt(s: seq<Byte>, i: nat)
    requires i < |s| && s[i] == DOT
    ensures s == s[..i] + [DOT] + s[i + 1..]
  {
  }

  lemma JoinCons(l: seq<Byte>, ls: seq<seq<Byte>>)
    requires ls != []
    ensures Join([l] + ls) == l + [DOT] + Join(ls)
  {
    assert ([l] + ls)[1..] == ls;
  }

  lemma {:induction false} SplitParts(s: seq<Byte>)
    ensures AllDotFree(Split(s)) && Join(Split(s)) == s
    decreases |s|
  {
    var i := FirstDot(s);
    BeforeFirstDot(s);
    if i < |s| {
      CutAt(s, i);
      SplitParts(s[i + 1..]);
      JoinCons(s[..i], Split(s[i + 1..]));
    } else {
      assert s[..i] == s;
    }
  }

  lemma {:induction false} FirstDotOf(a: seq<Byte>, b: seq<Byte>)
    requires DotFree(a) && (b == [] || b[0] == DOT)
    ensures FirstDot(a + b) == |a|
  {
    if a == [] {
      assert a + b == b;
    } else {
      assert (a + b)[1..] == a[1..] + b;
      FirstDotOf(a[1..], b);
    }
  }

  lemma SplitFirst(l: seq<Byte>, rest: seq<Byte>)
    requires DotFree(l)
    ensures Split(l + [DOT] + rest) == [l] + Split(rest)
  {
    var s := l + [DOT] + rest;
    FirstDotOf(l, [DOT] + rest);
    assert s == l + ([DOT] + rest);
    assert s[..|l|] == l && s[|l| + 1..] == rest;
  }

  lemma {:induction false} SplitJoined(ls: seq<seq<Byte>>)
    requires ls != [] && AllDotFree(ls)
    ensures Split(Join(ls)) == ls
  {
    if |ls| == 1 {
      FirstDotOf(ls[0], []);
      assert ls[0] + [] == ls[0];
    } else {
      SplitFirst(ls[0], Join(ls[1..]));
      SplitJoined(ls[1..]);
    }
  }

  lemma {:induction false} JoinSnoc(ls: seq<seq<Byte>>, l: seq<Byte>)
    requires ls != []
    ensures Join(ls + [l]) == Join(ls) + [DOT] + l
  {
    if |ls| > 1 {
      JoinSnoc(ls[1..], l);
      assert (ls + [l])[1..] == ls[1..] + [l];
    } else {
      assert (ls + [l])[1..] == [l];
    }
  }

  // ---------------------------------------------------------------------------
  // Names
  // ---------------------------------------------------------------------------

  predicate IsName(s: seq<Byte>) {
    s != [] && |s| + 2 <= MAX_NAME && forall i :: 0 <= i < |Split(s)| ==> 0 < |Split(s)[i]| <= MAX_LABEL
  }

  /** A name is at most 253 octets in dotted form, in labels of 1 to 63. */
  lemma NameLimits(s: seq<Byte>)
    ensures IsName(s) <==> s != [] && |s| <= 253 && forall l :: l in Split(s) ==> 1 <= |l| <= 63
  {
  }

  /** The zero value is the only name not built by the parser. */
  type Name = s: seq<Byte> | s == [] || IsName(s) witness []

  function TrimDot(s: seq<Byte>): seq<Byte> {
    if s != [] && s[|s| - 1] == DOT then s[..|s| - 1] else s
  }

  function Parse(s: seq<Byte>): (r: Result<Name>)
    ensures r.Ok? ==> r.value == TrimDot(s) && r.value != []
  {
    var name := TrimDot(s);
    if IsName(name) then Ok(name) else Err
  }

  /** The checks one by one, label by label. */
  method ParseDomainName(s: seq<Byte>) returns (r: Result<Name>)
    ensures r == Parse(s)
  {
    var name := TrimDot(s);
    if name == [] || |name| + 2 > MAX_NAME {
      return Err;
    }
    var labels := Split(name);
    var i := 0;
    while i < |labels|
      invariant 0 <= i <= |labels|
      invariant forall j :: 0 <= j < i ==> 0 < |labels[j]| <= MAX_LABEL
    {
      if labels[i] == [] || |labels[i]| > MAX_LABEL {
        return Err;
      }
      i := i + 1;
    }
    return Ok(name);
  }

  /** A name has no trailing dot to trim: its last label is not empty. */
  lemma NameIsTrimmed(s: seq<Byte>)
    requires IsName(s)
    ensures Parse(s) == Ok(s)
  {
    if s[|s| - 1] == DOT {
      LastLabelEmpty(s);
    }
  }

  lemma {:induction false} LastLabelEmpty(s: seq<Byte>)
    requires s != [] && s[|s| - 1] == DOT
    ensures Split(s)[|Split(s)| - 1] == []
    decreases |s|
  {
    var i := FirstDot(s);
    assert i < |s| by {
      BeforeFirstDot(s);
    }
    if i + 1 < |s| {
      LastLabelEmpty(s[i + 1..]);
    } else {
      assert s[i + 1..] == [];
    }
  }

  // ---------------------------------------------------------------------------
  // Wire form
  // ---------------------------------------------------------------------------

  predicate Short(ls: seq<seq<Byte>>) {
    forall i :: 0 <= i < |ls| ==> 0 < |ls[i]| < 256
  }

  /** Each label behind its length octet. */
  function Prefixed(ls: seq<seq<Byte>>): seq<Byte>
    requires Short(ls)
  {
    if ls == [] then [] else [|ls[0]|] + ls[0] + Prefixed(ls[1..])
  }

  function Wire(s: Name): seq<Byte>
    requires s != []
  {
    Prefixed(Split(s)) + [0]
  }

  lemma WriteStep(out: seq<Byte>, ls: seq<seq<Byte>>, i: nat)
    requires Short(ls) && i < |ls|
    ensures Short(ls[i..]) && Short(ls[i + 1..])
    ensures out + Prefixed(ls[i..]) == out + [|ls[i]|] + ls[i] + Prefixed(ls[i + 1..])
  {
    assert ls[i..] == [ls[i]] + ls[i + 1..];
    PrefixedCons(ls[i], ls[i + 1..]);
  }

  method WriteLabels(labels: seq<seq<Byte>>) returns (out: seq<Byte>)
    requires Short(labels)
    ensures out == Prefixed(labels)
  {
    out := [];
    var i := 0;
    while i < |labels|
      invariant 0 <= i <= |labels| && Short(labels[i..])
      invariant out + Prefixed(labels[i..]) == Prefixed(labels)
    {
      WriteStep(out, labels, i);
      out := out + [|labels[i]|];
      out := out + labels[i];
      i := i + 1;
    }
    assert Prefixed(labels[i..]) == [];
  }

  method EncodeWire(s: Name) returns (out: seq<Byte>)
    requires s != []
    ensures out == Wire(s)
  {
    out := WriteLabels(Split(s));
    out := out + [0];
  }

  lemma {:induction false} PrefixedLength(ls: seq<seq<Byte>>)
    requires ls != [] && Short(ls)
    ensures |Prefixed(ls)| == |Join(ls)| + 1
  {
    if |ls| > 1 {
      PrefixedLength(ls[1..]);
    } else {
      assert Prefixed(ls[1..]) == [];
    }
  }

  /** One length octet per label replaces its dot, plus one for the first and one for the root. */
  lemma WireLength(s: Name)
    requires s != []
    ensures |Wire(s)| == |s| + 2
  {
    SplitParts(s);
    PrefixedLength(Split(s));
  }

  // ---------------------------------------------------------------------------
  // Decoding
  // ---------------------------------------------------------------------------

  function Extend(acc: seq<Byte>, part: seq<Byte>): seq<Byte> {
    if acc == [] then part else acc + [DOT] + part
  }

  /** Labels up to the first root label; `acc` is the dotted name so far. */
  function DecodeFrom(b: seq<Byte>, acc: seq<Byte>): (r: Result<Name>)
    ensures r.Ok? ==> r.value != []
    decreases |b|
  {
    if b == [] then Err
    else if b[0] == 0 then Parse(acc)
    else if b[0] > |b| - 1 then Err
    else if !DotFree(b[1..1 + b[0]]) then Err
    else DecodeFrom(b[1 + b[0]..], Extend(acc, b[1..1 + b[0]]))
  }

  method DecodeName(field: seq<Byte>) returns (r: Result<Name>)
    ensures r == DecodeFrom(field, [])
  {
    var b, name := field, [];
    while b != []
      invariant DecodeFrom(b, name) == DecodeFrom(field, [])
      decreases |b|
    {
      var n := b[0];
      if n == 0 {
        r := ParseDomainName(name);
        return;
      }
      if n > |b| - 1 {
        return Err;
      }
      var part := b[1..1 + n];
      if !DotFree(part) {
        return Err;
      }
      name := Extend(name, part);
      b := b[1 + n..];
    }
    return Err;
  }

  function Joined(acc: seq<Byte>, ls: seq<seq<Byte>>): seq<Byte>
    decreases |ls|
  {
    if ls == [] then acc else Joined(Extend(acc, ls[0]), ls[1..])
  }

  lemma PrefixedCons(l: seq<Byte>, ls: seq<seq<Byte>>)
    requires Short([l] + ls) && Short(ls)
    ensures Prefixed([l] + ls) == [|l|] + l + Prefixed(ls)
  {
    assert ([l] + ls)[1..] == ls;
  }

  lemma ReadsOneMore(l: seq<Byte>, ls: seq<seq<Byte>>, rest: seq<Byte>)
    requires 0 < |l| < 256 && Short(ls) && Prefixed(ls) + [0] <= rest
    ensures Short([l] + ls) && Prefixed([l] + ls) + [0] <= [|l|] + l + rest
  {
    PrefixedCons(l, ls);
    assert [|l|] + l + Prefixed(ls) + [0] == [|l|] + l + (Prefixed(ls) + [0]);
  }

  lemma JoinedCons(acc: seq<Byte>, l: seq<Byte>, ls: seq<seq<Byte>>)
    ensures Joined(acc, [l] + ls) == Joined(Extend(acc, l), ls)
  {
    assert ([l] + ls)[1..] == ls;
  }

  /** What one decoding step sees of a label behind its length octet. */
  lemma LabelAhead(l: seq<Byte>, rest: seq<Byte>)
    requires 0 < |l| < 256
    ensures var b := [|l|] + l + rest; b[0] == |l| && b[1..1 + b[0]] == l && b[1 + b[0]..] == rest
  {
  }

  lemma {:induction false} DecodePrefixed(ls: seq<seq<Byte>>, tail: seq<Byte>, acc: seq<Byte>)
    requires Short(ls) && AllDotFree(ls)
    ensures DecodeFrom(Prefixed(ls) + [0] + tail, acc) == Parse(Joined(acc, ls))
    decreases |ls|
  {
    var b := Prefixed(ls) + [0] + tail;
    if ls == [] {
      assert b[0] == 0;
    } else {
      var rest := Prefixed(ls[1..]) + [0] + tail;
      assert b == [|ls[0]|] + ls[0] + rest;
      LabelAhead(ls[0], rest);
      DecodePrefixed(ls[1..], tail, Extend(acc, ls[0]));
    }
  }

  lemma {:induction false} JoinedIsJoin(acc: seq<seq<Byte>>, ls: seq<seq<Byte>>)
    requires acc != [] && Short(acc) && Short(ls)
    ensures Joined(Join(acc), ls) == Join(acc + ls)
    decreases |ls|
  {
    if ls == [] {
      assert acc + ls == acc;
    } else {
      assert Join(acc) != [] by {
        PrefixedLength(acc);
        assert |acc[0]| > 0;
      }
      JoinSnoc(acc, ls[0]);
      JoinedIsJoin(acc + [ls[0]], ls[1..]);
      assert acc + [ls[0]] + ls[1..] == acc + ls;
    }
  }

  lemma JoinedFromNothing(ls: seq<seq<Byte>>)
    requires ls != [] && Short(ls)
    ensures Joined([], ls) == Join(ls)
  {
    JoinedIsJoin([ls[0]], ls[1..]);
    assert [ls[0]] + ls[1..] == ls;
  }

  /** Decoding undoes encoding, whatever follows the root label. */
  lemma NameRoundTrip(s: Name, tail: seq<Byte>)
    requires s != []
    ensures DecodeFrom(Wire(s) + tail, []) == Ok(s)
  {
    SplitParts(s);
    var ls := Split(s);
    DecodePrefixed(ls, tail, []);
    JoinedFromNothing(ls);
    NameIsTrimmed(s);
  }

  /** What a successful decode has read: labels, the root label, and a tail it ignored. */
  lemma {:induction false} DecodeReads(b: seq<Byte>, acc: seq<Byte>) returns (ls: seq<seq<Byte>>)
    requires DecodeFrom(b, acc).Ok?
    ensures Short(ls) && AllDotFree(ls) && Prefixed(ls) + [0] <= b
    ensures DecodeFrom(b, acc) == Parse(Joined(acc, ls))
    decreases |b|
  {
    if b[0] == 0 {
      ls := [];
    } else {
      var l, rest := b[1..1 + b[0]], b[1 + b[0]..];
      DecodeStep(b, acc);
      var more := DecodeReads(rest, Extend(acc, l));
      ls := [l] + more;
      ReadsOneMore(l, more, rest);
      JoinedCons(acc, l, more);
    }
  }

  /** A successful decode that is not at the root label goes past one label. */
  lemma DecodeStep(b: seq<Byte>, acc: seq<Byte>)
    requires DecodeFrom(b, acc).Ok? && b[0] != 0
    ensures b[0] < |b|
    ensures var l, rest := b[1..1 + b[0]], b[1 + b[0]..];
            && 0 < |l| < 256 && DotFree(l) && b == [|l|] + l + rest
            && DecodeFrom(b, acc) == DecodeFrom(rest, Extend(acc, l))
  {
  }

  /** A decoded name's own wire form is a prefix of the field it came from. */
  lemma DecodedIsPrefix(b: seq<Byte>)
    requires DecodeFrom(b, []).Ok?
    ensures Wire(DecodeFrom(b, []).value) <= b
  {
    var ls := DecodeReads(b, []);
    if ls != [] {
      JoinedFromNothing(ls);
      SplitJoined(ls);
      var s := Join(ls);
      assert s != [] by {
        PrefixedLength(ls);
        assert |ls[0]| > 0;
      }
      if s[|s| - 1] == DOT {
        LastLabelEmpty(s);
      }
      assert TrimDot(s) == s;
    }
  }

  /** Position i begins a label: it is the first, or follows a dot. */
  predicate LabelStart(s: seq<Byte>, i: nat)
    requires i <= |s|
  {
    i == 0 || s[i - 1] == DOT
  }

  lemma SplitAtFirstDot(s: seq<Byte>, d: nat)
    requires d == FirstDot(s) < |s|
    ensures Split(s) == [s[..d]] + Split(s[d + 1..])
  {
  }

  lemma PrefixedUncons(all: seq<seq<Byte>>, l: seq<Byte>, ls: seq<seq<Byte>>)
    requires Short(all) && all == [l] + ls
    ensures Short(ls) && Prefixed(all) == [|l|] + l + Prefixed(ls)
  {
    forall i | 0 <= i < |ls|
      ensures 0 < |ls[i]| < 256
    {
      assert all[i + 1] == ls[i];
    }
    PrefixedCons(l, ls);
  }

  lemma {:induction false} PrefixedLayout(s: seq<Byte>, i: nat)
    requires Short(Split(s)) && i <= |s|
    ensures |Prefixed(Split(s))| == |s| + 1
    ensures i < |s| && s[i] != DOT ==> Prefixed(Split(s))[i + 1] == s[i]
    ensures LabelStart(s, i) ==> Prefixed(Split(s))[i] == FirstDot(s[i..])
    decreases |s|
  {
    var d := FirstDot(s);
    if d == |s| {
      LastLabelLayout(s, i);
    } else {
      var rest := s[d + 1..];
      SplitAtFirstDot(s, d);
      PrefixedUncons(Split(s), s[..d], Split(rest));
      var j := if i > d then i - d - 1 else 0;
      PrefixedLayout(rest, j);
      ShiftedLayout(s, d, Prefixed(Split(rest)), i);
    }
  }

  /** What holds of the rest of a name holds of the name, its first label in front. */
  lemma ShiftedLayout(s: seq<Byte>, d: nat, r: seq<Byte>, i: nat)
    requires d == FirstDot(s) < |s| && i <= |s| && d < 256
    requires |r| == |s| - d
    requires i > d ==>
               var rest, j := s[d + 1..], i - d - 1;
               (j < |rest| && rest[j] != DOT ==> r[j + 1] == rest[j]) && (LabelStart(rest, j) ==> r[j] == FirstDot(rest[j..]))
    ensures var w := [d] + s[..d] + r;
            && |w| == |s| + 1
            && (i < |s| && s[i] != DOT ==> w[i + 1] == s[i])
            && (LabelStart(s, i) ==> w[i] == FirstDot(s[i..]))
  {
    if i > d {
      assert s[i..] == s[d + 1..][i - d - 1..];
    } else {
      FrontLabelLayout(s, i);
    }
  }

  lemma LastLabelLayout(s: seq<Byte>, i: nat)
    requires FirstDot(s) == |s| && 0 < |s| < 256 && i <= |s|
    ensures Short([s]) && Prefixed([s]) == [|s|] + s
    ensures LabelStart(s, i) ==> i == 0 && s[i..] == s
  {
    BeforeFirstDot(s);
    assert s[..|s|] == s;
    assert [s][1..] == [] && Prefixed([]) == [];
  }

  /** Up to the first dot there is one label, so one start. */
  lemma FrontLabelLayout(s: seq<Byte>, i: nat)
    requires i <= FirstDot(s)
    ensures LabelStart(s, i) ==> i == 0 && s[i..] == s
  {
    BeforeFirstDot(s);
    assert i > 0 ==> s[..FirstDot(s)][i - 1] == s[i - 1];
  }

  /**
    RFC 1035 section 3.1, octet by octet: each label stands behind its length, where the
    dot before it was, and the root label ends the name.
  */
  lemma WireLayout(s: Name, i: nat)
    requires s != [] && i <= |s|
    ensures |Wire(s)| == |s| + 2 && Wire(s)[|s| + 1] == 0
    ensures i < |s| && s[i] != DOT ==> Wire(s)[i + 1] == s[i]
    ensures LabelStart(s, i) ==> Wire(s)[i] == FirstDot(s[i..])
  {
    PrefixedLayout(s, i);
  }
}
