/**
  Domain names as the plugins handle them: byte strings in presentation form.
  A Go string is modelled as a Dafny string with one char per byte.
*/
module Names {

  /** A-Z onto a-z, every other byte left alone (RFC 4343 section 3). */
  function FoldByte(c: char): (r: char)
    ensures 'A' <= c <= 'Z' <==> r != c
    ensures !('A' <= r <= 'Z')
  {
    if 'A' <= c <= 'Z' then (c as int + 32) as char else c
  }

  function Fold(s: string): (r: string)
    ensures |r| == |s|
    ensures forall i :: 0 <= i < |s| ==> r[i] == FoldByte(s[i])
  {
    seq(|s|, i requires 0 <= i < |s| => FoldByte(s[i]))
  }

  lemma FoldIdempotent(s: string)
    ensures Fold(Fold(s)) == Fold(s)
  {
    assert forall i :: 0 <= i < |s| ==> FoldByte(FoldByte(s[i])) == FoldByte(s[i]);
  }

  lemma FoldConcat(a: string, b: string)
    ensures Fold(a + b) == Fold(a) + Fold(b)
  {
  }

  /** Two bytes fold together only when equal or the two cases of one ASCII letter. */
  lemma FoldByteMerges(a: char, b: char)
    ensures FoldByte(a) == FoldByte(b) <==>
            a == b
            || ('A' <= a <= 'Z' && b as int == a as int + 32)
            || ('A' <= b <= 'Z' && a as int == b as int + 32)
  {
  }

  predicate Ascii(s: string) {
    forall i :: 0 <= i < |s| ==> s[i] < 128 as char
  }

  /** Scans for a byte with the high bit set. */
  method IsAscii(s: string) returns (r: bool)
    ensures r == Ascii(s)
  {
    var i := 0;
    while i < |s|
      invariant 0 <= i <= |s|
      invariant forall j :: 0 <= j < i ==> s[j] < 128 as char
    {
      if s[i] >= 128 as char {
        return false;
      }
      i := i + 1;
    }
    return true;
  }

  /** Byte-for-byte comparison that folds on the fly instead of building two folded copies. */
  method EqualFoldAscii(a: string, b: string) returns (r: bool)
    ensures r == (Fold(a) == Fold(b))
  {
    if |a| != |b| {
      return false;
    }
    var i := 0;
    while i < |a|
      invariant 0 <= i <= |a|
      invariant forall j :: 0 <= j < i ==> FoldByte(a[j]) == FoldByte(b[j])
    {
      var ca, cb := a[i], b[i];
      if 'A' <= ca <= 'Z' {
        ca := (ca as int + 32) as char;
      }
      if 'A' <= cb <= 'Z' {
        cb := (cb as int + 32) as char;
      }
      if ca != cb {
        assert Fold(a)[i] != Fold(b)[i];
        return false;
      }
      i := i + 1;
    }
    return true;
  }

  /** Copies nothing up to the first upper-case byte, then folds a buffer in place. */
  method LowerAscii(s: string) returns (r: string)
    ensures r == Fold(s)
  {
    var i := 0;
    while i < |s| && !('A' <= s[i] <= 'Z')
      invariant 0 <= i <= |s|
      invariant forall j :: 0 <= j < i ==> FoldByte(s[j]) == s[j]
    {
      i := i + 1;
    }
    if i == |s| {
      return s;
    }
    var b := new char[|s|](k requires 0 <= k < |s| => s[k]);
    while i < |s|
      invariant 0 <= i <= |s|
      invariant forall j :: 0 <= j < i ==> b[j] == FoldByte(s[j])
      invariant forall j :: i <= j < |s| ==> b[j] == s[j]
    {
      if 'A' <= b[i] <= 'Z' {
        b[i] := (b[i] as int + 32) as char;
      }
      i := i + 1;
    }
    return b[..];
  }

  /** Position of the first byte equal to c; |s| for none. */
  function IndexByte(s: string, c: char): (i: nat)
    ensures i <= |s|
    ensures i < |s| ==> s[i] == c
  {
    if s == "" || s[0] == c then 0 else 1 + IndexByte(s[1..], c)
  }

  lemma {:induction false} IndexByteIsFirst(s: string, c: char)
    ensures c !in s[..IndexByte(s, c)]
  {
    var i := IndexByte(s, c);
    if i > 0 {
      IndexByteIsFirst(s[1..], c);
      assert s[..i] == [s[0]] + s[1..][..i - 1];
    }
  }

  lemma {:induction false} IndexByteAfter(a: string, b: string, c: char)
    requires c !in a && (b == "" || b[0] == c)
    ensures IndexByte(a + b, c) == |a|
  {
    if a == "" {
      assert a + b == b;
    } else {
      assert a[0] in a && (a + b)[1..] == a[1..] + b;
      IndexByteAfter(a[1..], b, c);
    }
  }

  // ---------------------------------------------------------------------------
  // Fully qualified and canonical names (the DNS library's Fqdn and CanonicalName)
  // ---------------------------------------------------------------------------

  /** How many backslashes end s: an odd number escapes the byte that follows. */
  function TrailingEscapes(s: string): (n: nat)
    ensures n <= |s|
  {
    if s == "" || s[|s| - 1] != '\\' then 0 else 1 + TrailingEscapes(s[..|s| - 1])
  }

  /** A name ends in a dot that is not itself escaped. */
  predicate IsFqdn(s: string) {
    s != "" && s[|s| - 1] == '.' && TrailingEscapes(s[..|s| - 1]) % 2 == 0
  }

  /** The name looks qualified, but its last dot is escaped and so belongs to a label. */
  predicate EndsInEscapedDot(s: string) {
    s != "" && s[|s| - 1] == '.' && !IsFqdn(s)
  }

  function Fqdn(s: string): string {
    if IsFqdn(s) then s else s + "."
  }

  /** The key every lookup uses: fully qualified and folded. */
  function Canonical(s: string): string {
    Fold(Fqdn(s))
  }

  predicate IsCanonical(s: string) {
    IsFqdn(s) && Fold(s) == s
  }

  lemma {:induction false} FoldKeepsEscapes(s: string)
    ensures TrailingEscapes(Fold(s)) == TrailingEscapes(s)
  {
    if s != "" {
      assert Fold(s)[..|s| - 1] == Fold(s[..|s| - 1]);
      FoldKeepsEscapes(s[..|s| - 1]);
    }
  }

  lemma FoldKeepsFqdn(s: string)
    ensures IsFqdn(Fold(s)) == IsFqdn(s)
  {
    if s != "" {
      assert Fold(s)[..|s| - 1] == Fold(s[..|s| - 1]);
      FoldKeepsEscapes(s[..|s| - 1]);
    }
  }

  /** Appending the root label always qualifies, except after an odd run of backslashes. */
  lemma AppendedDotQualifies(s: string)
    requires TrailingEscapes(s) % 2 == 0
    ensures IsFqdn(s + ".")
  {
    assert (s + ".")[..|s|] == s;
  }

  lemma CanonicalOfFqdn(s: string)
    requires IsFqdn(s)
    ensures Canonical(s) == Fold(s) && IsCanonical(Canonical(s))
    ensures Canonical(Canonical(s)) == Canonical(s)
  {
    FoldKeepsFqdn(s);
    FoldIdempotent(s);
  }

  // ---------------------------------------------------------------------------
  // In-place comparison against a canonical name
  // ---------------------------------------------------------------------------

  /**
    Whether an owner name, canonicalised, is `canonical`, decided without building
    the canonical form. A name with bytes above 127 takes the constructive path.
  */
  predicate SameName(name: string, canonical: string) {
    if !Ascii(name) then
      Canonical(name) == canonical
    else if name == "" || name[|name| - 1] != '.' then
      |canonical| == |name| + 1 && canonical[|name|] == '.' && Fold(name) == Fold(canonical[..|name|])
    else
      Fold(name) == Fold(canonical)
  }

  /** The same decision, made by the two byte loops. */
  method SameNameInPlace(name: string, canonical: string) returns (r: bool)
    ensures r == SameName(name, canonical)
  {
    var ascii := IsAscii(name);
    if !ascii {
      return Canonical(name) == canonical;
    }
    if name == "" || name[|name| - 1] != '.' {
      if |canonical| == |name| + 1 && canonical[|name|] == '.' {
        r := EqualFoldAscii(name, canonical[..|name|]);
        return;
      }
      return false;
    }
    r := EqualFoldAscii(name, canonical);
  }

  /**
    Exactly when the in-place comparison agrees with canonicalise-then-compare: always,
    except for an ASCII name whose last dot is escaped, asked about its own canonical form.
  */
  lemma SameNameExact(name: string, canonical: string)
    requires IsCanonical(canonical)
    ensures SameName(name, canonical) == (Canonical(name) == canonical)
            <==> !(Ascii(name) && EndsInEscapedDot(name) && canonical == Fold(name) + ".")
  {
    FoldKeepsFqdn(name);
    FoldConcat(name, ".");
    if Ascii(name) && (name == "" || name[|name| - 1] != '.') {
      assert Fold(canonical[..|canonical| - 1]) == canonical[..|canonical| - 1];
      assert canonical == canonical[..|canonical| - 1] + ".";
    }
  }

  /** For wire names (always fully qualified) the shortcut is the specification. */
  lemma SameNameOfFqdn(name: string, canonical: string)
    requires IsFqdn(name) && IsCanonical(canonical)
    ensures SameName(name, canonical) <==> Canonical(name) == canonical
  {
    SameNameExact(name, canonical);
  }

  /** Quantified over every canonical argument: the escaped last dot is the only bad family. */
  lemma SameNameCorrectIff(name: string)
    requires Ascii(name)
    ensures (forall c :: IsCanonical(c) ==> (SameName(name, c) <==> Canonical(name) == c))
            <==> !EndsInEscapedDot(name)
  {
    forall c | IsCanonical(c)
      ensures (SameName(name, c) == (Canonical(name) == c))
              <==> !(EndsInEscapedDot(name) && c == Fold(name) + ".")
    {
      SameNameExact(name, c);
    }
    if EndsInEscapedDot(name) {
      var c := Canonical(name);
      FoldConcat(name, ".");
      FoldIdempotent(name + ".");
      assert TrailingEscapes(name) == 0;
      AppendedDotQualifies(name);
      FoldKeepsFqdn(name + ".");
      assert IsCanonical(c);
    }
  }

  /** A concrete member of the bad family: `a\.` is relative, so its canonical form is `a\..`. */
  lemma SameNameMissesEscapedDot()
    ensures var name, canonical := "a\\.", "a\\..";
            IsCanonical(canonical) && Canonical(name) == canonical && !SameName(name, canonical)
  {
    var name, canonical := "a\\.", "a\\..";
    assert name[..2] == "a\\" && "a\\"[..1] == "a";
    assert TrailingEscapes("a\\") == 1;
    assert canonical[..3] == name;
    assert TrailingEscapes(name) == 0;
  }
}
