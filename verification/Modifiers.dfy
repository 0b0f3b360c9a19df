/**
  The nine modifiers a probe query may carry, as a 16-bit set, and which combinations
  one answer can honour.
*/
module Modifiers {
  import opened Wrappers

  /** Position k in the canonical order, 0 to 8. */
  type Slot = k: int | 0 <= k < 9

  function NameOf(k: Slot): string {
    if k == 0 then "unsigned" else if k == 1 then "badsig" else if k == 2 then "expiredsig"
    else if k == 3 then "futuresig" else if k == 4 then "truncate" else if k == 5 then "nxdomain"
    else if k == 6 then "nxname" else if k == 7 then "servfail" else "big"
  }

  /** The bit of each modifier; the canonical order puts nxname before servfail, the bits do not. */
  function Bit(k: Slot): bv16 {
    if k == 0 then 1 else if k == 1 then 2 else if k == 2 then 4 else if k == 3 then 8
    else if k == 4 then 16 else if k == 5 then 32 else if k == 6 then 128 else if k == 7 then 64 else 256
  }

  /** The first slot from k on with this name. */
  function Search(name: string, k: nat): (r: Option<Slot>)
    requires k <= 9
    decreases 9 - k
  {
    if k == 9 then None else if NameOf(k) == name then Some(k) else Search(name, k + 1)
  }

  function Lookup(name: string): (r: Option<Slot>) {
    Search(name, 0)
  }

  lemma NamesDiffer(j: Slot, k: Slot)
    requires j != k
    ensures NameOf(j) != NameOf(k)
  {
  }

  lemma {:induction false} SearchFinds(name: string, k: nat)
    requires k <= 9
    ensures Search(name, k).Some? ==> k <= Search(name, k).value && NameOf(Search(name, k).value) == name
    ensures Search(name, k).None? ==> forall j: Slot :: k <= j ==> NameOf(j) != name
    decreases 9 - k
  {
    if k < 9 {
      SearchFinds(name, k + 1);
    }
  }

  lemma LookupNames(k: Slot)
    ensures Lookup(NameOf(k)) == Some(k)
  {
    SearchFinds(NameOf(k), 0);
    var r := Lookup(NameOf(k));
    if r.Some? && r.value != k {
      NamesDiffer(r.value, k);
    }
  }

  lemma NamesAreShort(k: Slot)
    ensures 0 < |NameOf(k)| <= 10
  {
  }

  predicate Has(m: bv16, want: bv16) {
    m & want == want
  }

  const SIGNATURES: bv16 := 1 | 2 | 4 | 8
  const RCODES: bv16 := 32 | 64 | 128

  /** More than one bit of a mutually exclusive group is set. */
  predicate Clash(m: bv16, group: bv16) {
    var bits := m & group;
    bits != 0 && bits != bits & (0 - bits)
  }

  predicate ValidMods(m: bv16) {
    m >> 9 == 0 && !Clash(m, SIGNATURES) && !Clash(m, RCODES)
  }

  /** The bit each modifier stands for, by its name. */
  lemma BitOfName(k: Slot)
    ensures NameOf(k) == "unsigned" ==> Bit(k) == 0x001
    ensures NameOf(k) == "badsig" ==> Bit(k) == 0x002
    ensures NameOf(k) == "expiredsig" ==> Bit(k) == 0x004
    ensures NameOf(k) == "futuresig" ==> Bit(k) == 0x008
    ensures NameOf(k) == "truncate" ==> Bit(k) == 0x010
    ensures NameOf(k) == "nxdomain" ==> Bit(k) == 0x020
    ensures NameOf(k) == "servfail" ==> Bit(k) == 0x040
    ensures NameOf(k) == "nxname" ==> Bit(k) == 0x080
    ensures NameOf(k) == "big" ==> Bit(k) == 0x100
    ensures NameOf(k) in {"unsigned", "badsig", "expiredsig", "futuresig", "truncate", "nxdomain", "servfail", "nxname", "big"}
  {
  }

  /** Adding one modifier adds that one and no other. */
  lemma OrHas(m: bv16, k: Slot, j: Slot)
    ensures Has(m | Bit(k), Bit(j)) <==> j == k || Has(m, Bit(j))
  {
  }

  lemma OrStaysDefined(m: bv16, k: Slot)
    requires m >> 9 == 0
    ensures (m | Bit(k)) >> 9 == 0
  {
  }

  ghost predicate SameBits(a: bv16, b: bv16) {
    forall k: Slot :: Has(a, Bit(k)) <==> Has(b, Bit(k))
  }

  /** Two sets of defined modifiers with the same members are the same set. */
  lemma BitsDetermine(a: bv16, b: bv16)
    requires a >> 9 == 0 && b >> 9 == 0 && SameBits(a, b)
    ensures a == b
  {
    assert Has(a, Bit(0)) <==> Has(b, Bit(0));
    assert Has(a, Bit(1)) <==> Has(b, Bit(1));
    assert Has(a, Bit(2)) <==> Has(b, Bit(2));
    assert Has(a, Bit(3)) <==> Has(b, Bit(3));
    assert Has(a, Bit(4)) <==> Has(b, Bit(4));
    assert Has(a, Bit(5)) <==> Has(b, Bit(5));
    assert Has(a, Bit(6)) <==> Has(b, Bit(6));
    assert Has(a, Bit(7)) <==> Has(b, Bit(7));
    assert Has(a, Bit(8)) <==> Has(b, Bit(8));
  }

  /** The lowest-bit trick means what the grammar says: at most one of each exclusive group. */
  lemma ClashMeaning(m: bv16)
    ensures Clash(m, SIGNATURES) <==> exists j: Slot, k: Slot :: j < k < 4 && Has(m, Bit(j)) && Has(m, Bit(k))
    ensures Clash(m, RCODES) <==> exists j: Slot, k: Slot :: 5 <= j < k < 8 && Has(m, Bit(j)) && Has(m, Bit(k))
  {
    if Clash(m, SIGNATURES) {
      SignatureClash(m);
    }
    if Clash(m, RCODES) {
      RcodeClash(m);
    }
  }

  lemma SignatureClash(m: bv16)
    requires Clash(m, SIGNATURES)
    ensures exists j: Slot, k: Slot :: j < k < 4 && Has(m, Bit(j)) && Has(m, Bit(k))
  {
    if Has(m, Bit(0)) && Has(m, Bit(1)) {
    } else if Has(m, Bit(0)) && Has(m, Bit(2)) {
    } else if Has(m, Bit(0)) && Has(m, Bit(3)) {
    } else if Has(m, Bit(1)) && Has(m, Bit(2)) {
    } else if Has(m, Bit(1)) && Has(m, Bit(3)) {
    } else {
      assert Has(m, Bit(2)) && Has(m, Bit(3));
    }
  }

  lemma RcodeClash(m: bv16)
    requires Clash(m, RCODES)
    ensures exists j: Slot, k: Slot :: 5 <= j < k < 8 && Has(m, Bit(j)) && Has(m, Bit(k))
  {
    if Has(m, Bit(5)) && Has(m, Bit(6)) {
    } else if Has(m, Bit(5)) && Has(m, Bit(7)) {
    } else {
      assert Has(m, Bit(6)) && Has(m, Bit(7));
    }
  }
}
