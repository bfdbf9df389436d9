/**
 The binary search of bits/stdlib-bsearch.h (section 7.22.5.1 of ISO/IEC 9899:2011).  The comparison
 function is a pure function of the key and an element.
 */
module Bsearch {
  import opened Options

  /** What the standard asks of the array: elements below the key, then equal ones, then those above. */
  ghost predicate Partitioned<K, T>(key: K, a: seq<T>, compar: (K, T) -> int) {
    forall i, j :: 0 <= i < j < |a| ==>
      (compar(key, a[j]) > 0 ==> compar(key, a[i]) > 0) &&
      (compar(key, a[i]) < 0 ==> compar(key, a[j]) < 0)
  }

  /** The number of binary digits of n. */
  function Bits(n: nat): nat {
    if n == 0 then 0 else 1 + Bits(n / 2)
  }

  function Pow2(n: nat): nat {
    if n == 0 then 1 else 2 * Pow2(n - 1)
  }

  lemma {:induction false} BitsMonotone(m: nat, n: nat)
    requires m <= n
    ensures Bits(m) <= Bits(n)
    decreases n
  {
    if m > 0 {
      BitsMonotone(m / 2, n / 2);
    }
  }

  /** For n > 0, Bits(n) is floor(log2 n) + 1. */
  lemma {:induction false} BitsIsLog(n: nat)
    requires n > 0
    ensures Pow2(Bits(n) - 1) <= n < Pow2(Bits(n))
    decreases n
  {
    if n > 1 {
      BitsIsLog(n / 2);
    }
  }

  /** What is returned always matches; on a partitioned array nothing is returned only if nothing matches. */
  method Search<K, T>(key: K, a: seq<T>, compar: (K, T) -> int) returns (p: Option<nat>, calls: nat)
    ensures p.Some? ==> p.value < |a| && compar(key, a[p.value]) == 0
    ensures Partitioned(key, a, compar) ==>
      (p.Some? <==> exists i :: 0 <= i < |a| && compar(key, a[i]) == 0)
    ensures calls <= Bits(|a|)
    ensures (forall i :: 0 <= i < |a| ==> compar(key, a[i]) < 0) ==> calls == Bits(|a|)
  {
    var base: nat, nmemb: nat := 0, |a|;
    calls := 0;
    while nmemb != 0
      invariant base + nmemb <= |a|
      invariant calls + Bits(nmemb) <= Bits(|a|)
      invariant (forall i :: 0 <= i < |a| ==> compar(key, a[i]) < 0) ==> calls + Bits(nmemb) == Bits(|a|)
      invariant Partitioned(key, a, compar) ==> forall i :: 0 <= i < base ==> compar(key, a[i]) > 0
      invariant Partitioned(key, a, compar) ==> forall i :: base + nmemb <= i < |a| ==> compar(key, a[i]) < 0
      decreases nmemb
    {
      var at := base + nmemb / 2;
      var comparison := compar(key, a[at]);
      calls := calls + 1;
      BitsMonotone((nmemb - 1) / 2, nmemb / 2);
      if comparison == 0 {
        return Some(at), calls;
      }
      if comparison > 0 {
        base := at + 1;
        nmemb := nmemb - 1;
      }
      nmemb := nmemb / 2;
    }
    p := None;
  }
}
