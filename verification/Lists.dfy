// What the linked lists have in common: sequences of nodes that differ, and taking one out.
module Lists {
  ghost predicate Distinct<T>(s: seq<T>) {
    forall i, j :: 0 <= i < j < |s| ==> s[i] != s[j]
  }

  function Without<T>(s: seq<T>, k: nat): seq<T>
    requires k < |s|
  {
    s[..k] + s[k + 1..]
  }

  lemma WithoutMiddle<T>(a: seq<T>, x: T, b: seq<T>)
    ensures Without(a + ([x] + b), |a|) == a + b
  {
  }

  lemma DistinctInserted<T>(s: seq<T>, x: T, k: nat)
    requires k <= |s| && Distinct(s) && x !in s
    ensures Distinct(s[..k] + [x] + s[k..])
  {
    var all := s[..k] + [x] + s[k..];
    forall i | 0 <= i < |all| ensures all[i] == if i < k then s[i] else if i == k then x else s[i - 1] {
    }
  }

  lemma OthersDiffer<T>(s: seq<T>, k: nat)
    requires k < |s| && Distinct(s)
    ensures forall i :: 0 <= i < |s| && i != k ==> s[i] != s[k]
  {
  }

  lemma WithoutIs<T>(s: seq<T>, k: nat)
    requires k < |s|
    ensures |Without(s, k)| == |s| - 1 && forall x :: x in Without(s, k) ==> x in s
    ensures forall i :: 0 <= i < |s| - 1 ==> Without(s, k)[i] == s[if i < k then i else i + 1]
    ensures forall i :: 0 <= i < |s| && i != k ==> s[i] == Without(s, k)[if i < k then i else i - 1]
    ensures Distinct(s) ==> Distinct(Without(s, k)) && s[k] !in Without(s, k)
  {
    var rest := Without(s, k);
    forall i | 0 <= i < |rest| ensures rest[i] == if i < k then s[i] else s[i + 1] {
    }
  }
}
