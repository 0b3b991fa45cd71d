/** Sequences read as sets, and counting. */
module Collections {

  ghost predicate NoDuplicates<T>(s: seq<T>) {
    forall i, j :: 0 <= i < j < |s| ==> s[i] != s[j]
  }

  ghost function ToSet<T>(s: seq<T>): set<T> {
    set x | x in s
  }

  lemma {:induction false} SubsetIsNoLarger<T>(t: set<T>, s: set<T>)
    requires t <= s
    ensures |t| <= |s|
  {
    if t != {} {
      var x :| x in t;
      SubsetIsNoLarger(t - {x}, s - {x});
    }
  }

  lemma StrictSubsetIsSmaller<T>(t: set<T>, s: set<T>, x: T)
    requires t <= s && x in s && x !in t
    ensures |t| < |s|
  {
    SubsetIsNoLarger(t, s - {x});
  }

  lemma {:induction false} SetIsNoLarger<T>(s: seq<T>)
    ensures |ToSet(s)| <= |s|
  {
    if s != [] {
      SetIsNoLarger(s[1..]);
      assert ToSet(s) == {s[0]} + ToSet(s[1..]);
    }
  }

  /** A sequence as long as its set has no room for repeats. */
  lemma FullMeansNoDuplicates<T>(s: seq<T>)
    requires |ToSet(s)| == |s|
    ensures NoDuplicates(s)
  {
    forall i, j | 0 <= i < j < |s|
      ensures s[i] != s[j]
    {
      if s[i] == s[j] {
        SetWithout(s, i, j);
        SetIsNoLarger(s[..j] + s[j + 1..]);
      }
    }
  }

  lemma SetWithout<T>(s: seq<T>, i: nat, j: nat)
    requires i < j < |s| && s[i] == s[j]
    ensures ToSet(s[..j] + s[j + 1..]) == ToSet(s)
  {
    var r := s[..j] + s[j + 1..];
    forall x | x in s
      ensures x in r
    {
      var k :| 0 <= k < |s| && s[k] == x;
      assert r[if k == j then i else if k < j then k else k - 1] == x;
    }
  }
}
