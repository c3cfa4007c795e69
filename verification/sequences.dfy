/** Sequence helpers shared by the collection models. */
module Sequences {

  /** `p` lies between `a` and `b`, whichever of the two is smaller. */
  predicate Between(p: int, a: int, b: int) {
    (a <= p <= b) || (b <= p <= a)
  }

  /** `s` back to front. */
  function Reverse<T>(s: seq<T>): (r: seq<T>)
    ensures |r| == |s|
    ensures forall k :: 0 <= k < |s| ==> r[k] == s[|s| - 1 - k]
  {
    if |s| == 0 then [] else Reverse(s[1..]) + [s[0]]
  }

  /** Reversal keeps every element with its multiplicity. */
  lemma {:induction false} ReverseMultiset<T>(s: seq<T>)
    ensures multiset(Reverse(s)) == multiset(s)
  {
    if |s| > 0 {
      ReverseMultiset(s[1..]);
      assert s == [s[0]] + s[1..];
      assert Reverse(s) == Reverse(s[1..]) + [s[0]];
    }
  }

  lemma ReverseMembers<T>(s: seq<T>)
    ensures forall x :: x in Reverse(s) <==> x in s
  {
    var r := Reverse(s);
    forall x | x in s ensures x in r {
      var k :| 0 <= k < |s| && s[k] == x;
      assert r[|s| - 1 - k] == x;
    }
    forall x | x in r ensures x in s {
      var k :| 0 <= k < |r| && r[k] == x;
      assert s[|s| - 1 - k] == x;
    }
  }

  /** No element occurs twice. */
  predicate NoDup<T(==)>(s: seq<T>) {
    forall i, j :: 0 <= i < j < |s| ==> s[i] != s[j]
  }

  function Members<T>(s: seq<T>): set<T> {
    set x | x in s
  }

  /** A sequence without repeats has exactly as many members as positions. */
  lemma {:induction false} DistinctSize<T>(s: seq<T>)
    requires NoDup(s)
    ensures |Members(s)| == |s|
  {
    if |s| > 0 {
      var t := s[1..];
      assert NoDup(t) by {
        forall i, j | 0 <= i < j < |t| ensures t[i] != t[j] {
          assert t[i] == s[i + 1] && t[j] == s[j + 1];
        }
      }
      DistinctSize(t);
      assert s[0] !in Members(t);
      assert Members(s) == Members(t) + {s[0]} by {
        assert s == [s[0]] + t;
      }
    }
  }
}
