/** Sequences: reversal, distinctness, and counting of distinct numbers. */
module Seqs {

  function Reverse<T>(s: seq<T>): (r: seq<T>)
    ensures |r| == |s|
  {
    if s == [] then [] else Reverse(s[1..]) + [s[0]]
  }

  lemma {:induction false} ReverseAppend<T>(s: seq<T>, t: seq<T>)
    ensures Reverse(s + t) == Reverse(t) + Reverse(s)
  {
    if s == [] {
      assert s + t == t;
    } else {
      assert (s + t)[1..] == s[1..] + t;
      ReverseAppend(s[1..], t);
    }
  }

  lemma ReverseNone<T>()
    ensures Reverse<T>([]) == []
  {
  }

  lemma ReverseLast<T>(s: seq<T>, i: nat)
    requires |s| == i + 1
    ensures Reverse(s) == [s[i]] + Reverse(s[..i])
  {
    assert s == s[..i] + [s[i]];
    ReverseAppend(s[..i], [s[i]]);
  }

  lemma {:induction false} ReverseContains<T>(s: seq<T>, x: T)
    ensures x in Reverse(s) <==> x in s
  {
    if s != [] {
      ReverseContains(s[1..], x);
      assert s == [s[0]] + s[1..];
    }
  }

  ghost predicate Distinct<T(!new)>(s: seq<T>) {
    forall i, j :: 0 <= i < j < |s| ==> s[i] != s[j]
  }

  ghost function Range(lo: nat, n: nat): (s: set<nat>)
    ensures |s| == n
    ensures forall x :: x in s <==> lo <= x < lo + n
  {
    if n == 0 then {} else Range(lo, n - 1) + {lo + n - 1}
  }

  lemma {:induction false} DistinctCardinality<T(!new)>(s: seq<T>, u: set<T>)
    requires Distinct(s)
    requires forall x :: x in s ==> x in u
    ensures |s| <= |u|
    ensures |s| == |u| ==> forall x :: x in u ==> x in s
  {
    if s != [] {
      var t := s[1..];
      forall x | x in t ensures x in u - {s[0]} {
        var i :| 0 <= i < |t| && t[i] == x;
        assert s[i + 1] == x;
      }
      DistinctCardinality(t, u - {s[0]});
      if |s| == |u| {
        forall x | x in u ensures x in s {
          if x != s[0] {
            assert x in u - {s[0]};
            assert x in t;
          }
        }
      }
    }
  }

  lemma SubsetCard<T>(a: set<T>, b: set<T>)
    requires a <= b
    ensures |a| <= |b|
  {
    assert b == a + (b - a);
  }

  ghost function Elements(s: seq<nat>): set<nat> {
    set x | x in s
  }

  lemma {:induction false} ElementsCard(s: seq<nat>)
    ensures |Elements(s)| <= |s|
  {
    if s != [] {
      ElementsCard(s[1..]);
      assert s == [s[0]] + s[1..];
      assert Elements(s) == Elements(s[1..]) + {s[0]};
    }
  }

  /** Distinct numbers from a range that misses one of them do not fill it. */
  lemma RoomLeft(s: seq<nat>, lo: nat, n: nat, absent: nat)
    requires Distinct(s)
    requires forall x :: x in s ==> lo <= x < lo + n
    requires lo <= absent < lo + n && absent !in s
    ensures |s| < n
  {
    DistinctCardinality(s, Range(lo, n));
  }

  lemma DistinctAppend<T(!new)>(s: seq<T>, t: seq<T>)
    requires Distinct(s) && Distinct(t)
    requires forall x :: x in s ==> x !in t
    ensures Distinct(s + t)
  {
    forall i, j | 0 <= i < j < |s + t| ensures (s + t)[i] != (s + t)[j] {
      if i < |s| <= j {
        assert (s + t)[i] in s && (s + t)[j] in t;
      }
    }
  }

  lemma {:induction false} ReverseDistinct<T(!new)>(s: seq<T>)
    requires Distinct(s)
    ensures Distinct(Reverse(s))
  {
    if s != [] {
      ReverseDistinct(s[1..]);
      forall x | x in Reverse(s[1..]) ensures x != s[0] {
        ReverseContains(s[1..], x);
      }
      DistinctAppend(Reverse(s[1..]), [s[0]]);
    }
  }

  /** Pushing the listed elements one after the other, then one more. */
  lemma ReversePush<T>(s: seq<T>, x: T, base: seq<T>)
    ensures [x] + (Reverse(s) + base) == Reverse(s + [x]) + base
  {
    ReverseAppend(s, [x]);
  }

  lemma SnocEqual<T>(s: seq<T>, x: T, t: seq<T>, y: T)
    ensures s + [x] == t + [y] <==> s == t && x == y
  {
    if s + [x] == t + [y] {
      assert (s + [x])[..|s|] == s && (t + [y])[..|t|] == t;
      assert (s + [x])[|s|] == x && (t + [y])[|t|] == y;
    }
  }
}
