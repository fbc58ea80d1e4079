/** The array operations the selector uses: `filter` with an inequality
    test, and the duplicate-freedom of a multi-select selection. */
module Lists {

  /** `s.filter((v) => v != x)`: every occurrence of `x` dropped. */
  function Without<T(==)>(s: seq<T>, x: T): (r: seq<T>)
    ensures forall y :: y in r ==> y in s && y != x
    ensures forall y :: y in s && y != x ==> y in r
    ensures |r| <= |s|
    ensures x in s ==> |r| < |s|
  {
    if s == [] then []
    else if s[0] == x then Without(s[1..], x)
    else [s[0]] + Without(s[1..], x)
  }

  /** No element occurs twice. */
  predicate NoDup<T(==)>(s: seq<T>) {
    forall i, j :: 0 <= i < j < |s| ==> s[i] != s[j]
  }

  /** `r` lists, in their original order, exactly the elements of `s` other
      than `x`: `idx` maps each position of `r` to a position of `s`, is
      strictly increasing, and hits every position of `s` not holding `x`. */
  ghost predicate PicksOthersInOrder<T>(r: seq<T>, s: seq<T>, x: T, idx: seq<nat>) {
    && |idx| == |r|
    && Picks(r, s, idx)
    && Increasing(idx)
    && CoversOthers(s, x, idx)
  }

  ghost predicate Picks<T>(r: seq<T>, s: seq<T>, idx: seq<nat>)
    requires |idx| == |r|
  {
    forall i :: 0 <= i < |idx| ==> idx[i] < |s| && s[idx[i]] == r[i]
  }

  ghost predicate Increasing(idx: seq<nat>) {
    forall i, j :: 0 <= i < j < |idx| ==> idx[i] < idx[j]
  }

  ghost predicate CoversOthers<T>(s: seq<T>, x: T, idx: seq<nat>) {
    forall k :: 0 <= k < |s| && s[k] != x ==> k in idx
  }

  /** Every index moved up by one (the ensures spell out the comprehension
      for the solver). */
  ghost function Shifted(idx: seq<nat>): (r: seq<nat>)
    ensures |r| == |idx|
    ensures forall i :: 0 <= i < |idx| ==> r[i] == idx[i] + 1
  {
    seq(|idx|, i requires 0 <= i < |idx| => idx[i] + 1)
  }

  /** Filtering keeps the relative order of the remaining elements and
      drops only occurrences of `x`. */
  lemma KeepsOthersInOrder<T>(s: seq<T>, x: T)
    ensures x !in Without(s, x)
    ensures exists idx :: PicksOthersInOrder(Without(s, x), s, x, idx)
  {
    var idx := OrderWitness(s, x);
  }

  /** The embedding of `Without(s, x)` into `s`, built along the recursion. */
  lemma {:induction false} OrderWitness<T>(s: seq<T>, x: T) returns (idx: seq<nat>)
    ensures PicksOthersInOrder(Without(s, x), s, x, idx)
  {
    if s == [] {
      idx := [];
    } else {
      var idx' := OrderWitness(s[1..], x);
      assert s == [s[0]] + s[1..];
      ShiftedPicks(Without(s[1..], x), s[0], s[1..], idx');
      ShiftedCovers(s[0], s[1..], x, idx');
      if s[0] == x {
        idx := Shifted(idx');
      } else {
        idx := [0] + Shifted(idx');
        KeptHead(Without(s[1..], x), s[0], s[1..], x, idx');
      }
    }
  }

  /** A head other than `x` takes position 0, before the shifted tail. */
  lemma KeptHead<T>(r: seq<T>, a: T, t: seq<T>, x: T, idx: seq<nat>)
    requires a != x && PicksOthersInOrder(r, t, x, idx)
    requires Picks(r, [a] + t, Shifted(idx)) && Increasing(Shifted(idx))
    requires forall k :: 1 <= k <= |t| && ([a] + t)[k] != x ==> k in Shifted(idx)
    ensures PicksOthersInOrder([a] + r, [a] + t, x, [0] + Shifted(idx))
  {
    var s, full := [a] + t, [0] + Shifted(idx);
    assert Picks([a] + r, s, full) by {
      forall i | 0 <= i < |full| ensures full[i] < |s| && s[full[i]] == ([a] + r)[i] {
        if i > 0 { assert full[i] == Shifted(idx)[i - 1]; }
      }
    }
    assert CoversOthers(s, x, full) by {
      forall k | 0 <= k < |s| && s[k] != x ensures k in full {
        if k > 0 { assert k in Shifted(idx); }
      }
    }
  }

  /** Shifting an embedding into the tail gives one into the whole. */
  lemma ShiftedPicks<T>(r: seq<T>, a: T, t: seq<T>, idx: seq<nat>)
    requires |idx| == |r| && Picks(r, t, idx)
    ensures Picks(r, [a] + t, Shifted(idx))
    ensures Increasing(idx) ==> Increasing(Shifted(idx))
  {
    var s := [a] + t;
    forall i | 0 <= i < |idx| ensures s[idx[i] + 1] == r[i] {
      assert s[idx[i] + 1] == t[idx[i]];
    }
  }

  /** Shifting a covering of the tail covers every later position. */
  lemma ShiftedCovers<T>(a: T, t: seq<T>, x: T, idx: seq<nat>)
    requires CoversOthers(t, x, idx)
    ensures forall k :: 1 <= k <= |t| && ([a] + t)[k] != x ==> k in Shifted(idx)
    ensures a == x ==> CoversOthers([a] + t, x, Shifted(idx))
  {
    var s, sh := [a] + t, Shifted(idx);
    forall k | 1 <= k <= |t| && s[k] != x
      ensures k in sh
    {
      assert t[k - 1] == s[k];
      var i :| 0 <= i < |idx| && idx[i] == k - 1;
      assert sh[i] == k;
    }
  }

  /** Filtering out an absent element changes nothing. */
  lemma {:induction false} WithoutAbsent<T>(s: seq<T>, x: T)
    requires x !in s
    ensures Without(s, x) == s
  {
    if s != [] {
      assert s[1..] + [] == s[1..];
      assert x !in s[1..];
      WithoutAbsent(s[1..], x);
      assert [s[0]] + s[1..] == s;
    }
  }

  /** Filtering distributes over concatenation. */
  lemma {:induction false} WithoutConcat<T>(a: seq<T>, b: seq<T>, x: T)
    ensures Without(a + b, x) == Without(a, x) + Without(b, x)
  {
    if a == [] {
      assert a + b == b;
    } else {
      assert (a + b)[0] == a[0];
      assert (a + b)[1..] == a[1..] + b;
      WithoutConcat(a[1..], b, x);
    }
  }

  /** Filtering a duplicate-free sequence leaves it duplicate-free. */
  lemma {:induction false} WithoutKeepsNoDup<T>(s: seq<T>, x: T)
    requires NoDup(s)
    ensures NoDup(Without(s, x))
  {
    if s != [] {
      var t := s[1..];
      assert NoDup(t) by {
        forall i, j | 0 <= i < j < |t| ensures t[i] != t[j] {
          assert t[i] == s[i + 1] && t[j] == s[j + 1];
        }
      }
      WithoutKeepsNoDup(t, x);
      if s[0] != x {
        assert s[0] !in t by {
          forall i | 0 <= i < |t| ensures t[i] != s[0] {
            assert t[i] == s[i + 1];
          }
        }
        PrependKeepsNoDup(s[0], Without(t, x));
      }
    }
  }

  lemma PrependKeepsNoDup<T>(a: T, s: seq<T>)
    requires NoDup(s) && a !in s
    ensures NoDup([a] + s)
  {
    var r := [a] + s;
    forall i, j | 0 <= i < j < |r| ensures r[i] != r[j] {
      assert r[j] == s[j - 1];
      if i > 0 { assert r[i] == s[i - 1]; }
    }
  }

  /** Appending an absent element to a duplicate-free sequence keeps it
      duplicate-free. */
  lemma AppendKeepsNoDup<T>(s: seq<T>, a: T)
    requires NoDup(s) && a !in s
    ensures NoDup(s + [a])
  {
    var r := s + [a];
    forall i, j | 0 <= i < j < |r| ensures r[i] != r[j] {
      assert r[i] == s[i];
      if j < |s| { assert r[j] == s[j]; }
    }
  }
}
