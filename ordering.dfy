/**
  Ascending sequences of versions. The ledger is a set of versions and the
  queries over it return them in ascending order; `SortedSeq` is that order.
 */
module Ordering {

  /** Every element is smaller than every element after it. */
  predicate StrictlyAscending(s: seq<int>) {
    forall i, j :: 0 <= i < j < |s| ==> s[i] < s[j]
  }

  /** Every element is greater than every element after it. */
  predicate StrictlyDescending(s: seq<int>) {
    forall i, j :: 0 <= i < j < |s| ==> s[i] > s[j]
  }

  function Elems(s: seq<int>): set<int> {
    set x | x in s
  }

  /** The sequence read back to front. */
  function Reversed(s: seq<int>): (r: seq<int>)
    ensures |r| == |s|
    ensures forall i :: 0 <= i < |s| ==> r[i] == s[|s| - 1 - i]
  {
    if s == [] then [] else Reversed(s[1..]) + [s[0]]
  }

  /** A set that is not empty has an element (stated so that no branch is vacuous). */
  lemma NonEmptyHasElement(s: set<int>)
    ensures s != {} ==> exists y :: y in s
  {
    if forall y :: y !in s {
      assert s == {};
    }
  }

  lemma {:induction false} LeastExists(s: set<int>)
    requires s != {}
    ensures exists m :: IsLeast(m, s)
  {
    NonEmptyHasElement(s);
    var y :| y in s;
    if s != {y} {
      var r := s - {y};
      LeastExists(r);
      var m :| IsLeast(m, r);
      var least := if y < m then y else m;
      forall x | x in s ensures least <= x {
        if x != y { assert x in r; }
      }
      assert IsLeast(least, s);
    } else {
      assert IsLeast(y, s);
    }
  }

  /** `m` is the smallest element of `s`. */
  predicate IsLeast(m: int, s: set<int>) {
    m in s && forall x :: x in s ==> m <= x
  }

  /** The smallest element of a non-empty set. */
  function Least(s: set<int>): (m: int)
    requires s != {}
    ensures IsLeast(m, s)
  {
    LeastExists(s);
    var m :| IsLeast(m, s); m
  }

  /** Putting an element below all of an ascending sequence in front keeps it ascending. */
  lemma ConsAscending(m: int, rest: seq<int>)
    requires StrictlyAscending(rest) && forall x :: x in Elems(rest) ==> m < x
    ensures StrictlyAscending([m] + rest)
    ensures Elems([m] + rest) == {m} + Elems(rest)
  {
    var r := [m] + rest;
    forall i, j | 0 <= i < j < |r| ensures r[i] < r[j] {
      assert r[j] == rest[j - 1];
      if i > 0 {
        assert r[i] == rest[i - 1];
      } else {
        assert rest[j - 1] in Elems(rest);
      }
    }
    assert Elems(r) == {m} + Elems(rest) by {
      forall x | x in Elems(r) ensures x in {m} + Elems(rest) {
        var i :| 0 <= i < |r| && r[i] == x;
        if i > 0 { assert rest[i - 1] == x; }
      }
    }
  }

  /** The elements of `s`, each once, in ascending order. */
  function SortedSeq(s: set<int>): (r: seq<int>)
    ensures StrictlyAscending(r)
    ensures Elems(r) == s
    ensures |r| == |s|
    decreases |s|
  {
    if s == {} then []
    else
      var m := Least(s);
      var rest := SortedSeq(s - {m});
      ConsAscending(m, rest);
      [m] + rest
  }

  lemma ElemsEmpty(s: seq<int>)
    ensures Elems(s) == {} <==> s == []
  {
    if s != [] {
      assert s[0] in Elems(s);
    }
  }

  /** The first element of a non-empty ascending sequence is its least. */
  lemma FirstIsLeast(s: seq<int>)
    requires StrictlyAscending(s) && s != []
    ensures IsLeast(s[0], Elems(s))
  {
    forall x | x in Elems(s) ensures s[0] <= x {
      var j :| 0 <= j < |s| && s[j] == x;
      if j > 0 { assert s[0] < s[j]; }
    }
  }

  /** Dropping the head of an ascending sequence drops exactly that element. */
  lemma TailElems(s: seq<int>)
    requires StrictlyAscending(s) && s != []
    ensures Elems(s[1..]) == Elems(s) - {s[0]}
  {
    assert s == [s[0]] + s[1..];
    forall j | 1 <= j < |s| ensures s[j] != s[0] {
      assert s[0] < s[j];
    }
  }

  /** A strictly ascending sequence is determined by its elements. */
  lemma {:induction false} AscendingUnique(a: seq<int>, b: seq<int>)
    requires StrictlyAscending(a) && StrictlyAscending(b)
    requires Elems(a) == Elems(b)
    ensures a == b
  {
    ElemsEmpty(a);
    ElemsEmpty(b);
    if a != [] && b != [] {
      FirstIsLeast(a);
      FirstIsLeast(b);
      TailElems(a);
      TailElems(b);
      AscendingUnique(a[1..], b[1..]);
      assert a == [a[0]] + a[1..] && b == [b[0]] + b[1..];
    }
  }

  /** The last element of a non-empty ascending sequence is its greatest. */
  lemma LastIsGreatest(s: seq<int>)
    requires StrictlyAscending(s) && s != []
    ensures forall x :: x in Elems(s) ==> x <= s[|s| - 1]
  {
  }

  /** The greatest element of a non-empty set. */
  function Greatest(s: set<int>): (m: int)
    requires s != {}
    ensures m in s && forall x :: x in s ==> x <= m
  {
    var a := SortedSeq(s);
    ElemsEmpty(a);
    LastIsGreatest(a);
    a[|a| - 1]
  }

  /** A suffix of an ascending sequence is ascending. */
  lemma SuffixAscending(s: seq<int>, i: nat)
    requires StrictlyAscending(s) && i <= |s|
    ensures StrictlyAscending(s[i..])
  {
    forall j, k | 0 <= j < k < |s| - i ensures s[i..][j] < s[i..][k] {
      assert s[i..][j] == s[i + j] && s[i..][k] == s[i + k];
    }
  }

  /** Reading the last `n` elements of an ascending sequence back to front gives a descending one. */
  lemma {:induction false} ReversedSuffixDescending(s: seq<int>, n: nat)
    requires StrictlyAscending(s) && n <= |s|
    ensures StrictlyDescending(Reversed(s[|s| - n..]))
  {
    var t := s[|s| - n..];
    var r := Reversed(t);
    forall i, j | 0 <= i < j < |r| ensures r[i] > r[j] {
      assert r[i] == t[|t| - 1 - i] && r[j] == t[|t| - 1 - j];
    }
  }

  lemma ElemsConcat(a: seq<int>, b: seq<int>)
    ensures Elems(a + b) == Elems(a) + Elems(b)
  {
    forall x | x in Elems(a + b) ensures x in Elems(a) + Elems(b) {
      var i :| 0 <= i < |a + b| && (a + b)[i] == x;
      if i < |a| { assert a[i] == x; } else { assert b[i - |a|] == x; }
    }
  }

  /** The first `k` elements of the reversed suffix are the last `k` elements. */
  lemma ReversedPrefixElems(s: seq<int>, n: nat, k: nat)
    requires k <= n <= |s|
    ensures Elems(Reversed(s[|s| - n..])[..k]) == Elems(s[|s| - k..])
  {
    var t := Reversed(s[|s| - n..]);
    forall x | x in Elems(t[..k]) ensures x in Elems(s[|s| - k..]) {
      var i :| 0 <= i < k && t[..k][i] == x;
      assert t[i] == s[|s| - 1 - i];
      assert s[|s| - k..][k - 1 - i] == x;
    }
    forall x | x in Elems(s[|s| - k..]) ensures x in Elems(t[..k]) {
      var j :| 0 <= j < k && s[|s| - k..][j] == x;
      assert t[k - 1 - j] == s[|s| - k + j];
      assert t[..k][k - 1 - j] == x;
    }
  }

  /**
    Removing the first `k` elements of the reversed suffix of length `n` from
    the elements of an ascending sequence leaves its first `|s| - k` elements.
   */
  lemma RemoveReversedPrefix(s: seq<int>, n: nat, k: nat)
    requires StrictlyAscending(s) && k <= n <= |s|
    ensures Elems(s) - Elems(Reversed(s[|s| - n..])[..k]) == Elems(s[..|s| - k])
  {
    ReversedPrefixElems(s, n, k);
    var front, back := s[..|s| - k], s[|s| - k..];
    assert s == front + back;
    ElemsConcat(front, back);
    forall x | x in Elems(front) ensures x !in Elems(back) {
      var i :| 0 <= i < |front| && front[i] == x;
      forall j | 0 <= j < |back| ensures back[j] != x {
        assert s[i] < s[|front| + j];
      }
    }
  }
}
