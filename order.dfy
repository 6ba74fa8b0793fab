/** The string order the launcher relies on, and the two standard algorithms it applies to
    lists of names: std::sort (ascending by that order) and std::unique (drop adjacent repeats).

    A C++ std::string is a sequence of bytes compared as unsigned chars; here each byte is one
    `char`, and Dafny's order on characters is the order on their codes. */
module Order {

  /** The sign of std::string::compare(a, b): the first differing character decides; when one
      string runs out first, the shorter one is the smaller. */
  function Compare(a: string, b: string): (r: int)
    ensures -1 <= r <= 1
    ensures r == 0 ==> |a| == |b|
  {
    if a == [] then (if b == [] then 0 else -1)
    else if b == [] then 1
    else if a[0] < b[0] then -1
    else if b[0] < a[0] then 1
    else Compare(a[1..], b[1..])
  }

  /** `p` is a prefix of `s`. */
  predicate IsPrefix(p: string, s: string)
  {
    |p| <= |s| && s[..|p|] == p
  }

  lemma {:induction false} CompareZero(a: string, b: string)
    ensures Compare(a, b) == 0 <==> a == b
  {
    if a != [] && b != [] && a[0] == b[0] {
      CompareZero(a[1..], b[1..]);
      assert a == [a[0]] + a[1..];
      assert b == [b[0]] + b[1..];
    }
  }

  lemma {:induction false} CompareAntisymmetric(a: string, b: string)
    ensures Compare(b, a) == -Compare(a, b)
  {
    if a != [] && b != [] && a[0] == b[0] {
      CompareAntisymmetric(a[1..], b[1..]);
    }
  }

  lemma {:induction false} CompareTransitive(a: string, b: string, c: string)
    requires Compare(a, b) <= 0 && Compare(b, c) <= 0
    ensures Compare(a, c) <= 0
  {
    if a != [] && b != [] && c != [] && a[0] == b[0] && b[0] == c[0] {
      CompareTransitive(a[1..], b[1..], c[1..]);
    }
  }

  /** Transitivity is strict as soon as one of the two steps is strict. */
  lemma CompareStrictTransitive(a: string, b: string, c: string)
    requires Compare(a, b) <= 0 && Compare(b, c) <= 0
    requires Compare(a, b) < 0 || Compare(b, c) < 0
    ensures Compare(a, c) < 0
  {
    CompareTransitive(a, b, c);
    CompareZero(a, c);
    CompareAntisymmetric(a, b);
    CompareAntisymmetric(b, c);
  }

  /** A prefix never sorts after the string it begins. */
  lemma {:induction false} PrefixPrecedes(p: string, s: string)
    requires IsPrefix(p, s)
    ensures Compare(p, s) <= 0
  {
    if p != [] {
      assert p[0] == s[0];
      assert s[1..][..|p| - 1] == p[1..];
      PrefixPrecedes(p[1..], s[1..]);
    }
  }

  /** A string that sorts between `p` and a string beginning with `p` begins with `p` too.
      This is what lets a scan over a sorted list stop at the first name that is not smaller
      than the input. */
  lemma {:induction false} PrefixBetween(p: string, m: string, n: string)
    requires Compare(p, m) <= 0 && Compare(m, n) <= 0
    requires IsPrefix(p, n)
    ensures IsPrefix(p, m)
  {
    if p != [] {
      assert n[0] == p[0];
      assert m != [];
      assert m[0] == p[0];
      assert n[1..][..|p| - 1] == p[1..];
      PrefixBetween(p[1..], m[1..], n[1..]);
      assert m[..|p|] == [m[0]] + m[1..][..|p| - 1];
      assert p == [p[0]] + p[1..];
    }
  }

  /** Ascending, repeats allowed: what std::sort leaves behind. */
  predicate Sorted(s: seq<string>)
  {
    forall i, j :: 0 <= i < j < |s| ==> Compare(s[i], s[j]) <= 0
  }

  /** Strictly ascending: sorted and free of duplicates. */
  predicate StrictlySorted(s: seq<string>)
  {
    forall i, j :: 0 <= i < j < |s| ==> Compare(s[i], s[j]) < 0
  }

  lemma InsertFront(x: string, s: seq<string>)
    requires Sorted(s) && s != [] && Compare(x, s[0]) <= 0
    ensures Sorted([x] + s)
  {
    forall k | 0 <= k < |s| ensures Compare(x, s[k]) <= 0 {
      if k > 0 {
        CompareTransitive(x, s[0], s[k]);
      }
    }
  }

  lemma InsertBehind(x: string, s: seq<string>, t: seq<string>)
    requires Sorted(s) && s != [] && Compare(x, s[0]) > 0
    requires Sorted(t) && multiset(t) == multiset(s[1..]) + multiset{x}
    ensures Sorted([s[0]] + t)
  {
    CompareAntisymmetric(x, s[0]);
    forall k | 0 <= k < |t| ensures Compare(s[0], t[k]) <= 0 {
      assert t[k] in multiset(t);
      if t[k] != x {
        assert t[k] in s[1..];
        var j :| 0 <= j < |s[1..]| && s[1..][j] == t[k];
        assert s[j + 1] == t[k];
      }
    }
    var r := [s[0]] + t;
    forall i, j | 0 <= i < j < |r| ensures Compare(r[i], r[j]) <= 0 {
      if i > 0 {
        assert r[i] == t[i - 1] && r[j] == t[j - 1];
      }
    }
  }

  /** Inserts `x` into a list before the first element it does not sort after. */
  function Insert(x: string, s: seq<string>): (r: seq<string>)
    ensures multiset(r) == multiset(s) + multiset{x}
    decreases |s|
  {
    if s == [] then [x]
    else if Compare(x, s[0]) <= 0 then [x] + s
    else
      assert s == [s[0]] + s[1..];
      [s[0]] + Insert(x, s[1..])
  }

  /** Inserting into a sorted list keeps it sorted. */
  lemma {:induction false} InsertSorted(x: string, s: seq<string>)
    requires Sorted(s)
    ensures Sorted(Insert(x, s))
    decreases |s|
  {
    if s != [] {
      if Compare(x, s[0]) <= 0 {
        InsertFront(x, s);
      } else {
        assert Sorted(s[1..]);
        InsertSorted(x, s[1..]);
        InsertBehind(x, s, Insert(x, s[1..]));
      }
    }
  }

  /** std::sort over a list of names: the result is ascending and a permutation of the input. */
  function Sort(s: seq<string>): (r: seq<string>)
    ensures Sorted(r)
    ensures multiset(r) == multiset(s)
  {
    if s == [] then []
    else
      assert s == [s[0]] + s[1..];
      var t := Sort(s[1..]);
      InsertSorted(s[0], t);
      Insert(s[0], t)
  }

  /** What std::unique leaves of a list: every run of equal neighbours collapsed to one
      element.  Written from the back, the way the in-place algorithm walks forwards. */
  function Squash(s: seq<string>): (r: seq<string>)
    ensures |r| <= |s|
    ensures |s| > 0 ==> |r| > 0 && r[0] == s[0] && r[|r| - 1] == s[|s| - 1]
    ensures forall i :: 0 <= i < |r| - 1 ==> r[i] != r[i + 1]
    ensures forall x :: x in r <==> x in s
    decreases |s|
  {
    if |s| <= 1 then s
    else
      var init := s[..|s| - 1];
      assert s == init + [s[|s| - 1]];
      var t := Squash(init);
      if s[|s| - 1] == s[|s| - 2] then t else t + [s[|s| - 1]]
  }

  /** Only adjacent repeats are removed: a list without equal neighbours is left as it is,
      in the same order, even when an element occurs twice further apart. */
  lemma {:induction false} SquashKeepsDistinctNeighbours(s: seq<string>)
    requires forall i :: 0 <= i < |s| - 1 ==> s[i] != s[i + 1]
    ensures Squash(s) == s
    decreases |s|
  {
    if |s| > 1 {
      var init := s[..|s| - 1];
      SquashKeepsDistinctNeighbours(init);
      assert s == init + [s[|s| - 1]];
    }
  }

  lemma SquashIdempotent(s: seq<string>)
    ensures Squash(Squash(s)) == Squash(s)
  {
    SquashKeepsDistinctNeighbours(Squash(s));
  }

  /** Appending an element above every element keeps a list strictly ascending. */
  lemma AppendAbove(t: seq<string>, x: string)
    requires StrictlySorted(t)
    requires forall i :: 0 <= i < |t| ==> Compare(t[i], x) < 0
    ensures StrictlySorted(t + [x])
  {
    var r := t + [x];
    forall i, j | 0 <= i < j < |r| ensures Compare(r[i], r[j]) < 0 {
      if j < |t| {
        assert r[i] == t[i] && r[j] == t[j];
      } else {
        assert r[i] == t[i] && r[j] == x;
      }
    }
  }

  /** In a sorted list every element before the second-to-last position sorts strictly below
      a last element that differs from the one before it. */
  lemma BelowDistinctLast(s: seq<string>, e: string)
    requires Sorted(s) && |s| > 1 && s[|s| - 1] != s[|s| - 2]
    requires e in s[..|s| - 1]
    ensures Compare(e, s[|s| - 1]) < 0
  {
    var n := |s|;
    CompareZero(s[n - 2], s[n - 1]);
    var k :| 0 <= k < n - 1 && s[..n - 1][k] == e;
    assert s[k] == e;
    if k < n - 2 {
      CompareStrictTransitive(s[k], s[n - 2], s[n - 1]);
    }
  }

  /** Sorting and then removing adjacent repeats leaves no duplicate at all. */
  lemma {:induction false} SquashSorted(s: seq<string>)
    requires Sorted(s)
    ensures StrictlySorted(Squash(s))
    decreases |s|
  {
    if |s| > 1 {
      var n := |s|;
      var init := s[..n - 1];
      assert Sorted(init);
      SquashSorted(init);
      var t := Squash(init);
      if s[n - 1] != s[n - 2] {
        forall i | 0 <= i < |t| ensures Compare(t[i], s[n - 1]) < 0 {
          assert t[i] in t;
          BelowDistinctLast(s, t[i]);
        }
        AppendAbove(t, s[n - 1]);
      }
    }
  }

  /** std::unique followed by erase: keeps an element unless it equals the last one kept. */
  method Unique(s: seq<string>) returns (r: seq<string>)
    ensures r == Squash(s)
  {
    r := [];
    var i := 0;
    while i < |s|
      invariant 0 <= i <= |s|
      invariant r == Squash(s[..i])
    {
      assert s[..i + 1][..i] == s[..i];
      if r == [] || r[|r| - 1] != s[i] {
        r := r + [s[i]];
      }
      i := i + 1;
    }
    assert s[..i] == s;
  }

  /** In a strictly ascending list the first element precedes every other one, and the rest
      of the list holds exactly the other elements. */
  lemma HeadOfStrictlySorted(a: seq<string>, x: string)
    requires StrictlySorted(a) && a != []
    ensures x in a && x != a[0] ==> Compare(a[0], x) < 0
    ensures x in a[1..] <==> x in a && x != a[0]
  {
    assert a == [a[0]] + a[1..];
    if x in a[1..] {
      var i :| 0 <= i < |a[1..]| && a[1..][i] == x;
      CompareZero(a[0], a[i + 1]);
    }
  }

  /** A strictly ascending list is determined by the set of its elements. */
  lemma {:induction false} StrictlySortedUnique(a: seq<string>, b: seq<string>)
    requires StrictlySorted(a) && StrictlySorted(b)
    requires forall x :: x in a <==> x in b
    ensures a == b
    decreases |a|
  {
    assert a != [] ==> a[0] in a;
    assert b != [] ==> b[0] in b;
    if a != [] && b != [] {
      HeadOfStrictlySorted(a, b[0]);
      HeadOfStrictlySorted(b, a[0]);
      CompareAntisymmetric(a[0], b[0]);
      assert a[0] == b[0];
      forall x ensures x in a[1..] <==> x in b[1..] {
        HeadOfStrictlySorted(a, x);
        HeadOfStrictlySorted(b, x);
      }
      StrictlySortedUnique(a[1..], b[1..]);
      assert a == [a[0]] + a[1..];
      assert b == [b[0]] + b[1..];
    }
  }
}
