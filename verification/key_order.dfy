/**
 * The order in which the keys of a ConfigMap's data come back from the
 * cluster. The API server serialises a string map with its keys sorted, so
 * the keys are listed in lexicographic order of their characters.
 */
module KeyOrder {

  /** `a` is lexicographically at most `b`. */
  predicate LexLe(a: string, b: string)
  {
    |a| == 0 || (|b| > 0 && (a[0] < b[0] || (a[0] == b[0] && LexLe(a[1..], b[1..]))))
  }

  lemma {:induction false} LexLeReflexive(a: string)
    ensures LexLe(a, a)
  {
    if |a| > 0 {
      LexLeReflexive(a[1..]);
    }
  }

  lemma {:induction false} LexLeTotal(a: string, b: string)
    ensures LexLe(a, b) || LexLe(b, a)
  {
    if |a| > 0 && |b| > 0 && a[0] == b[0] {
      LexLeTotal(a[1..], b[1..]);
    }
  }

  lemma {:induction false} LexLeAntisymmetric(a: string, b: string)
    requires LexLe(a, b) && LexLe(b, a)
    ensures a == b
  {
    if |a| > 0 && |b| > 0 {
      LexLeAntisymmetric(a[1..], b[1..]);
      assert a == [a[0]] + a[1..] && b == [b[0]] + b[1..];
    }
  }

  lemma {:induction false} LexLeTransitive(a: string, b: string, c: string)
    requires LexLe(a, b) && LexLe(b, c)
    ensures LexLe(a, c)
  {
    if |a| > 0 && a[0] == b[0] && b[0] == c[0] {
      LexLeTransitive(a[1..], b[1..], c[1..]);
    }
  }

  /** `k` is the smallest member of `s`. */
  predicate IsLeast(k: string, s: set<string>)
  {
    k in s && forall j :: j in s ==> LexLe(k, j)
  }

  lemma {:induction false} LeastExists(s: set<string>)
    requires s != {}
    ensures exists k :: IsLeast(k, s)
    decreases |s|
  {
    var x :| x in s;
    LexLeReflexive(x);
    if s == {x} {
      assert IsLeast(x, s);
    } else {
      LeastExists(s - {x});
      var m :| IsLeast(m, s - {x});
      LexLeTotal(x, m);
      if LexLe(x, m) {
        forall j | j in s ensures LexLe(x, j) {
          if j != x { LexLeTransitive(x, m, j); }
        }
        assert IsLeast(x, s);
      } else {
        assert IsLeast(m, s);
      }
    }
  }

  lemma LeastUnique(s: set<string>)
    ensures forall k1, k2 :: IsLeast(k1, s) && IsLeast(k2, s) ==> k1 == k2
  {
    forall k1, k2 | IsLeast(k1, s) && IsLeast(k2, s) ensures k1 == k2 {
      LexLeAntisymmetric(k1, k2);
    }
  }

  /** Every element precedes every later one, and no element repeats. */
  predicate StrictlySorted(r: seq<string>)
  {
    forall i, j :: 0 <= i < j < |r| ==> LexLe(r[i], r[j]) && r[i] != r[j]
  }

  /** The keys of `s`, each once, in ascending order. */
  function SortedKeys(s: set<string>): (r: seq<string>)
    ensures |r| == |s|
    ensures forall k :: k in r <==> k in s
    ensures StrictlySorted(r)
    decreases |s|
  {
    if s == {} then []
    else
      LeastExists(s);
      LeastUnique(s);
      var k :| IsLeast(k, s);
      var rest := SortedKeys(s - {k});
      ConsSorted(k, rest);
      [k] + rest
  }

  /** Putting a smaller, new element in front keeps a sequence strictly sorted. */
  lemma ConsSorted(k: string, rest: seq<string>)
    requires StrictlySorted(rest)
    requires forall x :: x in rest ==> LexLe(k, x) && x != k
    ensures StrictlySorted([k] + rest)
  {
    var r := [k] + rest;
    forall i, j | 0 <= i < j < |r| ensures LexLe(r[i], r[j]) && r[i] != r[j] {
      assert r[j] == rest[j - 1];
      if i > 0 { assert r[i] == rest[i - 1]; }
    }
  }

  /**
   * The first element of a non-empty sequence is in it. Stated apart so that
   * the impossible case of SortedUnique needs no checked expression.
   */
  lemma HeadIn(r: seq<string>)
    requires r != []
    ensures r[0] in r
  {
  }

  /** Two strictly sorted sequences with the same elements are equal. */
  lemma {:induction false} SortedUnique(r1: seq<string>, r2: seq<string>)
    requires StrictlySorted(r1) && StrictlySorted(r2)
    requires forall k :: k in r1 <==> k in r2
    ensures r1 == r2
    decreases |r1|
  {
    if r1 == [] {
      if r2 != [] {
        HeadIn(r2);
        assert false;
      }
    } else {
      assert r1[0] in r2;
      assert r2 != [];
      assert r2[0] in r1;
      var i :| 0 <= i < |r1| && r1[i] == r2[0];
      var j :| 0 <= j < |r2| && r2[j] == r1[0];
      LexLeReflexive(r1[0]);
      assert LexLe(r1[0], r2[0]) by { if i > 0 { assert LexLe(r1[0], r1[i]); } }
      assert LexLe(r2[0], r1[0]) by { if j > 0 { assert LexLe(r2[0], r2[j]); } }
      LexLeAntisymmetric(r1[0], r2[0]);
      forall k ensures k in r1[1..] <==> k in r2[1..] {
        assert k in r1[1..] <==> k in r1 && k != r1[0];
        assert k in r2[1..] <==> k in r2 && k != r2[0];
      }
      SortedUnique(r1[1..], r2[1..]);
      assert r1 == [r1[0]] + r1[1..] && r2 == [r2[0]] + r2[1..];
    }
  }

  /** The position of `k` in `r`. */
  function IndexOf(r: seq<string>, k: string): (i: nat)
    requires k in r
    ensures i < |r| && r[i] == k
    ensures forall j :: 0 <= j < i ==> r[j] != k
  {
    if r[0] == k then 0 else 1 + IndexOf(r[1..], k)
  }

  /** Dropping the element at one position keeps a sequence strictly sorted. */
  lemma RemoveAtSorted(r: seq<string>, i: nat)
    requires i < |r| && StrictlySorted(r)
    ensures StrictlySorted(r[..i] + r[i + 1..])
  {
    var r' := r[..i] + r[i + 1..];
    forall a, b | 0 <= a < b < |r'| ensures LexLe(r'[a], r'[b]) && r'[a] != r'[b] {
      var a0 := if a < i then a else a + 1;
      var b0 := if b < i then b else b + 1;
      assert r'[a] == r[a0] && r'[b] == r[b0];
    }
  }

  /** Dropping the element at one position of a repetition-free sequence removes exactly that element. */
  lemma RemoveAtElements(r: seq<string>, i: nat)
    requires i < |r| && StrictlySorted(r)
    ensures forall x :: x in r[..i] + r[i + 1..] <==> x in r && x != r[i]
  {
    var r' := r[..i] + r[i + 1..];
    forall x ensures x in r' <==> x in r && x != r[i] {
      if x in r' {
        var a :| 0 <= a < |r'| && r'[a] == x;
        var a0 := if a < i then a else a + 1;
        assert r[a0] == x && a0 != i;
      }
      if x in r && x != r[i] {
        var a0 :| 0 <= a0 < |r| && r[a0] == x;
        if a0 < i { assert r'[a0] == x; } else { assert r'[a0 - 1] == x; }
      }
    }
  }

  /** A strictly sorted sequence holding all but one element of `r` is `r` without that element. */
  lemma SortedWithout(r: seq<string>, i: nat, rest: seq<string>)
    requires i < |r| && StrictlySorted(r) && StrictlySorted(rest)
    requires forall x :: x in rest <==> x in r && x != r[i]
    ensures rest == r[..i] + r[i + 1..]
  {
    RemoveAtSorted(r, i);
    RemoveAtElements(r, i);
    SortedUnique(rest, r[..i] + r[i + 1..]);
  }

  /**
   * Removing a key from the set removes exactly that key from the listing
   * and keeps the order of the others.
   */
  lemma SortedKeysRemove(s: set<string>, k: string)
    requires k in s
    ensures var r := SortedKeys(s); var i := IndexOf(r, k);
      SortedKeys(s - {k}) == r[..i] + r[i + 1..]
  {
    var r := SortedKeys(s);
    var i := IndexOf(r, k);
    var rest := SortedKeys(s - {k});
    forall x ensures x in rest <==> x in r && x != r[i] {
      assert x in rest <==> x in s - {k};
      assert x in r <==> x in s;
    }
    SortedWithout(r, i, rest);
  }
}
