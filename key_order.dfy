/**
 The order in which Go's text/template visits the entries of a map with string
 keys: ascending by the keys' byte-wise comparison. For well-formed UTF-8,
 byte-wise order coincides with the order of the code points, so it is stated
 here over Dafny's `char` (a Unicode scalar value).
 */
module KeyOrder {

  /**
   Go's definition of a < b on strings: a is a proper prefix of b, or at the
   first position where they differ a has the smaller character.
   */
  ghost predicate GoLess(a: string, b: string)
  {
    (|a| < |b| && a == b[..|a|]) ||
    exists i :: 0 <= i < |a| && i < |b| && a[..i] == b[..i] && a[i] < b[i]
  }

  /** GoLess compares the first characters and, when they agree, the rests. */
  lemma GoLessStep(a: string, b: string)
    requires |a| > 0 && |b| > 0
    ensures GoLess(a, b) <==> a[0] < b[0] || (a[0] == b[0] && GoLess(a[1..], b[1..]))
  {
    if GoLess(a, b) && !(a[0] < b[0]) {
      GoLessTail(a, b);
    }
    if a[0] == b[0] && GoLess(a[1..], b[1..]) {
      GoLessCons(a, b);
    } else if a[0] < b[0] {
      assert a[..0] == b[..0];
    }
  }

  lemma GoLessTail(a: string, b: string)
    requires |a| > 0 && |b| > 0 && GoLess(a, b) && !(a[0] < b[0])
    ensures a[0] == b[0] && GoLess(a[1..], b[1..])
  {
    if |a| < |b| && a == b[..|a|] {
      assert a[0] == b[..|a|][0];
      assert a[1..] == b[1..][..|a| - 1];
    } else {
      var i :| 0 <= i < |a| && i < |b| && a[..i] == b[..i] && a[i] < b[i];
      assert i != 0;
      assert a[0] == a[..i][0] && b[0] == b[..i][0];
      assert a[1..][..i - 1] == a[..i][1..] && b[1..][..i - 1] == b[..i][1..];
      assert a[1..][i - 1] == a[i] && b[1..][i - 1] == b[i];
    }
  }

  lemma GoLessCons(a: string, b: string)
    requires |a| > 0 && |b| > 0 && a[0] == b[0] && GoLess(a[1..], b[1..])
    ensures GoLess(a, b)
  {
    if |a[1..]| < |b[1..]| && a[1..] == b[1..][..|a| - 1] {
      assert a == [a[0]] + a[1..] && b[..|a|] == [b[0]] + b[1..][..|a| - 1];
    } else {
      var j :| 0 <= j < |a| - 1 && j < |b| - 1 && a[1..][..j] == b[1..][..j] && a[1..][j] < b[1..][j];
      assert a[..j + 1] == [a[0]] + a[1..][..j] && b[..j + 1] == [b[0]] + b[1..][..j];
      assert a[j + 1] == a[1..][j] && b[j + 1] == b[1..][j];
    }
  }

  /**
   Strict lexicographic order on strings, computed character by character;
   it agrees with Go's definition.
   */
  predicate LexLess(a: string, b: string)
    ensures LexLess(a, b) <==> GoLess(a, b)
  {
    if |a| == 0 then
      assert |b| > 0 ==> a == b[..0];
      |b| > 0
    else if |b| == 0 then false
    else
      GoLessStep(a, b);
      a[0] < b[0] || (a[0] == b[0] && LexLess(a[1..], b[1..]))
  }

  lemma {:induction false} LexLessTransitive(a: string, b: string, c: string)
    requires LexLess(a, b) && LexLess(b, c)
    ensures LexLess(a, c)
  {
    if |a| > 0 && a[0] == b[0] && b[0] == c[0] {
      LexLessTransitive(a[1..], b[1..], c[1..]);
    }
  }

  lemma {:induction false} LexLessTotal(a: string, b: string)
    requires a != b
    ensures LexLess(a, b) || LexLess(b, a)
  {
    if |a| > 0 && |b| > 0 && a[0] == b[0] {
      assert a == [a[0]] + a[1..] && b == [b[0]] + b[1..];
      LexLessTotal(a[1..], b[1..]);
    }
  }

  lemma LexLessAsymmetric(a: string, b: string)
    requires LexLess(a, b)
    ensures !LexLess(b, a)
  {
    if LexLess(b, a) {
      LexLessTransitive(a, b, a);
    }
  }

  /** r is the least element of s. */
  ghost predicate IsLeast(r: string, s: set<string>)
  {
    r in s && forall x :: x in s && x != r ==> LexLess(r, x)
  }

  /** The least key of a non-empty key set. */
  ghost function MinOf(s: set<string>): (r: string)
    requires s != {}
    ensures IsLeast(r, s)
    decreases s
  {
    var x :| x in s;
    if s == {x} then x
    else
      var m := MinOf(s - {x});
      MinStep(s, x, m);
      if LexLess(x, m) then x else m
  }

  /** One step of MinOf: the smaller of x and the least of the rest is the least. */
  lemma MinStep(s: set<string>, x: string, m: string)
    requires x in s && IsLeast(m, s - {x})
    ensures IsLeast(if LexLess(x, m) then x else m, s)
  {
    if LexLess(x, m) {
      forall y | y in s && y != x
        ensures LexLess(x, y)
      {
        if y != m { LexLessTransitive(x, m, y); }
      }
    } else {
      LexLessTotal(x, m);
    }
  }

  /** The least element of a set is unique. */
  lemma LeastUnique(r: string, q: string, s: set<string>)
    requires IsLeast(r, s) && IsLeast(q, s)
    ensures r == q
  {
    if r != q {
      LexLessAsymmetric(r, q);
    }
  }

  ghost predicate StrictlyAscending(ks: seq<string>)
  {
    forall i, j :: 0 <= i < j < |ks| ==> LexLess(ks[i], ks[j])
  }

  /** The keys of s in the order text/template visits them. */
  ghost function SortedOf(s: set<string>): (r: seq<string>)
    ensures |r| == |s|
    ensures forall k :: k in r <==> k in s
    ensures StrictlyAscending(r)
    decreases s
  {
    if s == {} then []
    else
      var k := MinOf(s);
      var rest := SortedOf(s - {k});
      assert forall j :: 0 <= j < |rest| ==> LexLess(k, rest[j]);
      [k] + rest
  }

  /** A strictly ascending sequence contains each element once: removing its head leaves the rest. */
  lemma AscendingTail(ks: seq<string>)
    requires |ks| > 0 && StrictlyAscending(ks)
    ensures ks[0] !in ks[1..]
    ensures StrictlyAscending(ks[1..])
  {
  }

  /**
   SortedOf is the only strictly ascending enumeration of a key set: any other
   ascending listing of the same keys is equal to it.
   */
  lemma {:induction false} SortedOfUnique(s: set<string>, ks: seq<string>)
    requires StrictlyAscending(ks)
    requires forall k :: k in ks <==> k in s
    ensures ks == SortedOf(s)
    decreases |ks|
  {
    if ks == [] {
      assert forall k :: k !in s;
    } else {
      var k := ks[0];
      assert IsLeast(k, s) by {
        forall x | x in s && x != k
          ensures LexLess(k, x)
        {
          var j :| 0 <= j < |ks| && ks[j] == x;
          assert j != 0;
        }
      }
      LeastUnique(k, MinOf(s), s);
      AscendingTail(ks);
      forall x
        ensures x in ks[1..] <==> x in s - {k}
      {
        if x in s - {k} {
          var j :| 0 <= j < |ks| && ks[j] == x;
          assert j != 0;
          assert ks[1..][j - 1] == x;
        }
      }
      SortedOfUnique(s - {k}, ks[1..]);
    }
  }

  /** Removing the least key from the set removes the head of its enumeration. */
  lemma SortedOfLeast(s: set<string>, k: string)
    requires IsLeast(k, s)
    ensures SortedOf(s) == [k] + SortedOf(s - {k})
  {
    LeastUnique(k, MinOf(s), s);
  }
}
