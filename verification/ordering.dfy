/**
 * Python's ordering of `str` values and the sorted, de-duplicated key lists
 * that pandas' `groupby` produces from a column of strings.
 */
module Ordering {

  /** `a < b` on Python strings: lexicographic by code point, a proper prefix is smaller. */
  predicate Less(a: string, b: string)
    decreases |a|
  {
    |b| > 0 && (|a| == 0 || a[0] < b[0] || (a[0] == b[0] && Less(a[1..], b[1..])))
  }

  lemma {:induction false} LessIrreflexive(a: string)
    ensures !Less(a, a)
  {
    if |a| > 0 {
      LessIrreflexive(a[1..]);
    }
  }

  lemma {:induction false} LessTransitive(a: string, b: string, c: string)
    requires Less(a, b) && Less(b, c)
    ensures Less(a, c)
  {
    if |a| > 0 && a[0] == b[0] && b[0] == c[0] {
      LessTransitive(a[1..], b[1..], c[1..]);
    }
  }

  lemma {:induction false} LessTotal(a: string, b: string)
    requires a != b
    ensures Less(a, b) || Less(b, a)
  {
    if |a| > 0 && |b| > 0 && a[0] == b[0] {
      assert a == [a[0]] + a[1..] && b == [b[0]] + b[1..];
      LessTotal(a[1..], b[1..]);
    }
  }

  /**
   * Comparing two strings that start with prefixes of the same length compares
   * the prefixes first and the rest only when the prefixes agree.
   */
  lemma {:induction false} LessConcat(p: string, s: string, q: string, t: string)
    requires |p| == |q|
    ensures Less(p + s, q + t) <==> Less(p, q) || (p == q && Less(s, t))
  {
    if |p| > 0 {
      assert (p + s)[1..] == p[1..] + s;
      assert (q + t)[1..] == q[1..] + t;
      LessConcat(p[1..], s, q[1..], t);
      if p[0] == q[0] && p[1..] == q[1..] {
        assert p == [p[0]] + p[1..] && q == [q[0]] + q[1..];
      }
    } else {
      assert p + s == s && q + t == t;
    }
  }

  /** No value occurs twice. */
  predicate Distinct(ks: seq<string>)
  {
    forall i, j :: 0 <= i < |ks| && 0 <= j < |ks| && i != j ==> ks[i] != ks[j]
  }

  /** Keys in strictly ascending order, hence without repetition. */
  predicate StrictlyAscending(ks: seq<string>)
  {
    forall i, j :: 0 <= i < j < |ks| ==> Less(ks[i], ks[j])
  }

  lemma AscendingDistinct(ks: seq<string>, i: int, j: int)
    requires StrictlyAscending(ks)
    requires 0 <= i < |ks| && 0 <= j < |ks| && i != j
    ensures ks[i] != ks[j]
  {
    if i < j {
      LessIrreflexive(ks[i]);
    } else {
      LessIrreflexive(ks[j]);
    }
  }

  /** Puts `k` into its place in an ascending key list, unless it is already there. */
  function Insert(ks: seq<string>, k: string): (r: seq<string>)
    requires StrictlyAscending(ks)
    ensures StrictlyAscending(r)
    ensures forall x :: x in r <==> x in ks || x == k
  {
    if ks == [] then [k]
    else if k == ks[0] then ks
    else if Less(k, ks[0]) then
      assert forall j :: 0 < j < |ks| ==> Less(k, ks[j]) by {
        forall j | 0 < j < |ks| ensures Less(k, ks[j]) {
          LessTransitive(k, ks[0], ks[j]);
        }
      }
      [k] + ks
    else
      LessTotal(k, ks[0]);
      var rest := Insert(ks[1..], k);
      assert forall x :: x in rest ==> Less(ks[0], x) by {
        forall x | x in rest ensures Less(ks[0], x) {
          if x != k {
            var j :| 0 <= j < |ks[1..]| && ks[1..][j] == x;
            assert ks[j + 1] == x;
          }
        }
      }
      assert ks == [ks[0]] + ks[1..];
      [ks[0]] + rest
  }

  /** The distinct values of `keys` in ascending order: the index of a `groupby` result. */
  function SortedKeys(keys: seq<string>): (r: seq<string>)
    ensures StrictlyAscending(r)
    ensures forall x :: x in r <==> x in keys
    ensures |r| <= |keys|
  {
    if keys == [] then []
    else
      var init := keys[..|keys| - 1];
      var prev := SortedKeys(init);
      assert keys == init + [keys[|keys| - 1]];
      var r := Insert(prev, keys[|keys| - 1]);
      InsertLength(prev, keys[|keys| - 1]);
      r
  }

  lemma {:induction false} InsertLength(ks: seq<string>, k: string)
    requires StrictlyAscending(ks)
    ensures |Insert(ks, k)| <= |ks| + 1
  {
    if ks != [] && k != ks[0] && !Less(k, ks[0]) {
      InsertLength(ks[1..], k);
    }
  }
}
