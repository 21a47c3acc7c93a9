/** Shared vocabulary of the model: optional values, commit identifiers and
    the iteration order of Python dictionaries. */
module Common {

  datatype Option<T> = None | Some(value: T)

  /** A full commit hash as printed by `git rev-list`. */
  type Commit = string

  /** No element of `s` occurs twice. */
  predicate Distinct<T(==)>(s: seq<T>)
  {
    forall i, j :: 0 <= i < j < |s| ==> s[i] != s[j]
  }

  /** `order` is the iteration order of a dictionary whose entries are `m`:
      every key exactly once. */
  ghost predicate IsOrderOf<K(!new), V>(order: seq<K>, m: map<K, V>)
  {
    Distinct(order) && forall k :: k in order <==> k in m
  }

  /** `sep.join(parts)`. */
  function Join(sep: string, parts: seq<string>): (r: string)
    ensures parts != [] ==> |parts[0]| <= |r| && r[..|parts[0]|] == parts[0]
    ensures |parts| == 1 ==> r == parts[0]
  {
    if |parts| == 0 then ""
    else if |parts| == 1 then parts[0]
    else parts[0] + sep + Join(sep, parts[1..])
  }

  /** Joining two non-empty runs of parts puts one separator between
      their joins. */
  lemma {:induction false} JoinAppend(sep: string, a: seq<string>, b: seq<string>)
    requires a != [] && b != []
    ensures Join(sep, a + b) == Join(sep, a) + sep + Join(sep, b)
  {
    assert (a + b)[0] == a[0];
    if |a| == 1 {
      assert (a + b)[1..] == b;
    } else {
      assert (a + b)[1..] == a[1..] + b;
      JoinAppend(sep, a[1..], b);
      assert a[0] + sep + (Join(sep, a[1..]) + sep + Join(sep, b))
        == (a[0] + sep + Join(sep, a[1..])) + sep + Join(sep, b);
    }
  }

  /** Joining is empty exactly when there is nothing to join, provided no
      part is itself empty. */
  lemma {:induction false} JoinEmpty(sep: string, parts: seq<string>)
    requires forall i :: 0 <= i < |parts| ==> parts[i] != ""
    ensures Join(sep, parts) == "" <==> parts == []
  {
    if parts != [] {
      assert |parts[0]| <= |Join(sep, parts)|;
    }
  }

  /** A distinct sequence has as many elements as its set. */
  lemma {:induction false} DistinctCardinality<T>(s: seq<T>)
    requires Distinct(s)
    ensures |set x | x in s| == |s|
  {
    if s != [] {
      var t := s[..|s| - 1];
      var last := s[|s| - 1];
      assert Distinct(t);
      DistinctCardinality(t);
      assert (set x | x in s) == (set x | x in t) + {last} by {
        assert s == t + [last];
      }
      assert last !in t by {
        assert forall i :: 0 <= i < |t| ==> t[i] == s[i] && s[i] != s[|s| - 1];
      }
    }
  }

  /** An element of a distinct sequence occurs in it exactly once. */
  lemma {:induction false} DistinctOccursOnce<T>(s: seq<T>, x: T)
    requires Distinct(s) && x in s
    ensures multiset(s)[x] == 1
  {
    if s[0] == x {
      assert x !in s[1..] by {
        assert forall i :: 0 <= i < |s[1..]| ==> s[1..][i] == s[i + 1] && s[i + 1] != s[0];
      }
    } else {
      assert Distinct(s[1..]);
      DistinctOccursOnce(s[1..], x);
    }
    assert s == [s[0]] + s[1..];
  }

  /** No element of a distinct sequence occurs before its own position. */
  lemma {:induction false} DistinctNotBefore<T>(s: seq<T>, i: int)
    requires Distinct(s) && 0 <= i < |s|
    ensures s[i] !in s[..i]
  {
    assert forall k :: 0 <= k < i ==> s[..i][k] == s[k] && s[k] != s[i];
  }
}
