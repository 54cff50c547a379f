/** An in-memory table is a sequence of rows in insertion order; these are the
    queries the repositories run against one. */
module Tables {
  import opened Wrappers

  /** Why a store operation failed: no row matched, or a unique column was already taken. */
  datatype StoreError = NotFound | Conflict

  /** The rows of `s` that satisfy `keep`, in table order: `SELECT … WHERE keep`. */
  function Filter<T>(s: seq<T>, keep: T -> bool): (r: seq<T>)
    ensures |r| <= |s|
    ensures forall i :: 0 <= i < |r| ==> r[i] in s && keep(r[i])
  {
    if s == [] then []
    else if keep(s[0]) then [s[0]] + Filter(s[1..], keep)
    else Filter(s[1..], keep)
  }

  /** Every row that satisfies the condition is selected. */
  lemma {:induction false} FilterSelects<T>(s: seq<T>, keep: T -> bool, x: T)
    requires x in s && keep(x)
    ensures x in Filter(s, keep)
  {
    if s[0] != x {
      FilterSelects(s[1..], keep, x);
    }
  }

  /** The first row of `s` that satisfies `p`: `SELECT … WHERE p LIMIT 1`. */
  function FirstWhere<T>(s: seq<T>, p: T -> bool): (r: Option<T>)
    ensures r.None? <==> Filter(s, p) == []
    ensures r.Some? ==> r.value == Filter(s, p)[0]
    ensures r.Some? ==> r.value in s && p(r.value)
    ensures r.None? <==> forall j :: 0 <= j < |s| ==> !p(s[j])
  {
    if s == [] then None
    else if p(s[0]) then Some(s[0])
    else FirstWhere(s[1..], p)
  }

  /** Nothing is selected exactly when no row satisfies the condition. */
  lemma FilterEmptyIff<T>(s: seq<T>, keep: T -> bool)
    ensures Filter(s, keep) == [] <==> forall j :: 0 <= j < |s| ==> !keep(s[j])
  {
    // FirstWhere's contract supplies the witness row when some row passes.
    var first := FirstWhere(s, keep);
  }

  /** When exactly one row satisfies `p`, that row is the one found. */
  lemma {:induction false} FirstWhereSole<T>(s: seq<T>, p: T -> bool, i: nat)
    requires i < |s| && p(s[i])
    requires forall j :: 0 <= j < |s| && j != i ==> !p(s[j])
    ensures FirstWhere(s, p) == Some(s[i])
  {
    if i > 0 {
      FirstWhereSole(s[1..], p, i - 1);
    }
  }

  /** No two rows share a key. */
  ghost predicate UniqueBy<T, K>(s: seq<T>, key: T -> K) {
    forall i, j :: 0 <= i < j < |s| ==> key(s[i]) != key(s[j])
  }

  /** No two rows share a key, where rows whose key is null are exempt (SQL `UNIQUE` on a nullable column). */
  ghost predicate UniqueWhenPresent<T, K>(s: seq<T>, key: T -> Option<K>) {
    forall i, j :: 0 <= i < j < |s| && key(s[i]).Some? ==> key(s[i]) != key(s[j])
  }

  lemma {:induction false} FilterConcat<T>(a: seq<T>, b: seq<T>, keep: T -> bool)
    ensures Filter(a + b, keep) == Filter(a, keep) + Filter(b, keep)
  {
    if a == [] {
      assert a + b == b;
    } else {
      assert (a + b)[1..] == a[1..] + b;
      FilterConcat(a[1..], b, keep);
    }
  }

  /** A filter that every row passes leaves the table as it is. */
  lemma {:induction false} FilterKeepsAll<T>(s: seq<T>, keep: T -> bool)
    requires forall j :: 0 <= j < |s| ==> keep(s[j])
    ensures Filter(s, keep) == s
  {
    if s != [] {
      FilterKeepsAll(s[1..], keep);
    }
  }

  /** Filtering twice with the same condition is filtering once. */
  lemma FilterIdempotent<T>(s: seq<T>, keep: T -> bool)
    ensures Filter(Filter(s, keep), keep) == Filter(s, keep)
  {
    var r := Filter(s, keep);
    assert forall j :: 0 <= j < |r| ==> keep(r[j]);
    FilterKeepsAll(r, keep);
  }

  /** Removing rows that `q` rejects anyway does not change what `q` selects. */
  lemma {:induction false} FilterNarrow<T>(s: seq<T>, keep: T -> bool, q: T -> bool)
    requires forall j :: 0 <= j < |s| && q(s[j]) ==> keep(s[j])
    ensures Filter(Filter(s, keep), q) == Filter(s, q)
  {
    if s != [] {
      FilterNarrow(s[1..], keep, q);
    }
  }

  /** A filter that rejects row `i` and keeps every other removes just that row. */
  lemma {:induction false} FilterDropsIndex<T>(s: seq<T>, i: nat, keep: T -> bool)
    requires i < |s| && !keep(s[i])
    requires forall j :: 0 <= j < |s| && j != i ==> keep(s[j])
    ensures Filter(s, keep) == s[..i] + s[i + 1..]
  {
    var tail := s[1..];
    if i == 0 {
      forall j | 0 <= j < |tail| ensures keep(tail[j]) {
        assert tail[j] == s[j + 1];
      }
      FilterKeepsAll(tail, keep);
      assert s[..0] + s[1..] == tail;
    } else {
      forall j | 0 <= j < |tail| && j != i - 1 ensures keep(tail[j]) {
        assert tail[j] == s[j + 1];
      }
      FilterDropsIndex(tail, i - 1, keep);
      assert [s[0]] + (tail[..i - 1] + tail[i..]) == s[..i] + s[i + 1..];
    }
  }

  /** Deleting by a unique key removes exactly the one row that carries it. */
  lemma FilterByUniqueKey<T, K>(s: seq<T>, i: nat, key: T -> K, keep: T -> bool)
    requires i < |s| && UniqueBy(s, key)
    requires forall j :: 0 <= j < |s| ==> (keep(s[j]) <==> key(s[j]) != key(s[i]))
    ensures Filter(s, keep) == s[..i] + s[i + 1..]
  {
    UniqueOthers(s, i, key);
    FilterDropsIndex(s, i, keep);
  }

  /** Taking one selected row out of a table lowers the size of the selection by one. */
  lemma FilterWithout<T>(s: seq<T>, i: nat, q: T -> bool)
    requires i < |s| && q(s[i])
    ensures |Filter(s[..i] + s[i + 1..], q)| == |Filter(s, q)| - 1
  {
    assert s == s[..i] + [s[i]] + s[i + 1..];
    FilterConcat(s[..i] + [s[i]], s[i + 1..], q);
    FilterConcat(s[..i], [s[i]], q);
    FilterConcat(s[..i], s[i + 1..], q);
    assert Filter([s[i]], q) == [s[i]] by {
      assert [s[i]][1..] == [];
    }
  }

  lemma {:induction false} FilterUniqueBy<T, K>(s: seq<T>, keep: T -> bool, key: T -> K)
    requires UniqueBy(s, key)
    ensures UniqueBy(Filter(s, keep), key)
  {
    if s != [] {
      FilterUniqueBy(s[1..], keep, key);
      if keep(s[0]) {
        var t := Filter(s[1..], keep);
        var r := [s[0]] + t;
        forall i, j | 0 <= i < j < |r| ensures key(r[i]) != key(r[j]) {
          if i == 0 {
            assert r[j] in s[1..];
            var m :| 0 <= m < |s[1..]| && s[1..][m] == r[j];
            assert s[m + 1] == r[j];
          } else {
            assert r[i] == t[i - 1] && r[j] == t[j - 1];
          }
        }
      }
    }
  }

  lemma {:induction false} FilterUniqueWhenPresent<T, K>(s: seq<T>, keep: T -> bool, key: T -> Option<K>)
    requires UniqueWhenPresent(s, key)
    ensures UniqueWhenPresent(Filter(s, keep), key)
  {
    if s != [] {
      FilterUniqueWhenPresent(s[1..], keep, key);
      if keep(s[0]) {
        var t := Filter(s[1..], keep);
        var r := [s[0]] + t;
        forall i, j | 0 <= i < j < |r| && key(r[i]).Some? ensures key(r[i]) != key(r[j]) {
          if i == 0 {
            assert r[j] in s[1..];
            var m :| 0 <= m < |s[1..]| && s[1..][m] == r[j];
            assert s[m + 1] == r[j];
          } else {
            assert r[i] == t[i - 1] && r[j] == t[j - 1];
          }
        }
      }
    }
  }

  /** A row appended after rows of which none satisfies `p` is the first row found by `p`. */
  lemma FirstWhereAppend<T>(s: seq<T>, x: T, p: T -> bool)
    requires p(x) && forall j :: 0 <= j < |s| ==> !p(s[j])
    ensures FirstWhere(s + [x], p) == Some(x)
  {
    var t := s + [x];
    forall j | 0 <= j < |t| && j != |s| ensures !p(t[j]) {
      assert t[j] == s[j];
    }
    FirstWhereSole(t, p, |s|);
  }

  /** An appended row that satisfies the condition is selected after the rows selected before. */
  lemma FilterAppend<T>(s: seq<T>, x: T, keep: T -> bool)
    requires keep(x)
    ensures Filter(s + [x], keep) == Filter(s, keep) + [x]
  {
    FilterConcat(s, [x], keep);
    assert Filter([x], keep) == [x] by {
      assert [x][1..] == [];
    }
  }

  /** Appending a row whose key no row has keeps the key unique. */
  lemma AppendUnique<T, K>(s: seq<T>, x: T, key: T -> K)
    requires UniqueBy(s, key)
    requires forall j :: 0 <= j < |s| ==> key(s[j]) != key(x)
    ensures UniqueBy(s + [x], key)
  {
    var t := s + [x];
    forall i, j | 0 <= i < j < |t| ensures key(t[i]) != key(t[j]) {
      assert t[i] == s[i];
      if j < |s| {
        assert t[j] == s[j];
      }
    }
  }

  /** Appending a row whose key is null or carried by no row keeps the nullable key unique. */
  lemma AppendUniqueWhenPresent<T, K>(s: seq<T>, x: T, key: T -> Option<K>)
    requires UniqueWhenPresent(s, key)
    requires key(x).Some? ==> forall j :: 0 <= j < |s| ==> key(s[j]) != key(x)
    ensures UniqueWhenPresent(s + [x], key)
  {
    var t := s + [x];
    forall i, j | 0 <= i < j < |t| && key(t[i]).Some? ensures key(t[i]) != key(t[j]) {
      assert t[i] == s[i];
      if j < |s| {
        assert t[j] == s[j];
      }
    }
  }

  /** No other row shares row `k`'s key. */
  lemma UniqueOthers<T, K>(s: seq<T>, k: nat, key: T -> K)
    requires UniqueBy(s, key) && k < |s|
    ensures forall j :: 0 <= j < |s| && j != k ==> key(s[j]) != key(s[k])
  {
    forall j | 0 <= j < |s| && j != k ensures key(s[j]) != key(s[k]) {
      if j < k {
        assert key(s[j]) != key(s[k]);
      } else {
        assert key(s[k]) != key(s[j]);
      }
    }
  }

  /** No other row shares row `k`'s nullable key, when it has one. */
  lemma UniqueOthersWhenPresent<T, K>(s: seq<T>, k: nat, key: T -> Option<K>)
    requires UniqueWhenPresent(s, key) && k < |s| && key(s[k]).Some?
    ensures forall j :: 0 <= j < |s| && j != k ==> key(s[j]) != key(s[k])
  {
    forall j | 0 <= j < |s| && j != k ensures key(s[j]) != key(s[k]) {
      if j < k {
        if key(s[j]).Some? {
          assert key(s[j]) != key(s[k]);
        }
      } else {
        assert key(s[k]) != key(s[j]);
      }
    }
  }

  /** Overwriting row `k` with a row whose key no other row has keeps the key unique. */
  lemma UpdateUnique<T, K>(s: seq<T>, k: nat, x: T, key: T -> K)
    requires UniqueBy(s, key) && k < |s|
    requires forall j :: 0 <= j < |s| && j != k ==> key(s[j]) != key(x)
    ensures UniqueBy(s[k := x], key)
  {
    var t := s[k := x];
    forall i, j | 0 <= i < j < |t| ensures key(t[i]) != key(t[j]) {
      if i != k && j != k {
        assert t[i] == s[i] && t[j] == s[j];
      }
    }
  }

  /** Overwriting row `k` with a row whose key is null or carried by no other row keeps the nullable key unique. */
  lemma UpdateUniqueWhenPresent<T, K>(s: seq<T>, k: nat, x: T, key: T -> Option<K>)
    requires UniqueWhenPresent(s, key) && k < |s|
    requires key(x).Some? ==> forall j :: 0 <= j < |s| && j != k ==> key(s[j]) != key(x)
    ensures UniqueWhenPresent(s[k := x], key)
  {
    var t := s[k := x];
    forall i, j | 0 <= i < j < |t| && key(t[i]).Some? ensures key(t[i]) != key(t[j]) {
      if i != k && j != k {
        assert t[i] == s[i] && t[j] == s[j];
      }
    }
  }
}
