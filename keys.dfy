/** Primary keys: the smallest key of a set, the row `.first()` picks, and
    the rows in ascending key order (`ORDER BY id ASC`). */
module Keys {

  import opened Wrappers
  import Sorting

  lemma HasElement(s: set<int>)
    requires s != {}
    ensures exists y :: y in s
  {
    if forall y :: y !in s { assert false; }
  }

  lemma {:induction false} MinExists(s: set<int>)
    requires s != {}
    ensures exists m :: m in s && forall x | x in s :: m <= x
    decreases |s|
  {
    HasElement(s);
    var y :| y in s;
    if s != {y} {
      MinExists(s - {y});
      var m :| m in s - {y} && forall x | x in s - {y} :: m <= x;
      var least := if y < m then y else m;
      forall x | x in s ensures least <= x {
        if x != y { assert x in s - {y}; }
      }
    }
  }

  /** The smallest element of a non-empty set of keys. */
  function Min(s: set<int>): (m: int)
    requires s != {}
    ensures m in s && forall x | x in s :: m <= x
  {
    MinExists(s);
    var m :| m in s && forall x | x in s :: m <= x; m
  }

  /** `filter(...).first()` without `ORDER BY`: the key of some row `keep`
      selects (the smallest, here), or None when it selects none. */
  function First<T>(m: map<int, T>, keep: T -> bool): (r: Option<int>)
    ensures r.Some? ==> r.value in m && keep(m[r.value])
    ensures r.None? ==> forall k | k in m :: !keep(m[k])
  {
    var matching := set k | k in m && keep(m[k]);
    if matching == {} then
      assert forall k | k in m && keep(m[k]) :: k in matching;
      None
    else Some(Min(matching))
  }

  predicate StrictlyIncreasing(ks: seq<int>)
  {
    forall i, j | 0 <= i < j < |ks| :: ks[i] < ks[j]
  }

  /** The keys of `s` in ascending order, each once. */
  function Ascending(s: set<int>): (ks: seq<int>)
    ensures |ks| == |s|
    ensures forall k :: k in ks <==> k in s
    ensures forall i | 0 <= i < |ks| :: ks[i] in s
    ensures StrictlyIncreasing(ks)
    decreases |s|
  {
    if s == {} then []
    else
      var m := Min(s);
      var rest := Ascending(s - {m});
      PrependMin(s, m, rest);
      [m] + rest
  }

  /** Putting the least key in front of the others, ascending, gives all of
      them ascending. */
  lemma PrependMin(s: set<int>, m: int, rest: seq<int>)
    requires m in s && forall x | x in s :: m <= x
    requires |rest| == |s - {m}|
    requires forall k :: k in rest <==> k in s - {m}
    requires StrictlyIncreasing(rest)
    ensures |[m] + rest| == |s|
    ensures forall k :: k in [m] + rest <==> k in s
    ensures StrictlyIncreasing([m] + rest)
  {
    var ks := [m] + rest;
    forall i, j | 0 <= i < j < |ks| ensures ks[i] < ks[j] {
      if i == 0 {
        assert ks[j] == rest[j - 1];
        assert ks[j] in s - {m};
      } else {
        assert ks[i] == rest[i - 1] && ks[j] == rest[j - 1];
      }
    }
  }

  /** The rows stored under `ks`, in that order. */
  function RowsAt<T>(m: map<int, T>, ks: seq<int>): (r: seq<T>)
    requires forall i | 0 <= i < |ks| :: ks[i] in m
    ensures |r| == |ks|
    ensures forall i | 0 <= i < |ks| :: r[i] == m[ks[i]]
  {
    if ks == [] then [] else [m[ks[0]]] + RowsAt(m, ks[1..])
  }

  lemma RowsAtCoversKeys<T>(m: map<int, T>, ks: seq<int>, k: int)
    requires forall i | 0 <= i < |ks| :: ks[i] in m
    requires k in ks
    ensures m[k] in RowsAt(m, ks)
  {
    var i :| 0 <= i < |ks| && ks[i] == k;
    assert RowsAt(m, ks)[i] == m[k];
  }

  /** The rows stored under keys that cover the table are its rows. */
  lemma RowsAtValues<T(!new)>(m: map<int, T>, ks: seq<int>)
    requires forall i | 0 <= i < |ks| :: ks[i] in m
    requires forall k | k in m :: k in ks
    ensures forall k | k in m :: m[k] in RowsAt(m, ks)
    ensures forall x :: x in RowsAt(m, ks) <==> x in m.Values
  {
    var r := RowsAt(m, ks);
    forall k | k in m ensures m[k] in r {
      RowsAtCoversKeys(m, ks, k);
    }
    forall x ensures x in r <==> x in m.Values {
      if x in r {
        var i :| 0 <= i < |r| && r[i] == x;
        assert ks[i] in m && m[ks[i]] == x;
      }
    }
  }

  /** The rows of a table in ascending key order (`ORDER BY id`). */
  function Rows<T(==,!new)>(m: map<int, T>): (r: seq<T>)
    ensures |r| == |m|
    ensures forall i | 0 <= i < |r| :: Ascending(m.Keys)[i] in m && r[i] == m[Ascending(m.Keys)[i]]
    ensures forall k | k in m :: m[k] in r
    ensures forall x :: x in r <==> x in m.Values
  {
    var ks := Ascending(m.Keys);
    RowsAtValues(m, ks);
    RowsAt(m, ks)
  }

  /** The keys of `ks` whose rows `keep` selects. */
  function Selected<T>(m: map<int, T>, ks: seq<int>, keep: T -> bool): set<int>
  {
    set k | k in ks && k in m && keep(m[k])
  }

  lemma SelectedSplit<T>(m: map<int, T>, ks: seq<int>, keep: T -> bool)
    requires ks != [] && ks[0] in m
    ensures Selected(m, ks, keep) == Selected(m, ks[1..], keep) + (if keep(m[ks[0]]) then {ks[0]} else {})
  {
    assert forall k :: k in ks <==> k == ks[0] || k in ks[1..] by {
      assert ks == [ks[0]] + ks[1..];
    }
  }

  /** Filtering the rows stored under strictly increasing keys keeps one row
      per selected key. */
  lemma {:induction false} FilterRowsAtCount<T(!new)>(m: map<int, T>, ks: seq<int>, keep: T -> bool)
    requires forall i | 0 <= i < |ks| :: ks[i] in m
    requires StrictlyIncreasing(ks)
    ensures |Sorting.Filter(RowsAt(m, ks), keep)| == |Selected(m, ks, keep)|
    decreases |ks|
  {
    if ks != [] {
      var rest := ks[1..];
      assert StrictlyIncreasing(rest);
      FilterRowsAtCount(m, rest, keep);
      var rows := RowsAt(m, ks);
      assert rows[1..] == RowsAt(m, rest);
      assert ks[0] !in rest;
      assert ks[0] !in Selected(m, rest, keep);
      SelectedSplit(m, ks, keep);
    }
  }

  /** The keys of the rows `keep` selects. */
  function KeysWhere<T>(m: map<int, T>, keep: T -> bool): set<int>
  {
    set k | k in m && keep(m[k])
  }

  /** Filtering a table's rows keeps one row per selected key. */
  lemma FilterRowsCount<T(!new)>(m: map<int, T>, keep: T -> bool)
    ensures |Sorting.Filter(Rows(m), keep)| == |KeysWhere(m, keep)|
  {
    var ks := Ascending(m.Keys);
    assert Rows(m) == RowsAt(m, ks);
    FilterRowsAtCount(m, ks, keep);
    SelectedAll(m, keep);
  }

  lemma SelectedAll<T>(m: map<int, T>, keep: T -> bool)
    ensures Selected(m, Ascending(m.Keys), keep) == KeysWhere(m, keep)
  {
    var ks := Ascending(m.Keys);
    assert forall k :: k in Selected(m, ks, keep) <==> k in KeysWhere(m, keep);
  }

  /** A table whose rows differ under different keys lists each row once. */
  lemma RowsDistinct<T(!new)>(m: map<int, T>)
    requires forall i, j | i in m && j in m && m[i] == m[j] :: i == j
    ensures Sorting.Distinct(Rows(m))
  {
    var ks := Ascending(m.Keys);
    var r := Rows(m);
    forall i, j | 0 <= i < j < |r| ensures r[i] != r[j] {
      assert r[i] == m[ks[i]] && r[j] == m[ks[j]] && ks[i] < ks[j];
    }
  }

  /** The key a stored row is stored under. */
  lemma StoredKey<T(!new)>(m: map<int, T>, x: T) returns (k: int)
    requires x in m.Values
    ensures k in m && m[k] == x
  {
    var r := Rows(m);
    var i :| 0 <= i < |r| && r[i] == x;
    k := Ascending(m.Keys)[i];
  }
}
