/**
 * A Room table keyed by an integer primary key, as a finite map from key to row.
 * Shared by the concrete tables of both schemas: the name-ordered listing behind
 * `ORDER BY name ASC`, and insert-or-replace (`OnConflictStrategy.REPLACE`).
 */
module Tables {
  import opened Names

  /** Every row is stored under its own primary key. */
  ghost predicate Keyed<E>(m: map<int, E>, key: E -> int) {
    forall k | k in m :: key(m[k]) == k
  }

  /** Row (n1, k1) is listed no later than row (n2, k2): by name, then by key. */
  predicate RowBefore(n1: string, k1: int, n2: string, k2: int) {
    NameLess(n1, n2) || (n1 == n2 && k1 <= k2)
  }

  /** `k` is the key of the row a name-ordered listing of `m` starts with. */
  predicate IsFirst<E>(m: map<int, E>, name: E -> string, k: int) {
    k in m && forall j | j in m :: RowBefore(name(m[k]), k, name(m[j]), j)
  }

  lemma {:induction false} FirstExists<E>(m: map<int, E>, name: E -> string)
    requires |m| > 0
    ensures exists k :: IsFirst(m, name, k)
    decreases |m|
  {
    if forall k :: k !in m.Keys {
      assert false;
    }
    var k0 :| k0 in m;
    var rest := m - {k0};
    assert rest.Keys == m.Keys - {k0};
    if |rest| == 0 {
      assert |rest.Keys| == 0;
      assert m.Keys == {k0};
      assert IsFirst(m, name, k0);
    } else {
      FirstExists(rest, name);
      var k1 :| IsFirst(rest, name, k1);
      var n0, n1 := name(m[k0]), name(m[k1]);
      assert rest[k1] == m[k1];
      forall j | j in m && j != k0
        ensures RowBefore(n1, k1, name(m[j]), j)
      {
        assert j in rest && rest[j] == m[j];
      }
      if RowBefore(n0, k0, n1, k1) {
        forall j | j in m
          ensures RowBefore(n0, k0, name(m[j]), j)
        {
          if j != k0 {
            if NameLess(n0, n1) && NameLess(n1, name(m[j])) {
              NameLessTransitive(n0, n1, name(m[j]));
            }
          }
        }
        assert IsFirst(m, name, k0);
      } else {
        if n0 != n1 {
          NameLessTotal(n0, n1);
        }
        assert RowBefore(n1, k1, n0, k0);
        assert IsFirst(m, name, k1);
      }
    }
  }

  lemma FirstUnique<E>(m: map<int, E>, name: E -> string)
    ensures forall k1, k2 | IsFirst(m, name, k1) && IsFirst(m, name, k2) :: k1 == k2
  {
    forall k1, k2 | IsFirst(m, name, k1) && IsFirst(m, name, k2)
      ensures k1 == k2
    {
      var n1, n2 := name(m[k1]), name(m[k2]);
      assert RowBefore(n1, k1, n2, k2) && RowBefore(n2, k2, n1, k1);
      NameLessIrreflexive(n1);
      if NameLess(n1, n2) {
        NameLessAsymmetric(n1, n2);
      }
    }
  }

  /**
   * The keys of `m` in listing order: each key once, rows ascending by name.
   * Rows with equal names come in ascending key order; the contract leaves that open.
   */
  function SortedKeys<E>(m: map<int, E>, name: E -> string): (ks: seq<int>)
    ensures |ks| == |m|
    ensures forall i | 0 <= i < |ks| :: ks[i] in m
    ensures forall k | k in m :: k in ks
    ensures forall i, j | 0 <= i < j < |ks| :: ks[i] != ks[j]
    ensures forall i, j | 0 <= i < j < |ks| :: NameLe(name(m[ks[i]]), name(m[ks[j]]))
    decreases |m|
  {
    if |m| == 0 then []
    else
      FirstExists(m, name);
      FirstUnique(m, name);
      var k :| IsFirst(m, name, k);
      var rest := SortedKeys(m - {k}, name);
      SortedKeysStep(m, name, k, rest);
      [k] + rest
  }

  /** Putting the first key in front of a listing of the other keys lists them all. */
  lemma SortedKeysStep<E>(m: map<int, E>, name: E -> string, k: int, rest: seq<int>)
    requires IsFirst(m, name, k)
    requires |rest| == |m - {k}|
    requires forall i | 0 <= i < |rest| :: rest[i] in m - {k}
    requires forall j | j in m - {k} :: j in rest
    requires forall i, j | 0 <= i < j < |rest| :: rest[i] != rest[j]
    requires forall i, j | 0 <= i < j < |rest| :: NameLe(name((m - {k})[rest[i]]), name((m - {k})[rest[j]]))
    ensures |[k] + rest| == |m|
    ensures forall i | 0 <= i < |[k] + rest| :: ([k] + rest)[i] in m
    ensures forall j | j in m :: j in [k] + rest
    ensures forall i, j | 0 <= i < j < |[k] + rest| :: ([k] + rest)[i] != ([k] + rest)[j]
    ensures forall i, j | 0 <= i < j < |[k] + rest| :: NameLe(name(m[([k] + rest)[i]]), name(m[([k] + rest)[j]]))
  {
    var ks := [k] + rest;
    assert (m - {k}).Keys == m.Keys - {k};
    assert |m - {k}| == |m| - 1;
    forall i | 0 < i < |ks|
      ensures ks[i] in m && ks[i] != k && m[ks[i]] == (m - {k})[ks[i]]
    {
      assert ks[i] == rest[i - 1];
    }
    forall i, j | 0 <= i < j < |ks|
      ensures ks[i] != ks[j] && NameLe(name(m[ks[i]]), name(m[ks[j]]))
    {
      if i == 0 {
        assert RowBefore(name(m[k]), k, name(m[ks[j]]), ks[j]);
      } else {
        assert ks[i] == rest[i - 1] && ks[j] == rest[j - 1];
      }
    }
  }

  /** The rows stored under `ks`, in that order. */
  function RowsAt<E>(m: map<int, E>, ks: seq<int>): (r: seq<E>)
    requires forall i | 0 <= i < |ks| :: ks[i] in m
  {
    seq(|ks|, i requires 0 <= i < |ks| => m[ks[i]])
  }

  /** The listing of a whole table, ascending by name. */
  function SortedRows<E>(m: map<int, E>, key: E -> int, name: E -> string): (r: seq<E>)
    requires Keyed(m, key)
    ensures |r| == |m|
    ensures forall i | 0 <= i < |r| :: key(r[i]) in m && m[key(r[i])] == r[i]
    ensures forall k | k in m :: m[k] in r
    ensures forall i, j | 0 <= i < j < |r| :: key(r[i]) != key(r[j])
    ensures forall i, j | 0 <= i < j < |r| :: NameLe(name(r[i]), name(r[j]))
  {
    var ks := SortedKeys(m, name);
    ListingFacts(m, key, name, ks);
    RowsAt(m, ks)
  }

  lemma ListingFacts<E>(m: map<int, E>, key: E -> int, name: E -> string, ks: seq<int>)
    requires Keyed(m, key)
    requires forall i | 0 <= i < |ks| :: ks[i] in m
    requires forall k | k in m :: k in ks
    requires forall i, j | 0 <= i < j < |ks| :: ks[i] != ks[j]
    requires forall i, j | 0 <= i < j < |ks| :: NameLe(name(m[ks[i]]), name(m[ks[j]]))
    ensures forall i | 0 <= i < |ks| :: key(RowsAt(m, ks)[i]) == ks[i]
    ensures forall i | 0 <= i < |ks| :: key(RowsAt(m, ks)[i]) in m && m[key(RowsAt(m, ks)[i])] == RowsAt(m, ks)[i]
    ensures forall k | k in m :: m[k] in RowsAt(m, ks)
    ensures forall i, j | 0 <= i < j < |ks| :: key(RowsAt(m, ks)[i]) != key(RowsAt(m, ks)[j])
    ensures forall i, j | 0 <= i < j < |ks| :: NameLe(name(RowsAt(m, ks)[i]), name(RowsAt(m, ks)[j]))
  {
    var r := RowsAt(m, ks);
    forall k | k in m
      ensures m[k] in r
    {
      var i :| 0 <= i < |ks| && ks[i] == k;
      assert r[i] == m[k];
    }
  }

  /** The keys a list of rows carries. */
  ghost function KeysOf<E>(rows: seq<E>, key: E -> int): set<int> {
    set i | 0 <= i < |rows| :: key(rows[i])
  }

  /** No row after position `i` carries the same key as row `i`. */
  ghost predicate LastOfKey<E>(rows: seq<E>, key: E -> int, i: int)
    requires 0 <= i < |rows|
  {
    forall j | i < j < |rows| :: key(rows[j]) != key(rows[i])
  }

  /** `@Insert(onConflict = REPLACE)` of a list: each row in turn replaces the row with its key. */
  function Upsert<E>(m: map<int, E>, rows: seq<E>, key: E -> int): map<int, E>
    decreases |rows|
  {
    if |rows| == 0 then m else Upsert(m[key(rows[0]) := rows[0]], rows[1..], key)
  }

  /** The table a list of rows gives on its own: `Upsert` into an empty table. */
  function RowsMap<E>(rows: seq<E>, key: E -> int): map<int, E> {
    Upsert(map[], rows, key)
  }

  lemma KeysOfSplit<E>(rows: seq<E>, key: E -> int)
    requires |rows| > 0
    ensures KeysOf(rows, key) == {key(rows[0])} + KeysOf(rows[1..], key)
  {
    forall x | x in KeysOf(rows, key)
      ensures x in {key(rows[0])} + KeysOf(rows[1..], key)
    {
      var i :| 0 <= i < |rows| && key(rows[i]) == x;
      if i > 0 {
        assert rows[1..][i - 1] == rows[i];
      }
    }
    forall x | x in KeysOf(rows[1..], key)
      ensures x in KeysOf(rows, key)
    {
      var i :| 0 <= i < |rows[1..]| && key(rows[1..][i]) == x;
      assert rows[i + 1] == rows[1..][i];
    }
  }

  /**
   * Insert-or-replace: afterwards the table holds the old keys and the listed keys;
   * a row the list does not mention is unchanged; the last listed row with a key wins.
   */
  lemma {:induction false} UpsertSpec<E>(m: map<int, E>, rows: seq<E>, key: E -> int)
    ensures Upsert(m, rows, key).Keys == m.Keys + KeysOf(rows, key)
    ensures forall k | k in m && k !in KeysOf(rows, key) :: Upsert(m, rows, key)[k] == m[k]
    ensures forall i | 0 <= i < |rows| && LastOfKey(rows, key, i) :: Upsert(m, rows, key)[key(rows[i])] == rows[i]
    decreases |rows|
  {
    if |rows| > 0 {
      var x, rest := rows[0], rows[1..];
      var m' := m[key(x) := x];
      KeysOfSplit(rows, key);
      UpsertSpec(m', rest, key);
      forall i | 0 <= i < |rows| && LastOfKey(rows, key, i)
        ensures Upsert(m, rows, key)[key(rows[i])] == rows[i]
      {
        if i == 0 {
          forall j | 0 <= j < |rest|
            ensures key(rest[j]) != key(x)
          {
            assert rest[j] == rows[j + 1];
          }
          assert key(x) !in KeysOf(rest, key);
        } else {
          assert rest[i - 1] == rows[i];
          assert LastOfKey(rest, key, i - 1) by {
            forall j | i - 1 < j < |rest|
              ensures key(rest[j]) != key(rest[i - 1])
            {
              assert rest[j] == rows[j + 1];
            }
          }
        }
      }
    }
  }

  /** Upserting over a table equals overriding it with the table the list gives on its own. */
  lemma {:induction false} UpsertOver<E>(m: map<int, E>, n: map<int, E>, rows: seq<E>, key: E -> int)
    ensures Upsert(m + n, rows, key) == m + Upsert(n, rows, key)
    decreases |rows|
  {
    if |rows| > 0 {
      var x := rows[0];
      assert (m + n)[key(x) := x] == m + n[key(x) := x];
      UpsertOver(m, n[key(x) := x], rows[1..], key);
    }
  }

  lemma UpsertIsUnion<E>(m: map<int, E>, rows: seq<E>, key: E -> int)
    ensures Upsert(m, rows, key) == m + RowsMap(rows, key)
  {
    UpsertOver(m, map[], rows, key);
    assert m + map[] == m;
  }

  /** Repeating an insert-or-replace of the same list changes nothing. */
  lemma UpsertIdempotent<E>(m: map<int, E>, rows: seq<E>, key: E -> int)
    ensures Upsert(Upsert(m, rows, key), rows, key) == Upsert(m, rows, key)
  {
    var a := RowsMap(rows, key);
    UpsertIsUnion(m, rows, key);
    UpsertIsUnion(m + a, rows, key);
    assert (m + a) + a == m + a;
  }

  /** Insert-or-replace keeps every row under its own key. */
  lemma {:induction false} UpsertKeyed<E>(m: map<int, E>, rows: seq<E>, key: E -> int)
    requires Keyed(m, key)
    ensures Keyed(Upsert(m, rows, key), key)
    decreases |rows|
  {
    if |rows| > 0 {
      UpsertKeyed(m[key(rows[0]) := rows[0]], rows[1..], key);
    }
  }
}
