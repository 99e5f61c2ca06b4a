/**
  Generic operations on a table held as a sequence of rows in storage order. A
  column is given as a function from a row to its value; `key` is usually the
  primary key.
*/
module Table {
  import opened Entities

  predicate HasKey<T, K(==)>(rows: seq<T>, key: T -> K, k: K)
  {
    exists i :: 0 <= i < |rows| && key(rows[i]) == k
  }

  predicate UniqueKeys<T, K(==)>(rows: seq<T>, key: T -> K)
  {
    forall i, j :: 0 <= i < j < |rows| ==> key(rows[i]) != key(rows[j])
  }

  /** The invariant of an auto-increment key: unique, positive and below the counter. */
  predicate Keyed<T>(rows: seq<T>, key: T -> int, next: nat)
  {
    && 0 < next
    && UniqueKeys(rows, key)
    && forall i :: 0 <= i < |rows| ==> 0 < key(rows[i]) < next
  }

  /** The counter after saving a row with an explicit id: past that id, never backwards. */
  function Max(a: int, b: int): int { if a < b then b else a }

  /** The outcome of GORM's Save: the new table, the new counter, and the saved row. */
  datatype Saved<T> = Saved(rows: seq<T>, next: nat, row: T)

  /** `Find(&row, k)`: the first row whose key is `k`, or the zero row on a miss. */
  function Find<T, K(==)>(rows: seq<T>, key: T -> K, k: K, zero: T): (r: T)
    ensures HasKey(rows, key, k) ==> r in rows && key(r) == k
    ensures !HasKey(rows, key, k) ==> r == zero
  {
    if |rows| == 0 then zero
    else if key(rows[0]) == k then rows[0]
    else
      assert HasKey(rows, key, k) ==> HasKey(rows[1..], key, k) by {
        if HasKey(rows, key, k) {
          var i :| 0 <= i < |rows| && key(rows[i]) == k;
          assert rows[1..][i - 1] == rows[i];
        }
      }
      Find(rows[1..], key, k, zero)
  }

  /** Under unique keys, a row is identified by its key. */
  lemma KeyIdentifies<T, K>(rows: seq<T>, key: T -> K, x: T, y: T)
    requires UniqueKeys(rows, key)
    requires x in rows && y in rows && key(x) == key(y)
    ensures x == y
  {
  }

  /** Save of a row with a key: replace every row with that key, or append it if there is none. */
  function Upsert<T, K(==)>(rows: seq<T>, key: T -> K, row: T): (r: seq<T>)
    ensures row in r
    ensures forall x :: x in r ==> x == row || (x in rows && key(x) != key(row))
    ensures forall x :: x in rows && key(x) != key(row) ==> x in r
    ensures |r| == if HasKey(rows, key, key(row)) then |rows| else |rows| + 1
    ensures UniqueKeys(rows, key) ==> UniqueKeys(r, key)
  {
    if HasKey(rows, key, key(row)) then
      var r := seq(|rows|, i requires 0 <= i < |rows| => if key(rows[i]) == key(row) then row else rows[i]);
      var j :| 0 <= j < |rows| && key(rows[j]) == key(row);
      assert r[j] == row;
      assert forall x :: x in rows && key(x) != key(row) ==> x in r by {
        forall x | x in rows && key(x) != key(row) ensures x in r {
          var i :| 0 <= i < |rows| && rows[i] == x;
          assert r[i] == x;
        }
      }
      r
    else
      rows + [row]
  }

  /** `DELETE ... WHERE key = k`: drop every row with that key, keep the others in order. */
  function Remove<T, K(==)>(rows: seq<T>, key: T -> K, k: K): (r: seq<T>)
    ensures |r| <= |rows|
  {
    if |rows| == 0 then []
    else (if key(rows[0]) == k then [] else [rows[0]]) + Remove(rows[1..], key, k)
  }

  /** Removal takes every copy of a row with key `k` and leaves every other row's multiplicity. */
  lemma {:induction false} RemoveMultiset<T(!new), K>(rows: seq<T>, key: T -> K, k: K)
    ensures forall x :: multiset(Remove(rows, key, k))[x] == if key(x) == k then 0 else multiset(rows)[x]
  {
    if |rows| > 0 {
      RemoveMultiset(rows[1..], key, k);
      assert rows == [rows[0]] + rows[1..];
    }
  }

  /** What remains after removal is exactly the old rows without key `k`. */
  lemma RemoveMembers<T(!new), K>(rows: seq<T>, key: T -> K, k: K)
    ensures forall x :: x in Remove(rows, key, k) <==> x in rows && key(x) != k
    ensures !HasKey(Remove(rows, key, k), key, k)
  {
    RemoveMultiset(rows, key, k);
    var r := Remove(rows, key, k);
    forall x ensures x in r <==> x in rows && key(x) != k {
      assert x in r <==> x in multiset(r);
      assert x in rows <==> x in multiset(rows);
    }
    forall i | 0 <= i < |r| ensures key(r[i]) != k {
      assert r[i] in r;
    }
  }

  /** Removing a key that no row has changes nothing. */
  lemma {:induction false} RemoveAbsent<T, K>(rows: seq<T>, key: T -> K, k: K)
    requires !HasKey(rows, key, k)
    ensures Remove(rows, key, k) == rows
  {
    if |rows| > 0 {
      assert !HasKey(rows[1..], key, k) by {
        forall i | 0 <= i < |rows[1..]| ensures key(rows[1..][i]) != k {
          assert rows[1..][i] == rows[i + 1];
        }
      }
      RemoveAbsent(rows[1..], key, k);
      assert rows == [rows[0]] + rows[1..];
    }
  }

  /** Removing rows keeps the keys of what remains unique. */
  lemma {:induction false} RemoveUnique<T(!new), K>(rows: seq<T>, key: T -> K, k: K)
    requires UniqueKeys(rows, key)
    ensures UniqueKeys(Remove(rows, key, k), key)
  {
    if |rows| > 0 {
      var rest := Remove(rows[1..], key, k);
      assert UniqueKeys(rows[1..], key) by {
        forall i, j | 0 <= i < j < |rows[1..]| ensures key(rows[1..][i]) != key(rows[1..][j]) {
          assert rows[1..][i] == rows[i + 1] && rows[1..][j] == rows[j + 1];
        }
      }
      RemoveUnique(rows[1..], key, k);
      if key(rows[0]) != k {
        var r := [rows[0]] + rest;
        RemoveMembers(rows[1..], key, k);
        forall i, j | 0 <= i < j < |r| ensures key(r[i]) != key(r[j]) {
          if i == 0 {
            assert r[j] == rest[j - 1];
            assert r[j] in rows[1..];
            var m :| 0 <= m < |rows[1..]| && rows[1..][m] == r[j];
            assert rows[m + 1] == r[j];
          } else {
            assert r[i] == rest[i - 1] && r[j] == rest[j - 1];
          }
        }
      }
    }
  }

  /** Removing twice is removing once. */
  lemma {:induction false} RemoveIdempotent<T, K>(rows: seq<T>, key: T -> K, k: K)
    ensures Remove(Remove(rows, key, k), key, k) == Remove(rows, key, k)
  {
    if |rows| > 0 {
      var rest := Remove(rows[1..], key, k);
      RemoveIdempotent(rows[1..], key, k);
      if key(rows[0]) != k {
        var r := [rows[0]] + rest;
        assert Remove(rows, key, k) == r;
        assert r[0] == rows[0] && r[1..] == rest;
      } else {
        assert Remove(rows, key, k) == [] + rest == rest;
      }
    }
  }

  /** Removing from an appended table: the appended row goes too when it has the key. */
  lemma {:induction false} RemoveAppend<T, K>(rows: seq<T>, key: T -> K, k: K, x: T)
    ensures Remove(rows + [x], key, k) == Remove(rows, key, k) + (if key(x) == k then [] else [x])
  {
    if |rows| == 0 {
      assert rows + [x] == [x];
    } else {
      assert (rows + [x])[0] == rows[0];
      assert (rows + [x])[1..] == rows[1..] + [x];
      RemoveAppend(rows[1..], key, k, x);
    }
  }

  /** `COUNT(*) ... WHERE column = k`. */
  function Count<T, K(==)>(rows: seq<T>, column: T -> K, k: K): (n: nat)
    ensures n <= |rows|
    ensures n > 0 <==> HasKey(rows, column, k)
  {
    if |rows| == 0 then 0
    else
      assert HasKey(rows, column, k) <==> column(rows[0]) == k || HasKey(rows[1..], column, k) by {
        if HasKey(rows, column, k) && column(rows[0]) != k {
          var i :| 0 <= i < |rows| && column(rows[i]) == k;
          assert rows[1..][i - 1] == rows[i];
        }
        if HasKey(rows[1..], column, k) {
          var i :| 0 <= i < |rows[1..]| && column(rows[1..][i]) == k;
          assert rows[i + 1] == rows[1..][i];
        }
      }
      (if column(rows[0]) == k then 1 else 0) + Count(rows[1..], column, k)
  }

  /** Appending a row raises the count of its own value by exactly one and no other. */
  lemma {:induction false} CountAppend<T, K>(rows: seq<T>, column: T -> K, k: K, x: T)
    ensures Count(rows + [x], column, k) == Count(rows, column, k) + (if column(x) == k then 1 else 0)
  {
    if |rows| == 0 {
      assert rows + [x] == [x];
    } else {
      assert (rows + [x])[1..] == rows[1..] + [x];
      CountAppend(rows[1..], column, k, x);
    }
  }

  /** Looking a key up after an upsert: the saved row for its own key, the old answer for any other. */
  lemma FindUpsert<T, K>(rows: seq<T>, key: T -> K, row: T, k: K, zero: T)
    requires UniqueKeys(rows, key)
    ensures Find(Upsert(rows, key, row), key, k, zero) == if k == key(row) then row else Find(rows, key, k, zero)
  {
    var u := Upsert(rows, key, row);
    var i :| 0 <= i < |u| && u[i] == row;
    assert HasKey(u, key, key(row));
    if k == key(row) {
      KeyIdentifies(u, key, Find(u, key, k, zero), row);
    } else if HasKey(rows, key, k) {
      var x := Find(rows, key, k, zero);
      var j :| 0 <= j < |u| && u[j] == x;
      assert HasKey(u, key, k);
      KeyIdentifies(u, key, Find(u, key, k, zero), x);
    } else {
      forall m | 0 <= m < |u| ensures key(u[m]) != k {
        if u[m] != row {
          var j :| 0 <= j < |rows| && rows[j] == u[m];
        }
      }
    }
  }

  /** Looking a key up after appending a row whose key was absent. */
  lemma FindAppend<T, K>(rows: seq<T>, key: T -> K, row: T, k: K, zero: T)
    requires UniqueKeys(rows, key) && !HasKey(rows, key, key(row))
    ensures UniqueKeys(rows + [row], key)
    ensures Find(rows + [row], key, k, zero) == if k == key(row) then row else Find(rows, key, k, zero)
  {
    assert Upsert(rows, key, row) == rows + [row];
    FindUpsert(rows, key, row, k, zero);
  }

  /** Looking a key up after removing one: a miss for that key, the old answer for any other. */
  lemma FindRemove<T(!new), K>(rows: seq<T>, key: T -> K, k: K, j: K, zero: T)
    requires UniqueKeys(rows, key)
    ensures Find(Remove(rows, key, k), key, j, zero) == if j == k then zero else Find(rows, key, j, zero)
  {
    var r := Remove(rows, key, k);
    RemoveUnique(rows, key, k);
    RemoveMembers(rows, key, k);
    if j != k {
      if HasKey(rows, key, j) {
        var x := Find(rows, key, j, zero);
        var m :| 0 <= m < |r| && r[m] == x;
        assert HasKey(r, key, j);
        KeyIdentifies(r, key, Find(r, key, j, zero), x);
      } else {
        forall m | 0 <= m < |r| ensures key(r[m]) != j {
          assert r[m] in r;
          var n :| 0 <= n < |rows| && rows[n] == r[m];
        }
      }
    }
  }
}
