/** Tables kept as slots: some slots in use, the used ones with distinct keys. */
module Tables {

  datatype Row<K, V> = Free | Used(key: K, value: V)

  ghost predicate DistinctKeys<K, V>(rows: seq<Row<K, V>>) {
    forall i, j | 0 <= i < j < |rows| && rows[i].Used? && rows[j].Used? :: rows[i].key != rows[j].key
  }

  ghost predicate KeyAt<K, V>(rows: seq<Row<K, V>>, i: int, k: K) {
    0 <= i < |rows| && rows[i].Used? && rows[i].key == k
  }

  /** The map the rows stand for. */
  ghost function Table<K(!new), V>(rows: seq<Row<K, V>>): (m: map<K, V>)
    requires DistinctKeys(rows)
    ensures forall i | 0 <= i < |rows| && rows[i].Used? :: rows[i].key in m && m[rows[i].key] == rows[i].value
    ensures forall k | k in m :: exists i :: KeyAt(rows, i, k)
  {
    if rows == [] then map[]
    else
      var init, last := rows[..|rows| - 1], rows[|rows| - 1];
      var m := Table(init);
      assert forall i, k | KeyAt(init, i, k) :: KeyAt(rows, i, k);
      assert last.Used? ==> KeyAt(rows, |rows| - 1, last.key);
      if last.Used? then m[last.key := last.value] else m
  }

  /** Replacing one row, without changing the key of a used row, updates one key. */
  lemma TableUpdate<K(!new), V>(rows: seq<Row<K, V>>, rows': seq<Row<K, V>>, i: nat)
    requires |rows'| == |rows| && i < |rows| && DistinctKeys(rows) && DistinctKeys(rows')
    requires rows'[i].Used? && rows' == rows[i := rows'[i]]
    requires rows[i].Used? ==> rows[i].key == rows'[i].key
    ensures Table(rows') == Table(rows)[rows'[i].key := rows'[i].value]
  {
    var m, m' := Table(rows), Table(rows');
    forall k | k in m' && k != rows'[i].key ensures k in m && m[k] == m'[k] {
      var j :| KeyAt(rows', j, k);
      assert KeyAt(rows, j, k);
    }
    forall k | k in m && k != rows'[i].key ensures k in m' {
      var j :| KeyAt(rows, j, k);
      assert KeyAt(rows', j, k);
    }
  }

  /** Freeing a used row removes its key. */
  lemma TableRemove<K(!new), V>(rows: seq<Row<K, V>>, rows': seq<Row<K, V>>, i: nat)
    requires |rows'| == |rows| && i < |rows| && DistinctKeys(rows) && DistinctKeys(rows')
    requires rows[i].Used? && rows' == rows[i := Free]
    ensures Table(rows') == Table(rows) - {rows[i].key}
  {
    var m, m' := Table(rows), Table(rows');
    forall k | k in m' ensures k in m && m[k] == m'[k] && k != rows[i].key {
      var j :| KeyAt(rows', j, k);
      assert KeyAt(rows, j, k);
    }
    forall k | k in m && k != rows[i].key ensures k in m' {
      var j :| KeyAt(rows, j, k);
      assert KeyAt(rows', j, k);
    }
  }

  lemma TableStep<K(!new), V>(rows: seq<Row<K, V>>)
    requires rows != [] && DistinctKeys(rows)
    ensures var init, last := rows[..|rows| - 1], rows[|rows| - 1];
            && DistinctKeys(init)
            && Table(rows) == (if last.Used? then Table(init)[last.key := last.value] else Table(init))
            && (last.Used? ==> last.key !in Table(init))
  {
  }

  lemma NoRows<K(!new), V>()
    ensures |Table<K, V>([])| == 0
  {
  }

  /** The map has as many keys as there are rows exactly when all of them are used. */
  lemma {:induction false} TableSize<K(!new), V>(rows: seq<Row<K, V>>)
    requires DistinctKeys(rows)
    ensures |Table(rows)| <= |rows|
    ensures |Table(rows)| == |rows| <==> forall i | 0 <= i < |rows| :: rows[i].Used?
  {
    hide Table, DistinctKeys;
    if rows == [] {
      NoRows<K, V>();
    } else {
      TableStep(rows);
      TableSize(rows[..|rows| - 1]);
    }
  }
}
