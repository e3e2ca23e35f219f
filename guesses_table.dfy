/**
  The `guesses` table: one row per surname (the primary key) with its count.
  Both the web application and the import script read and write it.
*/
module GuessesTable {

  class Table {
    /** surname -> count; a map, so a surname has at most one row. */
    var guesses: map<string, int>

    /** A freshly created, empty table. */
    constructor ()
      ensures guesses == map[]
    {
      guesses := map[];
    }
  }

  /**
    Increment-or-insert: an existing row of `key` gains `n`, a missing one is
    created with `n`. Both the submission (`n == 1`) and the aggregation of the
    import update rows this way.
  */
  function AddCount(m: map<string, int>, key: string, n: int): (r: map<string, int>)
    ensures r.Keys == m.Keys + {key}
    ensures r[key] == (if key in m then m[key] + n else n)
    ensures forall k :: k in m && k != key ==> r[k] == m[k]
  {
    if key in m then m[key := m[key] + n] else m[key := n]
  }

  /** Two updates of the same row add up. */
  lemma AddCountTwice(m: map<string, int>, key: string, a: int, b: int)
    ensures AddCount(AddCount(m, key, a), key, b) == AddCount(m, key, a + b)
  {
  }

  /** `SELECT SUM(count) FROM guesses` on a table with at least one row (0 for no rows). */
  ghost function TableTotal(m: map<string, int>): int
    decreases |m|
  {
    if |m| == 0 then 0
    else
      var k :| k in m;
      assert (m - {k}).Keys == m.Keys - {k};
      m[k] + TableTotal(m - {k})
  }

  /** Any row can be taken out first: the total does not depend on the order of the rows. */
  lemma {:induction false} TableTotalRemove(m: map<string, int>, k: string)
    requires k in m
    ensures TableTotal(m) == m[k] + TableTotal(m - {k})
    decreases |m|
  {
    var j := FirstRemoved(m, k);
    if j != k {
      RemoveShrinks(m, j);
      RemoveShrinks(m, k);
      TableTotalRemove(m - {j}, k);
      TableTotalRemove(m - {k}, j);
      RemoveCommutes(m, j, k);
    }
  }

  /** The row the definition of the total takes out first. */
  lemma FirstRemoved(m: map<string, int>, k: string) returns (j: string)
    requires k in m
    ensures j in m && TableTotal(m) == m[j] + TableTotal(m - {j})
  {
    assert |m| != 0 by {
      assert k in m.Keys;
    }
    j :| j in m && TableTotal(m) == m[j] + TableTotal(m - {j});
  }

  lemma RemoveShrinks(m: map<string, int>, k: string)
    requires k in m
    ensures |m - {k}| == |m| - 1
  {
    assert (m - {k}).Keys == m.Keys - {k};
  }

  lemma RemoveCommutes(m: map<string, int>, j: string, k: string)
    ensures m - {j} - {k} == m - {k} - {j}
  {
  }

  /** An increment-or-insert of `n` raises the total by exactly `n`. */
  lemma TableTotalAddCount(m: map<string, int>, key: string, n: int)
    ensures TableTotal(AddCount(m, key, n)) == TableTotal(m) + n
  {
    var r := AddCount(m, key, n);
    TableTotalRemove(r, key);
    if key in m {
      TableTotalRemove(m, key);
      assert r - {key} == m - {key};
    } else {
      assert r - {key} == m;
    }
  }
}
