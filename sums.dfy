/** Finite sums over integer-valued tables.
    The source aggregates with SQL SUM over a filtered table (SumAsync); here a table
    projection is a map from row id to the summed value, and Total adds its values in
    ascending key order, which makes the sum computable. */
module Sums {

  /** The smallest key of a non-empty set of ids. */
  function MinKey(s: set<int>): (k: int)
    requires s != {}
    ensures k in s
    ensures forall j :: j in s ==> k <= j
  {
    MinExists(s);
    var k :| k in s && forall j :: j in s ==> k <= j;
    k
  }

  /** A non-empty set has an element. */
  lemma HasElement(s: set<int>)
    requires s != {}
    ensures exists x :: x in s
  {
    if forall x :: x !in s { assert false; }
  }

  lemma {:induction false} MinExists(s: set<int>)
    requires s != {}
    ensures exists k :: k in s && forall j :: j in s ==> k <= j
  {
    HasElement(s);
    var x :| x in s;
    var rest := s - {x};
    if rest == {} {
      forall j | j in s
        ensures x <= j
      {
        assert j !in rest;
      }
    } else {
      MinExists(rest);
      var m :| m in rest && forall j :: j in rest ==> m <= j;
      var least := if x < m then x else m;
      forall j | j in s
        ensures least <= j
      {
        if j != x { assert j in rest; }
      }
    }
  }

  /** The sum of all values of m. */
  function Total(m: map<int, int>): int
    decreases |m|
  {
    if |m| == 0 then 0
    else
      var k := MinKey(m.Keys);
      assert |m - {k}| < |m| by { assert (m - {k}).Keys == m.Keys - {k}; }
      m[k] + Total(m - {k})
  }

  /** Any row can be split off the sum, not only the one Total happens to take first. */
  lemma {:induction false} TotalRemove(m: map<int, int>, k: int)
    requires k in m
    ensures Total(m) == m[k] + Total(m - {k})
    decreases |m|
  {
    var j := MinKey(m.Keys);
    if j != k {
      assert (m - {k}).Keys == m.Keys - {k};
      assert (m - {j}).Keys == m.Keys - {j};
      TotalRemove(m - {j}, k);
      TotalRemove(m - {k}, j);
      assert m - {j} - {k} == m - {k} - {j};
    }
  }

  /** Adding a fresh row adds its value. */
  lemma TotalInsert(m: map<int, int>, k: int, v: int)
    requires k !in m
    ensures Total(m[k := v]) == Total(m) + v
  {
    TotalRemove(m[k := v], k);
    assert m[k := v] - {k} == m;
  }

  /** Overwriting a row changes the sum by the difference. */
  lemma TotalUpdate(m: map<int, int>, k: int, v: int)
    requires k in m
    ensures Total(m[k := v]) == Total(m) - m[k] + v
  {
    TotalRemove(m, k);
    TotalRemove(m[k := v], k);
    assert m[k := v] - {k} == m - {k};
  }

  /** A sum of non-negative values is non-negative. */
  lemma {:induction false} TotalNonNegative(m: map<int, int>)
    requires forall k :: k in m ==> m[k] >= 0
    ensures Total(m) >= 0
    decreases |m|
  {
    if |m| != 0 {
      var k := MinKey(m.Keys);
      assert (m - {k}).Keys == m.Keys - {k};
      TotalNonNegative(m - {k});
    }
  }

  // ---------------------------------------------------------------------------
  // Grouped sums: `table.Where(row => owner(row) == key).SumAsync(value)`

  /** The value column of the rows of m that belong to key, keyed by row id. */
  function Column<R>(m: map<int, R>, owner: R -> int, value: R -> int, key: int): (r: map<int, int>)
    ensures forall i :: i in r <==> i in m && owner(m[i]) == key
    ensures forall i :: i in r ==> r[i] == value(m[i])
  {
    map i | i in m && owner(m[i]) == key :: value(m[i])
  }

  /** The sum of value over the rows of m that belong to key. */
  function GroupTotal<R>(m: map<int, R>, owner: R -> int, value: R -> int, key: int): int
  {
    Total(Column(m, owner, value, key))
  }

  /** What one row contributes to the group of key. */
  function Share<R>(row: R, owner: R -> int, value: R -> int, key: int): int
  {
    if owner(row) == key then value(row) else 0
  }

  /** Inserting a new row adds its share to its own group and nothing to the others. */
  lemma GroupTotalInsert<R>(m: map<int, R>, id: int, row: R, owner: R -> int, value: R -> int, key: int)
    requires id !in m
    ensures GroupTotal(m[id := row], owner, value, key) ==
      GroupTotal(m, owner, value, key) + Share(row, owner, value, key)
  {
    var before := Column(m, owner, value, key);
    var after := Column(m[id := row], owner, value, key);
    var expected := if owner(row) == key then before[id := value(row)] else before;
    forall i
      ensures i in after <==> i in expected
    {
      if i in after && i != id { assert i in m && owner(m[i]) == key; }
      if i in expected && i != id { assert i in before; }
    }
    assert after.Keys == expected.Keys;
    forall i | i in after
      ensures after[i] == expected[i]
    {
    }
    assert after == expected;
    if owner(row) == key {
      TotalInsert(before, id, value(row));
    }
  }

  /** Removing a row takes its share off its own group and nothing off the others. */
  lemma GroupTotalRemove<R>(m: map<int, R>, id: int, owner: R -> int, value: R -> int, key: int)
    requires id in m
    ensures GroupTotal(m - {id}, owner, value, key) ==
      GroupTotal(m, owner, value, key) - Share(m[id], owner, value, key)
  {
    var before := Column(m, owner, value, key);
    var after := Column(m - {id}, owner, value, key);
    var expected := if owner(m[id]) == key then before - {id} else before;
    forall i
      ensures i in after <==> i in expected
    {
      if i in after { assert i in m && owner(m[i]) == key; }
      if i in expected { assert i in before; }
    }
    assert after.Keys == expected.Keys;
    forall i | i in after
      ensures after[i] == expected[i]
    {
    }
    assert after == expected;
    if owner(m[id]) == key {
      TotalRemove(before, id);
    }
  }

  /** Overwriting a row swaps its old share for its new one. */
  lemma GroupTotalUpdate<R>(m: map<int, R>, id: int, row: R, owner: R -> int, value: R -> int, key: int)
    requires id in m
    ensures GroupTotal(m[id := row], owner, value, key) ==
      GroupTotal(m, owner, value, key) - Share(m[id], owner, value, key) + Share(row, owner, value, key)
  {
    GroupTotalRemove(m, id, owner, value, key);
    assert m[id := row] == (m - {id})[id := row];
    GroupTotalInsert(m - {id}, id, row, owner, value, key);
  }

  /** A group of non-negative values has a non-negative sum. */
  lemma GroupTotalNonNegative<R>(m: map<int, R>, owner: R -> int, value: R -> int, key: int)
    requires forall i :: i in m && owner(m[i]) == key ==> value(m[i]) >= 0
    ensures GroupTotal(m, owner, value, key) >= 0
  {
    TotalNonNegative(Column(m, owner, value, key));
  }

  /** A key that owns no row of m has sum 0. */
  lemma GroupTotalEmpty<R>(m: map<int, R>, owner: R -> int, value: R -> int, key: int)
    requires forall i :: i in m ==> owner(m[i]) != key
    ensures GroupTotal(m, owner, value, key) == 0
  {
    var c := Column(m, owner, value, key);
    forall i
      ensures i !in c
    {
    }
    assert c.Keys == {};
    assert |c| == 0;
  }
}
