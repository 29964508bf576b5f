/** The filter chain of the generic table endpoint: a scan narrowed by one
    `(key, value)` filter after another. A single filter keeps the rows whose
    attribute `key` equals `value`; a row without the attribute is dropped. */
module TableFilters {
  import opened QueryResponses

  /** Satisfying a longer list of conditions is satisfying each part. */
  lemma SatisfiesAppend<K, V>(row: map<K, V>, conds: seq<(K, V)>, more: seq<(K, V)>)
    ensures Satisfies(row, conds + more) <==> Satisfies(row, conds) && Satisfies(row, more)
  {
    if Satisfies(row, conds) && Satisfies(row, more) {
      forall i | 0 <= i < |conds + more|
        ensures (conds + more)[i].0 in row && row[(conds + more)[i].0] == (conds + more)[i].1
      {
        if i >= |conds| { assert (conds + more)[i] == more[i - |conds|]; }
      }
    }
    if Satisfies(row, conds + more) {
      forall i | 0 <= i < |more| ensures more[i].0 in row && row[more[i].0] == more[i].1 {
        assert more[i] == (conds + more)[i + |conds|];
      }
      forall i | 0 <= i < |conds| ensures conds[i].0 in row && row[conds[i].0] == conds[i].1 {
        assert conds[i] == (conds + more)[i];
      }
    }
  }

  /** Filtering distributes over concatenation. */
  lemma {:induction false} KeepConcat<K, V>(a: seq<map<K, V>>, b: seq<map<K, V>>, conds: seq<(K, V)>)
    ensures Keep(a + b, conds) == Keep(a, conds) + Keep(b, conds)
  {
    if a == [] {
      assert a + b == b;
    } else {
      var front := if Satisfies(a[0], conds) then [a[0]] else [];
      assert (a + b)[0] == a[0];
      assert (a + b)[1..] == a[1..] + b;
      calc {
        Keep(a + b, conds);
        front + Keep(a[1..] + b, conds);
        { KeepConcat(a[1..], b, conds); }
        front + (Keep(a[1..], conds) + Keep(b, conds));
        (front + Keep(a[1..], conds)) + Keep(b, conds);
        Keep(a, conds) + Keep(b, conds);
      }
    }
  }

  /** Filtering the result of one filter list by another is filtering once by both. */
  lemma {:induction false} KeepThenKeep<K, V>(rows: seq<map<K, V>>, conds: seq<(K, V)>, more: seq<(K, V)>)
    ensures Keep(Keep(rows, conds), more) == Keep(rows, conds + more)
  {
    if rows != [] {
      KeepThenKeep(rows[1..], conds, more);
      SatisfiesAppend(rows[0], conds, more);
      var front := if Satisfies(rows[0], conds) then [rows[0]] else [];
      KeepConcat(front, Keep(rows[1..], conds), more);
      if front != [] { assert front[1..] == []; }
    }
  }

  /** With no filter the scan comes back whole. */
  lemma {:induction false} KeepNothing<K, V>(rows: seq<map<K, V>>)
    ensures Keep(rows, []) == rows
  {
    if rows != [] {
      KeepNothing(rows[1..]);
    }
  }

  /** Applying the same filters a second time changes nothing. */
  lemma {:induction false} KeepIdempotent<K, V>(rows: seq<map<K, V>>, conds: seq<(K, V)>)
    ensures Keep(Keep(rows, conds), conds) == Keep(rows, conds)
  {
    if rows != [] {
      KeepIdempotent(rows[1..], conds);
      var front := if Satisfies(rows[0], conds) then [rows[0]] else [];
      KeepConcat(front, Keep(rows[1..], conds), conds);
      if front != [] { assert front[1..] == []; }
    }
  }

  /** `res = res.filter(f["key"], f["value"])` for each filter in turn: the
      scanned rows that pass every filter, in scan order. */
  method FilterChain<K(==), V(==)>(scan: seq<map<K, V>>, filters: seq<(K, V)>) returns (res: seq<map<K, V>>)
    ensures res == Keep(scan, filters)
  {
    res := scan;
    KeepNothing(scan);
    assert filters[..0] == [];
    for i := 0 to |filters|
      invariant res == Keep(scan, filters[..i])
    {
      KeepThenKeep(scan, filters[..i], [filters[i]]);
      assert filters[..i] + [filters[i]] == filters[..i + 1];
      res := Keep(res, [filters[i]]);
    }
    assert filters[..|filters|] == filters;
  }
}
