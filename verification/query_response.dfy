/** The result-set helpers of the admin API: a scanned table is an ordered
    sequence of rows, each row a map from attribute name to value.

    Conditions are a sequence of (attribute, value) pairs in the iteration
    order of the dictionary the caller passes, because the `all(...)` test
    stops at the first condition that fails, and whether a missing
    attribute raises `KeyError` depends on that order. */
module QueryResponses {
  import opened Wrappers

  /** What a helper raises instead of returning. */
  datatype QueryError<K> =
    | MissingKey(key: K)       // KeyError on `result[key]`
    | CastFailed(key: K)       // the conversion chosen by `eval_as` raised on `result[key]`
    | InvalidEvalType          // ValueError("Invalid evaluation type.")
    | NoMatch                  // ValueError("No item matches conditions")

  /** The three entries of `where_eq`'s table of conversions. */
  datatype Conversion = ToNumber | ToText | ToArray

  // ---------------------------------------------------------------------
  // Matching one row against a set of conditions

  /** Every condition names an attribute of the row with the given value. */
  predicate Satisfies<K(==), V(==)>(row: map<K, V>, conds: seq<(K, V)>)
  {
    forall i :: 0 <= i < |conds| ==> conds[i].0 in row && row[conds[i].0] == conds[i].1
  }

  /** Every condition names an attribute of the row. */
  predicate HasKeys<K(==), V(==)>(row: map<K, V>, conds: seq<(K, V)>)
  {
    forall i :: 0 <= i < |conds| ==> conds[i].0 in row
  }

  /** `all(result[key] == value for key, value in conditions.items())`:
      the pairs are tried in order, the first unequal one answers false,
      and a missing attribute met before that raises. */
  function Test<K(==), V(==)>(row: map<K, V>, conds: seq<(K, V)>): Result<bool, QueryError<K>>
  {
    if conds == [] then Success(true)
    else if conds[0].0 !in row then Failure(MissingKey(conds[0].0))
    else if row[conds[0].0] != conds[0].1 then Success(false)
    else Test(row, conds[1..])
  }

  /** The test answers exactly `Satisfies`, and raises only on an attribute the
      row lacks; a row holding every condition's attribute never raises. */
  lemma {:induction false} TestMeaning<K, V>(row: map<K, V>, conds: seq<(K, V)>)
    ensures Test(row, conds).Success? ==> (Test(row, conds).value <==> Satisfies(row, conds))
    ensures Test(row, conds).Failure? ==>
      Test(row, conds).error.MissingKey? && Test(row, conds).error.key !in row &&
      exists i :: 0 <= i < |conds| && conds[i].0 == Test(row, conds).error.key
    ensures HasKeys(row, conds) ==> Test(row, conds).Success?
  {
    if conds != [] && conds[0].0 in row && row[conds[0].0] == conds[0].1 {
      TestMeaning(row, conds[1..]);
      var t := Test(row, conds[1..]);
      if t.Failure? {
        var i :| 0 <= i < |conds[1..]| && conds[1..][i].0 == t.error.key;
        assert conds[i + 1].0 == t.error.key;
      }
      if t == Success(true) {
        forall i | 0 <= i < |conds|
          ensures conds[i].0 in row && row[conds[i].0] == conds[i].1
        {
          if i > 0 { assert conds[i] == conds[1..][i - 1]; }
        }
      }
      if Satisfies(row, conds) {
        assert Satisfies(row, conds[1..]) by {
          forall i | 0 <= i < |conds[1..]|
            ensures conds[1..][i].0 in row && row[conds[1..][i].0] == conds[1..][i].1
          {
            assert conds[1..][i] == conds[i + 1];
          }
        }
      }
      if HasKeys(row, conds) {
        assert HasKeys(row, conds[1..]) by {
          forall i | 0 <= i < |conds[1..]| ensures conds[1..][i].0 in row {
            assert conds[1..][i] == conds[i + 1];
          }
        }
      }
    }
  }

  // ---------------------------------------------------------------------
  // Selecting rows: the reference filter and `query`

  /** The rows that satisfy every condition, in scan order. */
  function Keep<K(==), V(==)>(rows: seq<map<K, V>>, conds: seq<(K, V)>): (r: seq<map<K, V>>)
    ensures |r| <= |rows|
    ensures forall row :: row in r ==> row in rows && Satisfies(row, conds)
    ensures forall i :: 0 <= i < |rows| && Satisfies(rows[i], conds) ==> rows[i] in r
  {
    if rows == [] then []
    else
      var rest := Keep(rows[1..], conds);
      assert forall i :: 1 <= i < |rows| ==> rows[i] == rows[1..][i - 1];
      (if Satisfies(rows[0], conds) then [rows[0]] else []) + rest
  }

  /** Puts `front` before the rows of a successful result; a failure stays. */
  function Prepend<T, E>(front: seq<T>, r: Result<seq<T>, E>): Result<seq<T>, E>
  {
    match r
    case Success(s) => Success(front + s)
    case Failure(e) => Failure(e)
  }

  lemma PrependNil<T, E>(r: Result<seq<T>, E>)
    ensures Prepend([], r) == r
  {
    if r.Success? { assert [] + r.value == r.value; }
  }

  lemma PrependTwice<T, E>(a: seq<T>, b: seq<T>, r: Result<seq<T>, E>)
    ensures Prepend(a, Prepend(b, r)) == Prepend(a + b, r)
  {
    if r.Success? { assert a + (b + r.value) == (a + b) + r.value; }
  }

  /** `query`: the rows whose test answers true, or the first error met in scan order. */
  function Select<K(==), V(==)>(rows: seq<map<K, V>>, conds: seq<(K, V)>): Result<seq<map<K, V>>, QueryError<K>>
  {
    if rows == [] then Success([])
    else
      match Test(rows[0], conds)
      case Failure(e) => Failure(e)
      case Success(keep) => Prepend(if keep then [rows[0]] else [], Select(rows[1..], conds))
  }

  /** Every row holds the attributes that the conditions name. */
  predicate AllHaveKeys<K(==), V(==)>(rows: seq<map<K, V>>, conds: seq<(K, V)>)
  {
    forall j :: 0 <= j < |rows| ==> HasKeys(rows[j], conds)
  }

  /** When `query` returns, it returns exactly the satisfying rows in scan order;
      on a table whose rows all carry the condition attributes it always returns. */
  lemma {:induction false} SelectIsKeep<K, V>(rows: seq<map<K, V>>, conds: seq<(K, V)>)
    ensures Select(rows, conds).Success? ==> Select(rows, conds).value == Keep(rows, conds)
    ensures AllHaveKeys(rows, conds) ==> Select(rows, conds) == Success(Keep(rows, conds))
    ensures Select(rows, conds).Failure? ==> Select(rows, conds).error.MissingKey?
  {
    if rows != [] {
      TestMeaning(rows[0], conds);
      SelectIsKeep(rows[1..], conds);
      if AllHaveKeys(rows, conds) {
        assert HasKeys(rows[0], conds);
        assert AllHaveKeys(rows[1..], conds) by {
          forall j | 0 <= j < |rows[1..]| ensures HasKeys(rows[1..][j], conds) {
            assert rows[1..][j] == rows[j + 1];
          }
        }
      }
    }
  }

  // ---------------------------------------------------------------------
  // `item_exists_where` and `first_item_where`

  /** `item_exists_where`: true at the first satisfying row, false at the end,
      and raises if a row met before any match lacks an attribute. */
  function AnyMatch<K(==), V(==)>(rows: seq<map<K, V>>, conds: seq<(K, V)>): Result<bool, QueryError<K>>
  {
    if rows == [] then Success(false)
    else
      match Test(rows[0], conds)
      case Failure(e) => Failure(e)
      case Success(hit) => if hit then Success(true) else AnyMatch(rows[1..], conds)
  }

  /** `first_item_where`: the first satisfying row; with no match it raises when
      `raise_if_not_found` is set and returns None otherwise. */
  function FirstMatch<K(==), V(==)>(rows: seq<map<K, V>>, conds: seq<(K, V)>, raiseIfNotFound: bool)
    : Result<Option<map<K, V>>, QueryError<K>>
  {
    if rows == [] then (if raiseIfNotFound then Failure(NoMatch) else Success(None))
    else
      match Test(rows[0], conds)
      case Failure(e) => Failure(e)
      case Success(hit) => if hit then Success(Some(rows[0])) else FirstMatch(rows[1..], conds, raiseIfNotFound)
  }

  /** Whenever `query` returns, `item_exists_where` answers whether its result is
      non-empty and `first_item_where` gives its first element; and whenever
      `item_exists_where` raises, `query` raises the same error. `query` may
      raise where `item_exists_where` answers true, because the latter stops at
      the first match. */
  lemma {:induction false} LookupsAgreeWithQuery<K, V>(rows: seq<map<K, V>>, conds: seq<(K, V)>, raiseIfNotFound: bool)
    ensures Select(rows, conds).Success? ==>
      AnyMatch(rows, conds) == Success(Select(rows, conds).value != [])
    ensures Select(rows, conds).Success? ==>
      FirstMatch(rows, conds, raiseIfNotFound) ==
        (if Select(rows, conds).value != [] then Success(Some(Select(rows, conds).value[0]))
         else if raiseIfNotFound then Failure(NoMatch) else Success(None))
    ensures AnyMatch(rows, conds).Failure? ==> Select(rows, conds) == Failure(AnyMatch(rows, conds).error)
  {
    if rows != [] {
      LookupsAgreeWithQuery(rows[1..], conds, raiseIfNotFound);
    }
  }

  // ---------------------------------------------------------------------
  // `unique_values_for_key`

  /** The values of `s` in order of first occurrence, each once. */
  function Dedup<V(==)>(s: seq<V>): (d: seq<V>)
    ensures |d| <= |s|
  {
    if s == [] then []
    else
      var d := Dedup(s[..|s| - 1]);
      if s[|s| - 1] in d then d else d + [s[|s| - 1]]
  }

  /** Every value of `s` is kept, nothing else is, and nothing twice. */
  lemma {:induction false} DedupMeaning<V>(s: seq<V>)
    ensures forall v :: v in s ==> v in Dedup(s)
    ensures forall v :: v in Dedup(s) ==> v in s
    ensures forall i, j :: 0 <= i < j < |Dedup(s)| ==> Dedup(s)[i] != Dedup(s)[j]
  {
    if s != [] {
      var p := s[..|s| - 1];
      DedupMeaning(p);
      assert forall v :: v in s <==> v in p || v == s[|s| - 1];
    }
  }

  /** The de-duplication of any prefix is a prefix of the whole, and a value
      met for the first time is appended right there: together with the two
      ensures of `Dedup`, this is "in order of first occurrence". */
  lemma {:induction false} DedupGrowsByPrefix<V>(s: seq<V>, i: nat)
    requires i <= |s|
    ensures Dedup(s[..i]) <= Dedup(s)
    ensures i < |s| && s[i] !in s[..i] ==> Dedup(s[..i + 1]) == Dedup(s[..i]) + [s[i]]
  {
    if i < |s| {
      var p := s[..|s| - 1];
      DedupGrowsByPrefix(p, i);
      assert p[..i] == s[..i];
      if i + 1 < |s| {
        DedupGrowsByPrefix(p, i + 1);
        assert p[..i + 1] == s[..i + 1];
      } else {
        assert s[..i + 1] == s;
        DedupMeaning(p);
      }
    } else {
      assert s[..i] == s;
    }
  }

  /** A sequence without repetitions is as long as the set of its elements. */
  lemma {:induction false} DistinctLength<V>(d: seq<V>)
    requires forall i, j :: 0 <= i < j < |d| ==> d[i] != d[j]
    ensures |d| == |set v | v in d|
  {
    if d != [] {
      var init := d[..|d| - 1];
      DistinctLength(init);
      var last := d[|d| - 1];
      assert last !in init;
      assert (set v | v in d) == (set v | v in init) + {last};
    }
  }

  /** The number `unique_values_for_key` reports (`len` of its result) is the
      number of distinct values. */
  lemma DedupLength<V>(s: seq<V>)
    ensures |Dedup(s)| == |set v | v in s|
  {
    DedupMeaning(s);
    DistinctLength(Dedup(s));
    assert (set v | v in Dedup(s)) == (set v | v in s);
  }

  /** Every row holds the attribute. */
  predicate AllHave<K(==), V(==)>(rows: seq<map<K, V>>, key: K)
  {
    forall i :: 0 <= i < |rows| ==> key in rows[i]
  }

  /** The value of one attribute in each row, in scan order. */
  function Column<K(==), V(==)>(rows: seq<map<K, V>>, key: K): (c: seq<V>)
    requires AllHave(rows, key)
    ensures |c| == |rows| && forall i :: 0 <= i < |rows| ==> c[i] == rows[i][key]
  {
    if rows == [] then [] else Column(rows[..|rows| - 1], key) + [rows[|rows| - 1][key]]
  }

  /** Reading one more row extends the distinct values by that row's value
      when it is new. */
  lemma DedupColumnStep<K, V>(rows: seq<map<K, V>>, key: K, i: nat)
    requires i < |rows| && AllHave(rows[..i], key) && key in rows[i]
    ensures AllHave(rows[..i + 1], key)
    ensures Dedup(Column(rows[..i + 1], key)) ==
            if rows[i][key] in Dedup(Column(rows[..i], key)) then Dedup(Column(rows[..i], key))
            else Dedup(Column(rows[..i], key)) + [rows[i][key]]
  {
    assert rows[..i + 1][..i] == rows[..i];
    var pre := rows[..i + 1];
    forall j | 0 <= j < |pre| ensures key in pre[j] {
      if j < i { assert pre[j] == rows[..i][j]; }
    }
    var c := Column(rows[..i + 1], key);
    assert c[..|c| - 1] == Column(rows[..i], key);
  }

  /** `unique_values_for_key`: the distinct values of the attribute in order of
      first occurrence, or KeyError when some row lacks it. */
  function UniqueValues<K(==), V(==)>(rows: seq<map<K, V>>, key: K): Result<seq<V>, QueryError<K>>
  {
    if AllHave(rows, key) then Success(Dedup(Column(rows, key))) else Failure(MissingKey(key))
  }

  // ---------------------------------------------------------------------
  // `where_eq`

  /** The `eval_as` names that `valid_types` accepts; any other raises ValueError. */
  function ParseEvalAs<K>(evalAs: Option<string>): Result<Option<Conversion>, QueryError<K>>
  {
    match evalAs
    case None => Success(None)
    case Some(name) =>
      if name == "NUMBER" then Success(Some(ToNumber))
      else if name == "STRING" then Success(Some(ToText))
      else if name == "ARRAY" then Success(Some(ToArray))
      else Failure(InvalidEvalType)
  }

  /** One row after `where_eq` converts `key_1` and then `key_2` in place,
      together with the error that stopped it part way, if any. `cast` stands
      for Python's `int`, `str` and `list`, None where they raise. */
  function ConvertRow<K(==), V(==)>(row: map<K, V>, key1: K, key2: K, conv: Conversion, cast: (Conversion, V) -> Option<V>)
    : (map<K, V>, Option<QueryError<K>>)
  {
    if key1 !in row then (row, Some(MissingKey(key1)))
    else
      match cast(conv, row[key1])
      case None => (row, Some(CastFailed(key1)))
      case Some(v1) =>
        var row1 := row[key1 := v1];
        if key2 !in row1 then (row1, Some(MissingKey(key2)))
        else
          match cast(conv, row1[key2])
          case None => (row1, Some(CastFailed(key2)))
          case Some(v2) => (row1[key2 := v2], None)
  }

  /** The row as `where_eq` leaves it and the error it raised on it, if any. */
  function Prepared<K(==), V(==)>(row: map<K, V>, key1: K, key2: K, conv: Option<Conversion>, cast: (Conversion, V) -> Option<V>)
    : (map<K, V>, Option<QueryError<K>>)
  {
    var (r, err) := if conv.Some? then ConvertRow(row, key1, key2, conv.value, cast) else (row, None);
    if err.Some? then (r, err)
    else if key1 !in r then (r, Some(MissingKey(key1)))
    else if key2 !in r then (r, Some(MissingKey(key2)))
    else (r, None)
  }

  /** The rows as the `where_eq` loop leaves them: every row up to the one
      that raised is prepared, the rest are untouched. */
  function Touched<K(==), V(==)>(rows: seq<map<K, V>>, key1: K, key2: K, conv: Option<Conversion>, cast: (Conversion, V) -> Option<V>)
    : seq<map<K, V>>
  {
    if rows == [] then []
    else
      var p := Prepared(rows[0], key1, key2, conv, cast);
      if p.1.Some? then [p.0] + rows[1..] else [p.0] + Touched(rows[1..], key1, key2, conv, cast)
  }

  /** What the `where_eq` loop returns: the prepared rows whose two attributes
      are equal, or the first error. */
  function Matching<K(==), V(==)>(rows: seq<map<K, V>>, key1: K, key2: K, conv: Option<Conversion>, cast: (Conversion, V) -> Option<V>)
    : Result<seq<map<K, V>>, QueryError<K>>
  {
    if rows == [] then Success([])
    else
      var p := Prepared(rows[0], key1, key2, conv, cast);
      if p.1.Some? then Failure(p.1.value)
      else Prepend(if p.0[key1] == p.0[key2] then [p.0] else [], Matching(rows[1..], key1, key2, conv, cast))
  }

  /** One step of the `where_eq` loop at row `i`. */
  lemma StepAt<K, V>(rows: seq<map<K, V>>, i: nat, key1: K, key2: K, conv: Option<Conversion>, cast: (Conversion, V) -> Option<V>)
    requires i < |rows|
    ensures var p := Prepared(rows[i], key1, key2, conv, cast);
      Touched(rows[i..], key1, key2, conv, cast) ==
        (if p.1.Some? then [p.0] + rows[i + 1..] else [p.0] + Touched(rows[i + 1..], key1, key2, conv, cast)) &&
      Matching(rows[i..], key1, key2, conv, cast) ==
        (if p.1.Some? then Failure(p.1.value)
         else Prepend(if p.0[key1] == p.0[key2] then [p.0] else [], Matching(rows[i + 1..], key1, key2, conv, cast)))
  {
    assert rows[i..][0] == rows[i] && rows[i..][1..] == rows[i + 1..];
  }

  /** Replacing element `i` is splicing it between the prefix and the suffix. */
  lemma Splice<T>(s: seq<T>, i: nat, x: T, rest: seq<T>)
    requires i < |s|
    ensures s[..i] + ([x] + rest) == s[i := x][..i + 1] + rest
    ensures s[..i] + ([x] + s[i + 1..]) == s[i := x]
  {
    assert s[i := x][..i + 1] == s[..i] + [x];
  }

  /** `where_eq`: the table as it is left and the result; an unknown `eval_as`
      raises before any row is touched. */
  function WhereEq<K(==), V(==)>(rows: seq<map<K, V>>, key1: K, key2: K, evalAs: Option<string>, cast: (Conversion, V) -> Option<V>)
    : (seq<map<K, V>>, Result<seq<map<K, V>>, QueryError<K>>)
  {
    match ParseEvalAs(evalAs)
    case Failure(e) => (rows, Failure(e))
    case Success(conv) => (Touched(rows, key1, key2, conv, cast), Matching(rows, key1, key2, conv, cast))
  }

  /** The rows `where_eq` returns are exactly those of the table as it leaves
      it whose two attributes are equal, in order; the table keeps its length;
      without `eval_as` no row changes; and on success every row is its
      converted original. */
  lemma {:induction false} WhereEqMeaning<K, V>(rows: seq<map<K, V>>, key1: K, key2: K, conv: Option<Conversion>, cast: (Conversion, V) -> Option<V>)
    ensures |Touched(rows, key1, key2, conv, cast)| == |rows|
    ensures conv.None? ==> Touched(rows, key1, key2, conv, cast) == rows
    ensures Matching(rows, key1, key2, conv, cast).Success? ==>
      var after := Touched(rows, key1, key2, conv, cast);
      (forall i :: 0 <= i < |rows| ==>
         after[i] == Prepared(rows[i], key1, key2, conv, cast).0 && key1 in after[i] && key2 in after[i]) &&
      (forall row :: row in Matching(rows, key1, key2, conv, cast).value <==>
                     row in after && key1 in row && key2 in row && row[key1] == row[key2])
  {
    if rows != [] {
      WhereEqMeaning(rows[1..], key1, key2, conv, cast);
      var p := Prepared(rows[0], key1, key2, conv, cast);
      if p.1.None? && Matching(rows[1..], key1, key2, conv, cast).Success? {
        var rest := Touched(rows[1..], key1, key2, conv, cast);
        forall i | 0 <= i < |rows|
          ensures ([p.0] + rest)[i] == Prepared(rows[i], key1, key2, conv, cast).0
        {
          if i > 0 { assert rows[i] == rows[1..][i - 1]; }
        }
      }
    }
  }

  /** An unknown `eval_as` raises ValueError and leaves every row as it was. */
  lemma InvalidEvalAsChangesNothing<K, V>(rows: seq<map<K, V>>, key1: K, key2: K, name: string, cast: (Conversion, V) -> Option<V>)
    requires name != "NUMBER" && name != "STRING" && name != "ARRAY"
    ensures WhereEq(rows, key1, key2, Some(name), cast) == (rows, Failure(InvalidEvalType))
  {
  }

  // ---------------------------------------------------------------------
  // The result object

  /** A scan or query response: its rows in order, and whether the store's
      answer carried no "Items" at all. */
  class QueryResponse<K(==), V(==)> {
    var items: seq<map<K, V>>
    const isEmpty: bool

    /** `items` is None when the response has no "Items" entry. */
    constructor (response: Option<seq<map<K, V>>>)
      ensures isEmpty == response.None?
      ensures items == if response.Some? then response.value else []
    {
      isEmpty := response.None?;
      items := if response.Some? then response.value else [];
    }

    method Query(conds: seq<(K, V)>) returns (r: Result<seq<map<K, V>>, QueryError<K>>)
      ensures r == Select(items, conds)
    {
      var acc: seq<map<K, V>> := [];
      var i := 0;
      assert items[0..] == items;
      PrependNil(Select(items, conds));
      while i < |items|
        invariant 0 <= i <= |items|
        invariant Select(items, conds) == Prepend(acc, Select(items[i..], conds))
      {
        assert items[i..][0] == items[i] && items[i..][1..] == items[i + 1..];
        var t := Test(items[i], conds);
        if t.Failure? {
          return Failure(t.error);
        }
        var front := if t.value then [items[i]] else [];
        PrependTwice(acc, front, Select(items[i + 1..], conds));
        acc := acc + front;
        i := i + 1;
      }
      assert items[i..] == [] && acc + [] == acc;
      r := Success(acc);
    }

    method ItemExistsWhere(conds: seq<(K, V)>) returns (r: Result<bool, QueryError<K>>)
      ensures r == AnyMatch(items, conds)
    {
      var i := 0;
      while i < |items|
        invariant 0 <= i <= |items|
        invariant AnyMatch(items, conds) == AnyMatch(items[i..], conds)
      {
        assert items[i..][1..] == items[i + 1..];
        var t := Test(items[i], conds);
        if t.Failure? {
          return Failure(t.error);
        }
        if t.value {
          return Success(true);
        }
        i := i + 1;
      }
      assert items[i..] == [];
      r := Success(false);
    }

    method FirstItemWhere(conds: seq<(K, V)>, raiseIfNotFound: bool)
      returns (r: Result<Option<map<K, V>>, QueryError<K>>)
      ensures r == FirstMatch(items, conds, raiseIfNotFound)
    {
      var i := 0;
      while i < |items|
        invariant 0 <= i <= |items|
        invariant FirstMatch(items, conds, raiseIfNotFound) == FirstMatch(items[i..], conds, raiseIfNotFound)
      {
        assert items[i..][1..] == items[i + 1..];
        var t := Test(items[i], conds);
        if t.Failure? {
          return Failure(t.error);
        }
        if t.value {
          return Success(Some(items[i]));
        }
        i := i + 1;
      }
      assert items[i..] == [];
      if raiseIfNotFound {
        r := Failure(NoMatch);
      } else {
        r := Success(None);
      }
    }

    method UniqueValuesForKey(key: K) returns (r: Result<seq<V>, QueryError<K>>)
      ensures r == UniqueValues(items, key)
    {
      var rows := items;
      var unique: seq<V> := [];
      var i := 0;
      while i < |rows|
        invariant 0 <= i <= |rows|
        invariant AllHave(rows[..i], key)
        invariant unique == Dedup(Column(rows[..i], key))
      {
        if key !in rows[i] {
          return Failure(MissingKey(key));
        }
        DedupColumnStep(rows, key, i);
        if rows[i][key] !in unique {
          unique := unique + [rows[i][key]];
        }
        i := i + 1;
      }
      assert rows[..i] == rows;
      r := Success(unique);
    }

    /** `where_eq` converts the two attributes of each row in place (when
        `eval_as` is given) before comparing them; rows converted before an
        error stay converted. */
    method WhereEqIn(key1: K, key2: K, evalAs: Option<string>, cast: (Conversion, V) -> Option<V>)
      returns (r: Result<seq<map<K, V>>, QueryError<K>>)
      modifies this
      ensures (items, r) == WhereEq(old(items), key1, key2, evalAs, cast)
    {
      var conv := ParseEvalAs(evalAs);
      if conv.Failure? {
        return Failure(conv.error);
      }
      ghost var orig := items;
      var c := conv.value;
      var acc: seq<map<K, V>> := [];
      var i := 0;
      assert orig[0..] == orig && items[..0] + Touched(orig, key1, key2, c, cast) == Touched(orig, key1, key2, c, cast);
      PrependNil(Matching(orig, key1, key2, c, cast));
      while i < |items|
        invariant 0 <= i <= |items| == |orig|
        invariant items[i..] == orig[i..]
        invariant Touched(orig, key1, key2, c, cast) == items[..i] + Touched(orig[i..], key1, key2, c, cast)
        invariant Matching(orig, key1, key2, c, cast) == Prepend(acc, Matching(orig[i..], key1, key2, c, cast))
      {
        StepAt(orig, i, key1, key2, c, cast);
        var prepared := Prepared(items[i], key1, key2, c, cast);
        var row := prepared.0;
        if prepared.1.Some? {
          Splice(items, i, row, []);
          items := items[i := row];
          return Failure(prepared.1.value);
        }
        ghost var rest := Touched(orig[i + 1..], key1, key2, c, cast);
        Splice(items, i, row, rest);
        var front := if row[key1] == row[key2] then [row] else [];
        PrependTwice(acc, front, Matching(orig[i + 1..], key1, key2, c, cast));
        items := items[i := row];
        acc := acc + front;
        i := i + 1;
      }
      assert orig[i..] == [];
      assert items[..i] == items && items + [] == items && acc + [] == acc;
      r := Success(acc);
    }
  }
}
