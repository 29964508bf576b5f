/** The figures `data_statistics` derives from scans of the three tables:
    the distinct team universities, the distinct sub-roster universities and
    the distinct player names, how many of each, and the sports whose team
    count has reached its maximum. */
module Statistics {
  import opened Wrappers
  import opened Roster
  import opened QueryResponses

  /** An attribute value as a scan returns it: a string or a DynamoDB number. */
  datatype Value = Text(s: string) | Number(n: int)

  /** A scanned row: attribute name to value. */
  type Row = map<string, Value>

  /** The conversions `where_eq` may apply: `int` of a number is that number
      and `str` of a string is that string; no other case is modelled. */
  function Cast(c: Conversion, v: Value): (r: Option<Value>)
    ensures r.Some? ==> r.value == v
    ensures c == ToNumber && v.Number? ==> r == Some(v)
  {
    match (c, v)
    case (ToNumber, Number(_)) => Some(v)
    case (ToText, Text(_)) => Some(v)
    case _ => None
  }

  // ---------------------------------------------------------------------
  // The rows the handlers write

  /** A Players row as `add_player` and `edit_player` write it. */
  function PlayerRow(p: Player): Row
  {
    map["player_uuid" := Text(p.id), "sport" := Text(p.sport), "team_university" := Text(p.teamUniversity),
        "name" := Text(p.name), "player_university" := Text(p.playerUniversity)]
  }

  /** A Teams row as `add_player` writes it. */
  function TeamRow(t: Team): Row
  {
    map["team_uuid" := Text(t.id), "sport" := Text(t.sport), "team_university" := Text(t.teamUniversity),
        "captain" := Text(t.captain), "contact" := Text(t.contact), "university" := Text(t.university)]
  }

  /** A SportCount row, keyed by `sport_name`. */
  function CountRow(entry: (string, SportCount)): Row
  {
    map["sport_name" := Text(entry.0), "team_count" := Number(entry.1.teamCount),
        "max_teams" := Number(entry.1.maxTeams)]
  }

  function PlayerRows(players: seq<Player>): (r: seq<Row>)
    ensures |r| == |players| && forall i :: 0 <= i < |players| ==> r[i] == PlayerRow(players[i])
  {
    seq(|players|, i requires 0 <= i < |players| => PlayerRow(players[i]))
  }

  function TeamRows(teams: seq<Team>): (r: seq<Row>)
    ensures |r| == |teams| && forall i :: 0 <= i < |teams| ==> r[i] == TeamRow(teams[i])
  {
    seq(|teams|, i requires 0 <= i < |teams| => TeamRow(teams[i]))
  }

  function CountRows(counts: seq<(string, SportCount)>): (r: seq<Row>)
    ensures |r| == |counts| && forall i :: 0 <= i < |counts| ==> r[i] == CountRow(counts[i])
  {
    seq(|counts|, i requires 0 <= i < |counts| => CountRow(counts[i]))
  }

  // ---------------------------------------------------------------------
  // The derivation

  /** The `data` part of the answer, and the SportCount rows as `where_eq`
      leaves them (they are sent back as `raw_data`). */
  datatype Stats = Stats(
    uniqueMainUniversities: seq<Value>,
    uniquePlayerUniversities: seq<Value>,
    uniquePlayers: seq<Value>,
    fullTeams: seq<Row>,
    numUniqueMainUniversities: nat,
    numUniquePlayerUniversities: nat,
    numUniquePlayers: nat,
    sportCount: seq<Row>)

  /** The derivation, in the order the response dictionary is built, given
      the attribute names its three distinct-value reads use; the first read
      that raises answers for all. */
  function Derive(players: seq<Row>, teams: seq<Row>, counts: seq<Row>,
                  mainKey: string, uniKey: string, nameKey: string): Result<Stats, QueryError<string>>
  {
    var main := UniqueValues(teams, mainKey);
    if main.Failure? then Failure(main.error)
    else
      var unis := UniqueValues(teams, uniKey);
      if unis.Failure? then Failure(unis.error)
      else
        var names := UniqueValues(players, nameKey);
        if names.Failure? then Failure(names.error)
        else
          var (after, full) := WhereEq(counts, "max_teams", "team_count", Some("NUMBER"), Cast);
          if full.Failure? then Failure(full.error)
          else
            Success(Stats(main.value, unis.value, names.value, full.value,
                          |main.value|, |unis.value|, |names.value|, after))
  }

  /** `data_statistics` as written: it reads `main_uni`, `uni` and
      `player_name`, none of which the handlers write. */
  function DataStatisticsAsWritten(players: seq<Row>, teams: seq<Row>, counts: seq<Row>): Result<Stats, QueryError<string>>
  {
    Derive(players, teams, counts, "main_uni", "uni", "player_name")
  }

  /** `data_statistics` reading the attributes the handlers write:
      `team_university` and `university` of Teams, `name` of Players. */
  function DataStatistics(players: seq<Row>, teams: seq<Row>, counts: seq<Row>): Result<Stats, QueryError<string>>
  {
    Derive(players, teams, counts, "team_university", "university", "name")
  }

  // ---------------------------------------------------------------------
  // Properties

  /** The sports whose team count equals their maximum, in scan order. */
  function Full(counts: seq<(string, SportCount)>): (r: seq<(string, SportCount)>)
    ensures |r| <= |counts|
    ensures forall e :: e in r <==> e in counts && e.1.teamCount == e.1.maxTeams
  {
    if counts == [] then []
    else
      assert forall e :: e in counts <==> e == counts[0] || e in counts[1..];
      (if counts[0].1.teamCount == counts[0].1.maxTeams then [counts[0]] else []) + Full(counts[1..])
  }

  /** Converting a SportCount row's two counts to numbers leaves it as it was. */
  lemma PreparedCountRow(entry: (string, SportCount))
    ensures Prepared(CountRow(entry), "max_teams", "team_count", Some(ToNumber), Cast) == (CountRow(entry), None)
  {
    var row := CountRow(entry);
    assert row["max_teams" := row["max_teams"]] == row;
    assert row["team_count" := row["team_count"]] == row;
  }

  /** Converting leaves every SportCount row as it was. */
  lemma {:induction false} TouchedCountRows(counts: seq<(string, SportCount)>)
    ensures Touched(CountRows(counts), "max_teams", "team_count", Some(ToNumber), Cast) == CountRows(counts)
  {
    if counts != [] {
      var rows := CountRows(counts);
      TouchedCountRows(counts[1..]);
      assert rows[1..] == CountRows(counts[1..]);
      PreparedCountRow(counts[0]);
    }
  }

  /** Rows of a concatenation are the concatenated rows. */
  lemma CountRowsAppend(a: seq<(string, SportCount)>, b: seq<(string, SportCount)>)
    ensures CountRows(a + b) == CountRows(a) + CountRows(b)
  {
    var l, r := CountRows(a + b), CountRows(a) + CountRows(b);
    forall i | 0 <= i < |l| ensures l[i] == r[i] {
      assert (a + b)[i] == if i < |a| then a[i] else b[i - |a|];
    }
  }

  /** The rows whose two counts agree are the full sports' rows, in scan order. */
  lemma {:induction false} MatchingCountRows(counts: seq<(string, SportCount)>)
    ensures Matching(CountRows(counts), "max_teams", "team_count", Some(ToNumber), Cast) ==
            Success(CountRows(Full(counts)))
  {
    if counts != [] {
      var rows := CountRows(counts);
      var row := rows[0];
      MatchingCountRows(counts[1..]);
      assert rows[1..] == CountRows(counts[1..]);
      PreparedCountRow(counts[0]);
      var front := if counts[0].1.teamCount == counts[0].1.maxTeams then [counts[0]] else [];
      var kept := if row["max_teams"] == row["team_count"] then [row] else [];
      assert kept == CountRows(front);
      assert Matching(rows, "max_teams", "team_count", Some(ToNumber), Cast) ==
             Prepend(kept, Success(CountRows(Full(counts[1..]))));
      CountRowsAppend(front, Full(counts[1..]));
    }
  }

  /** On SportCount rows, `where_eq("max_teams", "team_count", eval_as="NUMBER")`
      leaves every row as it was and returns exactly the full sports' rows,
      in scan order. */
  lemma FullTeamsMeaning(counts: seq<(string, SportCount)>)
    ensures WhereEq(CountRows(counts), "max_teams", "team_count", Some("NUMBER"), Cast) ==
            (CountRows(counts), Success(CountRows(Full(counts))))
  {
    TouchedCountRows(counts);
    MatchingCountRows(counts);
  }

  /** Where a column holds exactly the wrapped strings of a set, its
      distinct values are those strings, as many as the set has. */
  lemma DistinctCount(col: seq<Value>, strings: set<string>)
    requires forall i :: 0 <= i < |col| ==> col[i].Text? && col[i].s in strings
    requires forall u :: u in strings ==> Text(u) in col
    ensures forall v :: v in Dedup(col) <==> v.Text? && v.s in strings
    ensures |Dedup(col)| == |strings|
  {
    DedupMeaning(col);
    DedupLength(col);
    assert (set v | v in col) == (set u | u in strings :: Text(u));
    TextCount(strings);
  }

  /** Wrapping strings as attribute values keeps them apart. */
  lemma {:induction false} TextCount(s: set<string>)
    ensures |set u | u in s :: Text(u)| == |s|
  {
    if s != {} {
      var u :| u in s;
      TextCount(s - {u});
      assert (set x | x in s :: Text(x)) == (set x | x in s - {u} :: Text(x)) + {Text(u)};
    }
  }

  /** On the tables the handlers write, `data_statistics` as written raises
      `KeyError("main_uni")` as soon as Teams has a row, and
      `KeyError("player_name")` when only Players has one; it answers only
      for an empty tournament, with every figure zero. */
  lemma StatisticsAsWrittenFails(players: seq<Player>, teams: seq<Team>, counts: seq<(string, SportCount)>)
    ensures var r := DataStatisticsAsWritten(PlayerRows(players), TeamRows(teams), CountRows(counts));
      (teams != [] ==> r == Failure(MissingKey("main_uni"))) &&
      (teams == [] && players != [] ==> r == Failure(MissingKey("player_name"))) &&
      (teams == [] && players == [] ==>
         r.Success? && r.value.numUniqueMainUniversities == 0 && r.value.numUniquePlayerUniversities == 0 &&
         r.value.numUniquePlayers == 0)
  {
    var pr, tr, cr := PlayerRows(players), TeamRows(teams), CountRows(counts);
    if teams != [] {
      assert "main_uni" !in tr[0];
      assert UniqueValues(tr, "main_uni") == Failure(MissingKey("main_uni"));
    } else if players != [] {
      assert "player_name" !in pr[0];
      assert UniqueValues(pr, "player_name") == Failure(MissingKey("player_name"));
    } else {
      FullTeamsMeaning(counts);
      assert UniqueValues(tr, "main_uni") == Success([]);
      assert UniqueValues(tr, "uni") == Success([]);
      assert UniqueValues(pr, "player_name") == Success([]);
    }
  }

  /** The team universities Teams fields. */
  function TeamUniversitiesOf(teams: seq<Team>): set<string>
  {
    set t | t in teams :: t.teamUniversity
  }

  /** The distinct team universities of Teams, each once. */
  lemma MainUniversities(teams: seq<Team>)
    ensures var r := UniqueValues(TeamRows(teams), "team_university");
      r.Success? && (forall v :: v in r.value <==> v.Text? && v.s in TeamUniversitiesOf(teams)) &&
      |r.value| == |TeamUniversitiesOf(teams)|
  {
    var rows := TeamRows(teams);
    assert AllHave(rows, "team_university");
    var col := Column(rows, "team_university");
    var strings := TeamUniversitiesOf(teams);
    forall i | 0 <= i < |col| ensures col[i].Text? && col[i].s in strings {
      assert col[i] == Text(teams[i].teamUniversity);
    }
    forall u | u in strings ensures Text(u) in col {
      var i :| 0 <= i < |teams| && teams[i].teamUniversity == u;
      assert col[i] == Text(u);
    }
    DistinctCount(col, strings);
  }

  /** The universities Teams has sub-rosters for. */
  function SubRosterUniversitiesOf(teams: seq<Team>): set<string>
  {
    set t | t in teams :: t.university
  }

  /** The distinct sub-roster universities of Teams, each once. */
  lemma SubRosterUniversities(teams: seq<Team>)
    ensures var r := UniqueValues(TeamRows(teams), "university");
      r.Success? && (forall v :: v in r.value <==> v.Text? && v.s in SubRosterUniversitiesOf(teams)) &&
      |r.value| == |SubRosterUniversitiesOf(teams)|
  {
    var rows := TeamRows(teams);
    assert AllHave(rows, "university");
    var col := Column(rows, "university");
    var strings := SubRosterUniversitiesOf(teams);
    forall i | 0 <= i < |col| ensures col[i].Text? && col[i].s in strings {
      assert col[i] == Text(teams[i].university);
    }
    forall u | u in strings ensures Text(u) in col {
      var i :| 0 <= i < |teams| && teams[i].university == u;
      assert col[i] == Text(u);
    }
    DistinctCount(col, strings);
  }

  /** The names Players holds. */
  function PlayerNamesOf(players: seq<Player>): set<string>
  {
    set p | p in players :: p.name
  }

  /** The distinct player names of Players, each once. */
  lemma PlayerNames(players: seq<Player>)
    ensures var r := UniqueValues(PlayerRows(players), "name");
      r.Success? && (forall v :: v in r.value <==> v.Text? && v.s in PlayerNamesOf(players)) &&
      |r.value| == |PlayerNamesOf(players)|
  {
    var rows := PlayerRows(players);
    assert AllHave(rows, "name");
    var col := Column(rows, "name");
    var strings := PlayerNamesOf(players);
    forall i | 0 <= i < |col| ensures col[i].Text? && col[i].s in strings {
      assert col[i] == Text(players[i].name);
    }
    forall u | u in strings ensures Text(u) in col {
      var i :| 0 <= i < |players| && players[i].name == u;
      assert col[i] == Text(u);
    }
    DistinctCount(col, strings);
  }

  /** On the tables the handlers write, `data_statistics` with the written
      attribute names always answers: the distinct team universities, the
      distinct sub-roster universities and the distinct player names, each
      counted, and the full sports' rows in scan order, the SportCount rows
      left as they were. */
  lemma StatisticsMeaning(players: seq<Player>, teams: seq<Team>, counts: seq<(string, SportCount)>)
    ensures var r := DataStatistics(PlayerRows(players), TeamRows(teams), CountRows(counts));
      r.Success? &&
      (forall v :: v in r.value.uniqueMainUniversities <==> v.Text? && v.s in TeamUniversitiesOf(teams)) &&
      (forall v :: v in r.value.uniquePlayerUniversities <==> v.Text? && v.s in SubRosterUniversitiesOf(teams)) &&
      (forall v :: v in r.value.uniquePlayers <==> v.Text? && v.s in PlayerNamesOf(players)) &&
      r.value.numUniqueMainUniversities == |TeamUniversitiesOf(teams)| &&
      r.value.numUniquePlayerUniversities == |SubRosterUniversitiesOf(teams)| &&
      r.value.numUniquePlayers == |PlayerNamesOf(players)| &&
      r.value.fullTeams == CountRows(Full(counts)) &&
      r.value.sportCount == CountRows(counts)
  {
    MainUniversities(teams);
    SubRosterUniversities(teams);
    PlayerNames(players);
    FullTeamsMeaning(counts);
  }
}
