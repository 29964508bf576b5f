/** What `delete_player` and `edit_player` do to the store. Deleting removes
    exactly the player's row, and the team's Team rows and one unit of its
    sport's count only when no player of the team remains. Editing replaces
    the row under a new id and never touches Teams or SportCount. */
module RemovalProperties {
  import opened Wrappers
  import opened Roster
  import opened Mutations
  import opened TableFacts

  /** With distinct ids, the first row holding row `k`'s id is row `k`. */
  lemma FirstPlayerIndexAt(players: seq<Player>, k: nat)
    requires DistinctPlayerIds(players) && k < |players|
    ensures HasPlayerId(players, players[k].id) && FirstPlayerIndex(players, players[k].id) == k
  {
    assert HasPlayerId(players, players[k].id);
  }

  // ---------------------------------------------------------------------
  // delete_player

  /** An unknown id changes nothing. */
  lemma DeleteAbsentChangesNothing(db: Db, id: string)
    requires !HasPlayerId(db.players, id)
    ensures DeletePlayerSpec(db, Some(id)) == Reply(db, NotFound)
  {
  }

  /** Deleting row `k`'s player: the row goes, then the pair's team is
      removed only if none of its players remains. */
  lemma DeleteUnfold(db: Db, k: nat)
    requires UniqueIds(db) && k < |db.players|
    ensures var p := db.players[k];
      var rest := db.players[..k] + db.players[k + 1..];
      DeletePlayerSpec(db, Some(p.id)) ==
        if HasPlayers(rest, p.teamUniversity, p.sport) then Reply(db.(players := rest), Ok(PlayerDeleted))
        else RemoveTeam(db.(players := rest), p.teamUniversity, p.sport)
  {
    FirstPlayerIndexAt(db.players, k);
    WithoutPlayerAt(db.players, k);
  }

  /** The team removal deletes every Team row of the team and no other row,
      lowers the sport's count by one, and raises where a lookup finds
      nothing. */
  lemma RemoveTeamMeaning(db: Db, teamUniversity: string, sport: string)
    ensures var r := RemoveTeam(db, teamUniversity, sport);
      r.db.players == db.players &&
      (!HasTeam(db.teams, teamUniversity, sport) ==> r == Reply(db, Crashed)) &&
      (HasTeam(db.teams, teamUniversity, sport) ==>
         (forall t :: t in r.db.teams <==> t in db.teams && !OfPair(t, teamUniversity, sport)) &&
         !HasTeam(r.db.teams, teamUniversity, sport) &&
         (sport !in db.counts ==> r.db.counts == db.counts && r.outcome == Crashed) &&
         (sport in db.counts ==>
            r.db.counts == db.counts[sport := SportCount(db.counts[sport].teamCount - 1, db.counts[sport].maxTeams)] &&
            r.outcome == Ok(TeamDeleted)))
  {
    WithoutPairMembers(db.teams, teamUniversity, sport);
  }

  /** The removal as written deletes exactly the team's first Team row and
      lowers the sport's count by one. */
  lemma RemoveFirstTeamRowMeaning(db: Db, teamUniversity: string, sport: string)
    requires DistinctTeamIds(db.teams)
    ensures var r := RemoveFirstTeamRow(db, teamUniversity, sport);
      r.db.players == db.players &&
      (!HasTeam(db.teams, teamUniversity, sport) ==> r == Reply(db, Crashed)) &&
      (HasTeam(db.teams, teamUniversity, sport) ==>
         var m := FirstTeamIndex(db.teams, teamUniversity, sport);
         r.db.teams == db.teams[..m] + db.teams[m + 1..] &&
         (sport !in db.counts ==> r.db.counts == db.counts && r.outcome == Crashed) &&
         (sport in db.counts ==>
            r.db.counts == db.counts[sport := SportCount(db.counts[sport].teamCount - 1, db.counts[sport].maxTeams)] &&
            r.outcome == Ok(TeamDeleted)))
  {
    if HasTeam(db.teams, teamUniversity, sport) {
      WithoutTeamAt(db.teams, FirstTeamIndex(db.teams, teamUniversity, sport));
    }
  }

  /** Deleting row `k`'s player removes exactly that row; while a player of
      the same team university and sport remains, nothing else changes. */
  lemma DeleteRemovesPlayer(db: Db, k: nat)
    requires UniqueIds(db) && k < |db.players|
    ensures var p := db.players[k];
      var rest := db.players[..k] + db.players[k + 1..];
      var r := DeletePlayerSpec(db, Some(p.id));
      r.db.players == rest &&
      (HasPlayers(rest, p.teamUniversity, p.sport) ==>
         r == Reply(db.(players := rest), Ok(PlayerDeleted)))
  {
    var p := db.players[k];
    var rest := db.players[..k] + db.players[k + 1..];
    DeleteUnfold(db, k);
    if !HasPlayers(rest, p.teamUniversity, p.sport) {
      RemoveTeamMeaning(db.(players := rest), p.teamUniversity, p.sport);
    }
  }

  /** Once no player of the pair remains and the pair has no Team row, the
      team lookup raises: Teams and SportCount are untouched. */
  lemma DeleteLastPlayerNoTeam(db: Db, k: nat)
    requires UniqueIds(db) && k < |db.players|
    requires !HasPlayers(db.players[..k] + db.players[k + 1..], db.players[k].teamUniversity, db.players[k].sport)
    requires !HasTeam(db.teams, db.players[k].teamUniversity, db.players[k].sport)
    ensures var r := DeletePlayerSpec(db, Some(db.players[k].id));
      r.db.teams == db.teams && r.db.counts == db.counts && r.outcome == Crashed
  {
    var p := db.players[k];
    DeleteUnfold(db, k);
    RemoveTeamMeaning(db.(players := db.players[..k] + db.players[k + 1..]), p.teamUniversity, p.sport);
  }

  /** Once no player of the team remains, every Team row of the team goes and
      the sport's count drops by one; the handler raises when the sport has no
      count. */
  lemma DeleteLastPlayer(db: Db, k: nat)
    requires UniqueIds(db) && k < |db.players|
    requires !HasPlayers(db.players[..k] + db.players[k + 1..], db.players[k].teamUniversity, db.players[k].sport)
    requires HasTeam(db.teams, db.players[k].teamUniversity, db.players[k].sport)
    ensures var p := db.players[k];
      var r := DeletePlayerSpec(db, Some(p.id));
      r.db.teams == WithoutPair(db.teams, p.teamUniversity, p.sport) &&
      (forall t :: t in r.db.teams <==> t in db.teams && !OfPair(t, p.teamUniversity, p.sport)) &&
      (p.sport !in db.counts ==> r.db.counts == db.counts && r.outcome == Crashed) &&
      (p.sport in db.counts ==>
         r.db.counts == db.counts[p.sport := SportCount(db.counts[p.sport].teamCount - 1, db.counts[p.sport].maxTeams)] &&
         r.outcome == Ok(TeamDeleted))
  {
    var p := db.players[k];
    var d := db.(players := db.players[..k] + db.players[k + 1..]);
    DeleteUnfold(db, k);
    assert DeletePlayerSpec(db, Some(p.id)) == RemoveTeam(d, p.teamUniversity, p.sport);
    RemoveTeamMeaning(d, p.teamUniversity, p.sport);
  }

  /** Removing a player row keeps the other players covered. */
  lemma PlayerRemovalKeepsCovered(db: Db, k: nat)
    requires RostersCovered(db) && k < |db.players|
    ensures RostersCovered(db.(players := db.players[..k] + db.players[k + 1..]))
  {
    var rest := db.players[..k] + db.players[k + 1..];
    forall j | 0 <= j < |rest|
      ensures HasSubRoster(db.teams, rest[j].sport, rest[j].teamUniversity, rest[j].playerUniversity)
    {
      assert rest[j] == db.players[if j < k then j else j + 1];
    }
  }

  /** Deleting the Team rows of a team no player is in keeps every player covered. */
  lemma PairRemovalKeepsCovered(db: Db, teamUniversity: string, sport: string)
    requires RostersCovered(db) && !HasPlayers(db.players, teamUniversity, sport)
    ensures RostersCovered(db.(teams := WithoutPair(db.teams, teamUniversity, sport)))
  {
    forall j | 0 <= j < |db.players|
      ensures HasSubRoster(WithoutPair(db.teams, teamUniversity, sport), db.players[j].sport,
                           db.players[j].teamUniversity, db.players[j].playerUniversity)
    {
      var q := db.players[j];
      SubRosterWithoutPair(db.teams, teamUniversity, sport, q.sport, q.teamUniversity, q.playerUniversity);
    }
  }

  /** Whatever the outcome, every remaining player keeps a sub-roster row:
      the Team row deleted belongs to a pair no remaining player is in. */
  lemma DeleteKeepsRostersCovered(db: Db, id: string)
    requires UniqueIds(db) && RostersCovered(db)
    ensures RostersCovered(DeletePlayerSpec(db, Some(id)).db)
  {
    if HasPlayerId(db.players, id) {
      var k := FirstPlayerIndex(db.players, id);
      var p := db.players[k];
      var d := db.(players := db.players[..k] + db.players[k + 1..]);
      PlayerRemovalKeepsCovered(db, k);
      DeleteUnfold(db, k);
      var r := DeletePlayerSpec(db, Some(id));
      if HasPlayers(d.players, p.teamUniversity, p.sport) {
        assert r.db == d;
      } else {
        var t := RemoveTeam(d, p.teamUniversity, p.sport);
        assert r == t;
        if HasTeam(d.teams, p.teamUniversity, p.sport) {
          PairRemovalKeepsCovered(d, p.teamUniversity, p.sport);
          assert t.db == d.(teams := WithoutPair(d.teams, p.teamUniversity, p.sport)).(counts := t.db.counts);
        } else {
          assert t.db == d;
        }
      }
    }
  }

  /** Deleting keeps each sport's count equal to the number of team
      universities it fields: the count drops exactly when the team's last
      player goes, and with it every Team row of the team. */
  lemma DeleteKeepsCountsConsistent(db: Db, id: string)
    requires CountsConsistent(db)
    ensures CountsConsistent(DeletePlayerSpec(db, Some(id)).db)
  {
    if HasPlayerId(db.players, id) {
      var k := FirstPlayerIndex(db.players, id);
      var p := db.players[k];
      var d := db.(players := WithoutPlayer(db.players, id));
      var r := DeletePlayerSpec(db, Some(id));
      if !HasPlayers(d.players, p.teamUniversity, p.sport) && HasTeam(db.teams, p.teamUniversity, p.sport) {
        assert r == RemoveTeam(d, p.teamUniversity, p.sport);
        FieldedIffHasTeam(db.teams, p.teamUniversity, p.sport);
        forall s | s in r.db.counts ensures r.db.counts[s].teamCount == |FieldedUniversities(r.db.teams, s)| {
          FieldedWithoutPair(db.teams, p.teamUniversity, p.sport, s);
        }
      }
    }
  }

  /** A team of KCL in Football with its founding row and an allied row for
      UCL, whose only player is from UCL. */
  const Founding := Team("t1", "Football", "KCL", "Ann Lee", "ann@kcl", "KCL")
  const Allied := Team("t2", "Football", "KCL", "Ben Ng", "ben@ucl", "UCL")
  const AlliedTeamDb := Db([Player("p1", "Football", "KCL", "Cat", "UCL")], [Founding, Allied],
                           map["Football" := SportCount(1, 8)])

  /** Deleting that player leaves no player of the team, so the team removal runs. */
  lemma DeleteAlliedPlayer()
    ensures DeletePlayerSpec(AlliedTeamDb, Some("p1")) == RemoveTeam(AlliedTeamDb.(players := []), "KCL", "Football")
  {
    var db := AlliedTeamDb;
    assert db.players[..0] + db.players[1..] == [];
    assert UniqueIds(db);
    DeleteUnfold(db, 0);
    assert !HasPlayers([], "KCL", "Football");
  }

  /** The store before: both rows field KCL once, matching the count of one. */
  lemma AlliedTeamConsistent()
    ensures UniqueIds(AlliedTeamDb) && CountsConsistent(AlliedTeamDb)
  {
    var db := AlliedTeamDb;
    assert FieldedUniversities(db.teams, "Football") == {"KCL"} by {
      assert db.teams[0].teamUniversity in FieldedUniversities(db.teams, "Football");
    }
  }

  /** The removal as written deletes the founding row only and lowers the count. */
  lemma RemoveFirstRowAlliedTeam()
    ensures RemoveFirstTeamRow(AlliedTeamDb.(players := []), "KCL", "Football") ==
            Reply(Db([], [Allied], map["Football" := SportCount(0, 8)]), Ok(TeamDeleted))
  {
    var d := AlliedTeamDb.(players := []);
    assert HasTeam(d.teams, "KCL", "Football") by {
      assert d.teams[0].teamUniversity == "KCL" && d.teams[0].sport == "Football";
    }
    assert FirstTeamIndex(d.teams, "KCL", "Football") == 0;
    assert d.teams[1..] == [Allied];
    assert "t2" != "t1" by { assert "t2"[1] != "t1"[1]; }
    assert WithoutTeam([Allied], "t1") == [Allied];
  }

  /** Deleting only the team's first Team row leaves its allied row behind:
      the count drops to zero while KCL is still fielded in Football. */
  lemma FirstRowLeavesAlliedRows()
    ensures RemoveFirstTeamRow(AlliedTeamDb.(players := []), "KCL", "Football").db.teams == [Allied]
    ensures !CountsConsistent(RemoveFirstTeamRow(AlliedTeamDb.(players := []), "KCL", "Football").db)
  {
    RemoveFirstRowAlliedTeam();
    var after := Db([], [Allied], map["Football" := SportCount(0, 8)]);
    assert FieldedUniversities(after.teams, "Football") == {"KCL"} by {
      assert after.teams[0].teamUniversity in FieldedUniversities(after.teams, "Football");
    }
  }

  /** As written, whenever the team has a second Team row, deleting its first
      row alone lowers the count while the team university stays fielded, so
      a consistent store becomes inconsistent. */
  lemma FirstRowRemovalDrifts(db: Db, teamUniversity: string, sport: string)
    requires CountsConsistent(db) && DistinctTeamIds(db.teams) && sport in db.counts
    requires HasTeam(db.teams, teamUniversity, sport)
    requires exists j :: 0 <= j < |db.teams| && j != FirstTeamIndex(db.teams, teamUniversity, sport) &&
                         OfPair(db.teams[j], teamUniversity, sport)
    ensures !CountsConsistent(RemoveFirstTeamRow(db, teamUniversity, sport).db)
  {
    var m := FirstTeamIndex(db.teams, teamUniversity, sport);
    RemoveFirstTeamRowMeaning(db, teamUniversity, sport);
    var j :| 0 <= j < |db.teams| && j != m && OfPair(db.teams[j], teamUniversity, sport);
    FieldedKeptWithTwin(db.teams, m, j);
    var r := RemoveFirstTeamRow(db, teamUniversity, sport);
    assert r.db.counts[sport].teamCount == |FieldedUniversities(r.db.teams, sport)| - 1;
  }

  /** Deleting that player deletes both rows of the team and lowers the count. */
  lemma DeleteRemovesAlliedRows()
    ensures DeletePlayerSpec(AlliedTeamDb, Some("p1")) ==
            Reply(Db([], [], map["Football" := SportCount(0, 8)]), Ok(TeamDeleted))
  {
    DeleteAlliedPlayer();
    var d := AlliedTeamDb.(players := []);
    assert HasTeam(d.teams, "KCL", "Football") by {
      assert d.teams[0].teamUniversity == "KCL" && d.teams[0].sport == "Football";
    }
    assert WithoutPair(d.teams, "KCL", "Football") == [] by {
      assert d.teams[1..] == [Allied];
      assert d.teams[1..][1..] == [];
    }
  }

  /** The handler as written raises after deleting the last player of a pair,
      before any Team row or count is touched; the corrected lookup goes on to
      delete the team's Team rows and lower the count. */
  lemma DeleteAsWrittenCrashesOnLastPlayer(db: Db, k: nat)
    requires UniqueIds(db) && k < |db.players|
    requires !HasPlayers(db.players[..k] + db.players[k + 1..], db.players[k].teamUniversity, db.players[k].sport)
    ensures DeletePlayerAsWritten(db, Some(db.players[k].id)) ==
            Reply(db.(players := db.players[..k] + db.players[k + 1..]), Crashed)
    ensures HasTeam(db.teams, db.players[k].teamUniversity, db.players[k].sport) && db.players[k].sport in db.counts ==>
            DeletePlayerSpec(db, Some(db.players[k].id)).outcome.Ok?
  {
    DeleteUnfold(db, k);
    if HasTeam(db.teams, db.players[k].teamUniversity, db.players[k].sport) {
      DeleteLastPlayer(db, k);
    }
  }

  /** Deleting keeps ids primary keys. */
  lemma DeleteKeepsIdsUnique(db: Db, id: string)
    requires UniqueIds(db)
    ensures UniqueIds(DeletePlayerSpec(db, Some(id)).db)
  {
    if HasPlayerId(db.players, id) {
      var k := FirstPlayerIndex(db.players, id);
      var p := db.players[k];
      DeleteRemovesPlayer(db, k);
      DistinctPlayerRemove(db.players, k);
      if !HasPlayers(db.players[..k] + db.players[k + 1..], p.teamUniversity, p.sport) {
        if HasTeam(db.teams, p.teamUniversity, p.sport) {
          DeleteLastPlayer(db, k);
          DistinctWithoutPair(db.teams, p.teamUniversity, p.sport);
        } else {
          DeleteLastPlayerNoTeam(db, k);
        }
      }
    }
  }

  // ---------------------------------------------------------------------
  // edit_player

  /** Editing never touches Teams or SportCount, and an unknown id changes nothing. */
  lemma EditFrame(db: Db, req: EditRequest, newId: string, writeFails: bool)
    ensures var r := EditPlayerSpec(db, req, newId, writeFails);
      r.db.teams == db.teams && r.db.counts == db.counts &&
      (req.playerId.Some? && !HasPlayerId(db.players, req.playerId.value) ==> r == Reply(db, NotFound))
  {
  }

  /** Editing row `k`'s player removes exactly that row and, when every new
      detail is given and the write succeeds, appends one row under the new
      id; when a detail is missing or the write fails, the player is gone. */
  lemma EditReplacesPlayer(db: Db, req: EditRequest, newId: string, writeFails: bool, k: nat)
    requires UniqueIds(db) && k < |db.players| && req.playerId == Some(db.players[k].id)
    ensures var r := EditPlayerSpec(db, req, newId, writeFails);
      var rest := db.players[..k] + db.players[k + 1..];
      var given := req.teamUniversity.Some? && req.sport.Some? && req.name.Some? && req.playerUniversity.Some?;
      (given && !writeFails ==>
         r == Reply(db.(players := rest + [Player(newId, req.sport.value, req.teamUniversity.value, req.name.value,
                                                 req.playerUniversity.value)]), Ok({}))) &&
      (!given ==> r == Reply(db.(players := rest), BadRequest)) &&
      (given && writeFails ==> r == Reply(db.(players := rest), ServerError(RewritePlayer)))
  {
    WithoutPlayerAt(db.players, k);
    assert HasPlayerId(db.players, db.players[k].id);
  }

  /** With a new id, editing keeps ids primary keys. */
  lemma EditKeepsIdsUnique(db: Db, req: EditRequest, newId: string, writeFails: bool)
    requires UniqueIds(db) && !HasPlayerId(db.players, newId)
    ensures UniqueIds(EditPlayerSpec(db, req, newId, writeFails).db)
  {
    if req.playerId.Some? && HasPlayerId(db.players, req.playerId.value) {
      var k := FirstPlayerIndex(db.players, req.playerId.value);
      var rest := db.players[..k] + db.players[k + 1..];
      WithoutPlayerAt(db.players, k);
      DistinctPlayerRemove(db.players, k);
      var r := EditPlayerSpec(db, req, newId, writeFails);
      if |r.db.players| > |rest| {
        var q := r.db.players[|rest|];
        assert r.db.players == rest + [q] && q.id == newId;
        assert !HasPlayerId(rest, newId) by {
          forall j | 0 <= j < |rest| ensures rest[j].id != newId {
            assert rest[j] == db.players[if j < k then j else j + 1];
          }
        }
        DistinctPlayerAppend(rest, q);
      }
    }
  }

  /** Editing writes no sub-roster row: moving a player to a team under which
      their university has no row leaves that player uncovered. */
  lemma EditUncoversRoster(db: Db, req: EditRequest, newId: string, k: nat)
    requires UniqueIds(db) && k < |db.players| && req.playerId == Some(db.players[k].id)
    requires req.teamUniversity.Some? && req.sport.Some? && req.name.Some? && req.playerUniversity.Some?
    requires !HasSubRoster(db.teams, req.sport.value, req.teamUniversity.value, req.playerUniversity.value)
    ensures !RostersCovered(EditPlayerSpec(db, req, newId, false).db)
  {
    EditReplacesPlayer(db, req, newId, false, k);
    EditFrame(db, req, newId, false);
    var r := EditPlayerSpec(db, req, newId, false);
    var last := |r.db.players| - 1;
    assert r.db.players[last].playerUniversity == req.playerUniversity.value;
  }

  /** Editing writes no sub-roster row, so it can move a player to a team
      under which their university has none. */
  lemma EditCanUncoverRoster()
    ensures
      var db := Db([Player("p1", "Football", "KCL", "Ann", "KCL")],
                   [Team("t1", "Football", "KCL", "Ann Lee", "ann@kcl", "KCL")], map[]);
      var req := EditRequest(Some("p1"), Some("KCL"), Some("Football"), Some("Ann"), Some("UCL"));
      RostersCovered(db) && !RostersCovered(EditPlayerSpec(db, req, "p2", false).db)
  {
    var db := Db([Player("p1", "Football", "KCL", "Ann", "KCL")],
                 [Team("t1", "Football", "KCL", "Ann Lee", "ann@kcl", "KCL")], map[]);
    assert HasSubRoster(db.teams, "Football", "KCL", "KCL") by {
      assert db.teams[0].university == "KCL";
    }
    var req := EditRequest(Some("p1"), Some("KCL"), Some("Football"), Some("Ann"), Some("UCL"));
    EditReplacesPlayer(db, req, "p2", false, 0);
    var r := EditPlayerSpec(db, req, "p2", false);
    assert r.db.players == [Player("p2", "Football", "KCL", "Ann", "UCL")];
    EditFrame(db, req, "p2", false);
    assert r.db.teams == db.teams;
    assert !HasSubRoster(r.db.teams, "Football", "KCL", "UCL") by {
      forall i | 0 <= i < |r.db.teams| ensures r.db.teams[i].university != "UCL" {
        assert r.db.teams[i].university == "KCL";
        assert "KCL"[0] != "UCL"[0];
      }
    }
    assert RostersCovered(db);
    assert !RostersCovered(r.db) by {
      assert r.db.players[0].playerUniversity == "UCL";
    }
  }
}
