/** What `add_player` does to the store: the founding of a team is gated by
    the sport's quota and raises its count by one; every registered player
    ends up with a sub-roster row, written only when missing; and the store's
    invariants survive every outcome the handler can reach. */
module AddProperties {
  import opened Wrappers
  import opened Roster
  import opened Mutations
  import opened TableFacts

  // ---------------------------------------------------------------------
  // One pass of the player loop

  /** One pass leaves the counts alone, only appends rows, and every appended
      Team row is the sub-roster row of this team and sport under the given id. */
  lemma AddOneFrame(db: Db, details: set<Flag>, teamUniversity: string, sport: string, args: PlayerArgs,
                    captain: Option<CaptainArgs>, k: nat, playerId: string, alliedId: string, faults: set<Step>)
    ensures var st := AddOne(db, details, teamUniversity, sport, args, captain, k, playerId, alliedId, faults);
      st.db.counts == db.counts && db.teams <= st.db.teams && db.players <= st.db.players &&
      (forall j :: |db.teams| <= j < |st.db.teams| ==>
         st.db.teams[j].id == alliedId && st.db.teams[j].sport == sport && st.db.teams[j].teamUniversity == teamUniversity) &&
      (forall j :: |db.players| <= j < |st.db.players| ==> st.db.players[j].id == playerId) &&
      (st.Continue? ==> st.details == details) &&
      (st.Stop? ==> st.outcome.BadRequest? || st.outcome.ServerError?)
  {
  }

  /** A pass that goes through writes the player under the team and leaves a
      sub-roster row for the player's university; a Team row is written exactly
      when that university had none. */
  lemma AddOneMeaning(db: Db, details: set<Flag>, teamUniversity: string, sport: string, args: PlayerArgs,
                      captain: Option<CaptainArgs>, k: nat, playerId: string, alliedId: string, faults: set<Step>)
    ensures var st := AddOne(db, details, teamUniversity, sport, args, captain, k, playerId, alliedId, faults);
      st.Continue? ==>
        args.name.Some? && args.playerUniversity.Some? &&
        st.db.players == db.players + [Player(playerId, sport, teamUniversity, args.name.value, args.playerUniversity.value)] &&
        HasSubRoster(st.db.teams, sport, teamUniversity, args.playerUniversity.value) &&
        (HasSubRoster(db.teams, sport, teamUniversity, args.playerUniversity.value) <==> st.db.teams == db.teams) &&
        (!HasSubRoster(db.teams, sport, teamUniversity, args.playerUniversity.value) ==>
           |st.db.teams| == |db.teams| + 1 && st.db.teams[|db.teams|].university == args.playerUniversity.value)
  {
    var st := AddOne(db, details, teamUniversity, sport, args, captain, k, playerId, alliedId, faults);
    if st.Continue? {
      var u := args.playerUniversity.value;
      if !HasSubRoster(db.teams, sport, teamUniversity, u) {
        assert st.db.teams[|db.teams|].sport == sport;
      }
    }
  }

  // ---------------------------------------------------------------------
  // The player loop

  /** The loop leaves the counts alone, only appends rows, and every appended
      Team row is a sub-roster row of this team and sport with a supplied id. */
  lemma {:induction false} AddFromFrame(db: Db, details: set<Flag>, teamUniversity: string, sport: string,
                                       entries: seq<PlayerArgs>, k: nat, captain: Option<CaptainArgs>,
                                       ids: IdSupply, faults: set<Step>)
    requires k <= |entries| && Covers(entries, ids)
    ensures var st := AddFrom(db, details, teamUniversity, sport, entries, k, captain, ids, faults);
      st.db.counts == db.counts && db.teams <= st.db.teams && db.players <= st.db.players &&
      (forall j :: |db.teams| <= j < |st.db.teams| ==>
         st.db.teams[j].id in ids.allied && st.db.teams[j].sport == sport && st.db.teams[j].teamUniversity == teamUniversity) &&
      (st.Continue? ==> st.details == details) &&
      (st.Stop? ==> st.outcome.BadRequest? || st.outcome.ServerError?)
    decreases |entries| - k
  {
    if k < |entries| {
      var one := AddOne(db, details, teamUniversity, sport, entries[k], captain, k, ids.players[k], ids.allied[k], faults);
      AddOneFrame(db, details, teamUniversity, sport, entries[k], captain, k, ids.players[k], ids.allied[k], faults);
      if one.Continue? {
        AddFromFrame(one.db, one.details, teamUniversity, sport, entries, k + 1, captain, ids, faults);
        var st := AddFrom(one.db, one.details, teamUniversity, sport, entries, k + 1, captain, ids, faults);
        forall j | |db.teams| <= j < |st.db.teams|
          ensures st.db.teams[j].id in ids.allied && st.db.teams[j].sport == sport && st.db.teams[j].teamUniversity == teamUniversity
        {
          if j < |one.db.teams| {
            assert st.db.teams[j] == one.db.teams[j];
          }
        }
      }
    }
  }

  /** When the loop runs to its end, entry `m` became the player row
      `|db.players| + m - k`, under the m-th supplied id, with its sub-roster row. */
  lemma {:induction false} AddFromWrites(db: Db, details: set<Flag>, teamUniversity: string, sport: string,
                                        entries: seq<PlayerArgs>, k: nat, captain: Option<CaptainArgs>,
                                        ids: IdSupply, faults: set<Step>)
    requires k <= |entries| && Covers(entries, ids)
    ensures var st := AddFrom(db, details, teamUniversity, sport, entries, k, captain, ids, faults);
      st.Continue? ==>
        |st.db.players| == |db.players| + |entries| - k &&
        forall m :: k <= m < |entries| ==>
          entries[m].name.Some? && entries[m].playerUniversity.Some? &&
          st.db.players[|db.players| + m - k] ==
            Player(ids.players[m], sport, teamUniversity, entries[m].name.value, entries[m].playerUniversity.value) &&
          HasSubRoster(st.db.teams, sport, teamUniversity, entries[m].playerUniversity.value)
    decreases |entries| - k
  {
    if k < |entries| {
      var one := AddOne(db, details, teamUniversity, sport, entries[k], captain, k, ids.players[k], ids.allied[k], faults);
      AddOneMeaning(db, details, teamUniversity, sport, entries[k], captain, k, ids.players[k], ids.allied[k], faults);
      if one.Continue? {
        AddFromWrites(one.db, one.details, teamUniversity, sport, entries, k + 1, captain, ids, faults);
        AddFromFrame(one.db, one.details, teamUniversity, sport, entries, k + 1, captain, ids, faults);
        var st := AddFrom(one.db, one.details, teamUniversity, sport, entries, k + 1, captain, ids, faults);
        if st.Continue? {
          assert st.db.players[|db.players|] == one.db.players[|db.players|];
          SubRosterGrows(one.db.teams, st.db.teams, sport, teamUniversity, entries[k].playerUniversity.value);
        }
      }
    }
  }

  /** The loop keeps every player's sub-roster row in place, whatever step it stops at. */
  lemma {:induction false} AddFromKeepsCovered(db: Db, details: set<Flag>, teamUniversity: string, sport: string,
                                              entries: seq<PlayerArgs>, k: nat, captain: Option<CaptainArgs>,
                                              ids: IdSupply, faults: set<Step>)
    requires k <= |entries| && Covers(entries, ids)
    requires RostersCovered(db)
    ensures RostersCovered(AddFrom(db, details, teamUniversity, sport, entries, k, captain, ids, faults).db)
    decreases |entries| - k
  {
    if k < |entries| {
      var one := AddOne(db, details, teamUniversity, sport, entries[k], captain, k, ids.players[k], ids.allied[k], faults);
      AddOneFrame(db, details, teamUniversity, sport, entries[k], captain, k, ids.players[k], ids.allied[k], faults);
      AddOneMeaning(db, details, teamUniversity, sport, entries[k], captain, k, ids.players[k], ids.allied[k], faults);
      forall i | 0 <= i < |one.db.players|
        ensures HasSubRoster(one.db.teams, one.db.players[i].sport, one.db.players[i].teamUniversity,
                             one.db.players[i].playerUniversity)
      {
        if i < |db.players| {
          assert one.db.players[i] == db.players[i];
          SubRosterGrows(db.teams, one.db.teams, db.players[i].sport, db.players[i].teamUniversity,
                         db.players[i].playerUniversity);
        }
      }
      if one.Continue? {
        AddFromKeepsCovered(one.db, one.details, teamUniversity, sport, entries, k + 1, captain, ids, faults);
      }
    }
  }

  /** Once the team has a Team row in the sport, the loop's sub-roster rows
      field no new university, so the counts stay consistent. */
  lemma {:induction false} AddFromKeepsCounts(db: Db, details: set<Flag>, teamUniversity: string, sport: string,
                                             entries: seq<PlayerArgs>, k: nat, captain: Option<CaptainArgs>,
                                             ids: IdSupply, faults: set<Step>)
    requires k <= |entries| && Covers(entries, ids)
    requires CountsConsistent(db) && HasTeam(db.teams, teamUniversity, sport)
    ensures CountsConsistent(AddFrom(db, details, teamUniversity, sport, entries, k, captain, ids, faults).db)
    decreases |entries| - k
  {
    if k < |entries| {
      var one := AddOne(db, details, teamUniversity, sport, entries[k], captain, k, ids.players[k], ids.allied[k], faults);
      AddOneFrame(db, details, teamUniversity, sport, entries[k], captain, k, ids.players[k], ids.allied[k], faults);
      if |one.db.teams| > |db.teams| {
        var t := one.db.teams[|db.teams|];
        assert one.db.teams == db.teams + [t];
        assert t.sport == sport && t.teamUniversity == teamUniversity;
        FieldedIffHasTeam(db.teams, teamUniversity, sport);
        forall s | s in one.db.counts
          ensures one.db.counts[s].teamCount == |FieldedUniversities(one.db.teams, s)|
        {
          FieldedAppend(db.teams, t, s);
          if s == sport {
            assert FieldedUniversities(db.teams, s) + {teamUniversity} == FieldedUniversities(db.teams, s);
          }
        }
      }
      HasTeamGrows(db.teams, one.db.teams, teamUniversity, sport);
      if one.Continue? {
        AddFromKeepsCounts(one.db, one.details, teamUniversity, sport, entries, k + 1, captain, ids, faults);
      }
    }
  }

  /** The supplied ids from entry `k` on are new to the tables and distinct. */
  predicate FreshFrom(db: Db, ids: IdSupply, k: nat)
  {
    (forall j :: k <= j < |ids.allied| ==> !HasTeamId(db.teams, ids.allied[j])) &&
    (forall j :: k <= j < |ids.players| ==> !HasPlayerId(db.players, ids.players[j])) &&
    (forall i, j :: 0 <= i < j < |ids.allied| ==> ids.allied[i] != ids.allied[j]) &&
    (forall i, j :: 0 <= i < j < |ids.players| ==> ids.players[i] != ids.players[j])
  }

  /** With fresh ids the loop keeps every id a primary key. */
  lemma {:induction false} AddFromKeepsIdsUnique(db: Db, details: set<Flag>, teamUniversity: string, sport: string,
                                                entries: seq<PlayerArgs>, k: nat, captain: Option<CaptainArgs>,
                                                ids: IdSupply, faults: set<Step>)
    requires k <= |entries| && Covers(entries, ids)
    requires UniqueIds(db) && FreshFrom(db, ids, k)
    ensures UniqueIds(AddFrom(db, details, teamUniversity, sport, entries, k, captain, ids, faults).db)
    decreases |entries| - k
  {
    if k < |entries| {
      var one := AddOne(db, details, teamUniversity, sport, entries[k], captain, k, ids.players[k], ids.allied[k], faults);
      AddOneFrame(db, details, teamUniversity, sport, entries[k], captain, k, ids.players[k], ids.allied[k], faults);
      if |one.db.teams| > |db.teams| {
        var t := one.db.teams[|db.teams|];
        assert one.db.teams == db.teams + [t];
        DistinctTeamAppend(db.teams, t);
        forall j | k + 1 <= j < |ids.allied| ensures !HasTeamId(one.db.teams, ids.allied[j]) {
          TeamIdAppend(db.teams, t, ids.allied[j]);
        }
      }
      if |one.db.players| > |db.players| {
        var p := one.db.players[|db.players|];
        assert one.db.players == db.players + [p];
        DistinctPlayerAppend(db.players, p);
        forall j | k + 1 <= j < |ids.players| ensures !HasPlayerId(one.db.players, ids.players[j]) {
          PlayerIdAppend(db.players, p, ids.players[j]);
        }
      }
      if one.Continue? {
        AddFromKeepsIdsUnique(one.db, one.details, teamUniversity, sport, entries, k + 1, captain, ids, faults);
      }
    }
  }

  // ---------------------------------------------------------------------
  // The whole handler

  /** The founding is gated on the team having no Team row in the sport: with
      one, the counts are untouched and no founding row is written; without one,
      a full sport is refused with no write at all, and a registration that
      succeeds wrote exactly one founding row and raised the count by one. */
  lemma TeamCreationGated(db: Db, req: AddRequest, ids: IdSupply, faults: set<Step>)
    requires Supplied(req, ids)
    requires req.teamUniversity.Some? && req.sport.Some?
    ensures var r := AddPlayerSpec(db, req, ids, faults);
      var tu, s := req.teamUniversity.value, req.sport.value;
      db.teams <= r.db.teams && db.players <= r.db.players &&
      (HasTeam(db.teams, tu, s) ==>
         r.db.counts == db.counts &&
         forall j :: |db.teams| <= j < |r.db.teams| ==> r.db.teams[j].id in ids.allied) &&
      (!HasTeam(db.teams, tu, s) && ReadCount !in faults && s in db.counts &&
       db.counts[s].teamCount >= db.counts[s].maxTeams ==>
         r == Reply(db, TeamsFull)) &&
      (!HasTeam(db.teams, tu, s) && r.outcome.Ok? ==>
         s in db.counts && db.counts[s].teamCount < db.counts[s].maxTeams &&
         req.captainName.Some? && req.captainContact.Some? &&
         |r.db.teams| > |db.teams| &&
         r.db.teams[|db.teams|] == Team(ids.team, s, tu, req.captainName.value, req.captainContact.value, tu) &&
         (forall j :: |db.teams| < j < |r.db.teams| ==> r.db.teams[j].id in ids.allied) &&
         r.db.counts == db.counts[s := SportCount(db.counts[s].teamCount + 1, db.counts[s].maxTeams)] &&
         r.outcome.details == {WillCreateTeam, DidCreateTeam, WillUpdateTeamCount, DidUpdateTeamCount})
  {
    var tu, s := req.teamUniversity.value, req.sport.value;
    var founded := if HasTeam(db.teams, tu, s) then Continue(db, {}) else Found(db, tu, s, req, ids.team, faults);
    if founded.Continue? && req.players.Some? {
      AddFromFrame(founded.db, founded.details, tu, s, req.players.value, 0, req.eventArguments, ids, faults);
      var st := AddFrom(founded.db, founded.details, tu, s, req.players.value, 0, req.eventArguments, ids, faults);
      assert AddPlayerSpec(db, req, ids, faults) == Finish(st);
      if !HasTeam(db.teams, tu, s) {
        assert st.db.teams[|db.teams|] == founded.db.teams[|db.teams|];
        forall j | |db.teams| < j < |st.db.teams| ensures st.db.teams[j].id in ids.allied {
          assert |db.teams| + 1 == |founded.db.teams| <= j;
        }
      }
    }
  }

  /** A registration that succeeds wrote every listed player, in order, under
      the team university and sport, and each has a sub-roster row. */
  lemma PlayersRegistered(db: Db, req: AddRequest, ids: IdSupply, faults: set<Step>)
    requires Supplied(req, ids)
    ensures var r := AddPlayerSpec(db, req, ids, faults);
      r.outcome.Ok? ==>
        req.teamUniversity.Some? && req.sport.Some? && req.players.Some? &&
        var tu, s, entries := req.teamUniversity.value, req.sport.value, req.players.value;
        |r.db.players| == |db.players| + |entries| && db.players <= r.db.players &&
        forall m :: 0 <= m < |entries| ==>
          entries[m].name.Some? && entries[m].playerUniversity.Some? &&
          r.db.players[|db.players| + m] ==
            Player(ids.players[m], s, tu, entries[m].name.value, entries[m].playerUniversity.value) &&
          HasSubRoster(r.db.teams, s, tu, entries[m].playerUniversity.value)
  {
    if req.teamUniversity.Some? && req.sport.Some? && req.players.Some? {
      var tu, s := req.teamUniversity.value, req.sport.value;
      var founded := if HasTeam(db.teams, tu, s) then Continue(db, {}) else Found(db, tu, s, req, ids.team, faults);
      if founded.Continue? {
        AddFromWrites(founded.db, founded.details, tu, s, req.players.value, 0, req.eventArguments, ids, faults);
        AddFromFrame(founded.db, founded.details, tu, s, req.players.value, 0, req.eventArguments, ids, faults);
        var st := AddFrom(founded.db, founded.details, tu, s, req.players.value, 0, req.eventArguments, ids, faults);
        assert AddPlayerSpec(db, req, ids, faults) == Finish(st);
        assert founded.db.players == db.players;
      }
    }
  }

  /** Whatever step the handler stops at, every player keeps a sub-roster row. */
  lemma AddKeepsRostersCovered(db: Db, req: AddRequest, ids: IdSupply, faults: set<Step>)
    requires Supplied(req, ids) && RostersCovered(db)
    ensures RostersCovered(AddPlayerSpec(db, req, ids, faults).db)
  {
    if req.teamUniversity.Some? && req.sport.Some? {
      var tu, s := req.teamUniversity.value, req.sport.value;
      var founded := if HasTeam(db.teams, tu, s) then Continue(db, {}) else Found(db, tu, s, req, ids.team, faults);
      if founded.db.teams != db.teams {
        forall i | 0 <= i < |db.players|
          ensures HasSubRoster(founded.db.teams, db.players[i].sport, db.players[i].teamUniversity,
                               db.players[i].playerUniversity)
        {
          SubRosterGrows(db.teams, founded.db.teams, db.players[i].sport, db.players[i].teamUniversity,
                         db.players[i].playerUniversity);
        }
      }
      if founded.Continue? && req.players.Some? {
        AddFromKeepsCovered(founded.db, founded.details, tu, s, req.players.value, 0, req.eventArguments, ids, faults);
      }
    }
  }

  /** Founding a team fields its university in the sport and raises that
      sport's count by one, so counts stay consistent; every stop before the
      increment leaves the store as it was. */
  lemma FoundKeepsCounts(db: Db, teamUniversity: string, sport: string, req: AddRequest, teamId: string,
                         faults: set<Step>)
    requires CountsConsistent(db) && !HasTeam(db.teams, teamUniversity, sport)
    ensures var st := Found(db, teamUniversity, sport, req, teamId, faults);
      (st.Continue? ==> CountsConsistent(st.db) && HasTeam(st.db.teams, teamUniversity, sport)) &&
      (st.Stop? && st.outcome != ServerError(IncrementCount) ==> st.db == db)
  {
    var st := Found(db, teamUniversity, sport, req, teamId, faults);
    if st.Continue? {
      var t := Team(teamId, sport, teamUniversity, req.captainName.value, req.captainContact.value, teamUniversity);
      assert st.db.teams == db.teams + [t];
      FieldedIffHasTeam(db.teams, teamUniversity, sport);
      forall s' | s' in st.db.counts
        ensures st.db.counts[s'].teamCount == |FieldedUniversities(st.db.teams, s')|
      {
        FieldedAppend(db.teams, t, s');
      }
      assert HasTeam(st.db.teams, teamUniversity, sport) by {
        assert st.db.teams[|db.teams|] == t;
      }
    }
  }

  /** Unless the count increment is the step that fails, each sport's count
      still equals the number of team universities with a Team row in it. */
  lemma AddKeepsCountsConsistent(db: Db, req: AddRequest, ids: IdSupply, faults: set<Step>)
    requires Supplied(req, ids) && CountsConsistent(db)
    ensures var r := AddPlayerSpec(db, req, ids, faults);
      r.outcome != ServerError(IncrementCount) ==> CountsConsistent(r.db)
  {
    if req.teamUniversity.Some? && req.sport.Some? {
      var tu, s := req.teamUniversity.value, req.sport.value;
      var founded := if HasTeam(db.teams, tu, s) then Continue(db, {}) else Found(db, tu, s, req, ids.team, faults);
      if !HasTeam(db.teams, tu, s) {
        FoundKeepsCounts(db, tu, s, req, ids.team, faults);
      }
      if founded.Continue? && req.players.Some? {
        AddFromKeepsCounts(founded.db, founded.details, tu, s, req.players.value, 0, req.eventArguments, ids, faults);
      }
    }
  }

  /** The supply's ids are new to the tables and pairwise distinct. */
  predicate FreshSupply(db: Db, ids: IdSupply)
  {
    !HasTeamId(db.teams, ids.team) &&
    (forall j :: 0 <= j < |ids.allied| ==> ids.allied[j] != ids.team) &&
    FreshFrom(db, ids, 0)
  }

  /** With ids `uuid4` has not handed out before, ids stay primary keys. */
  lemma AddKeepsIdsUnique(db: Db, req: AddRequest, ids: IdSupply, faults: set<Step>)
    requires Supplied(req, ids) && UniqueIds(db) && FreshSupply(db, ids)
    ensures UniqueIds(AddPlayerSpec(db, req, ids, faults).db)
  {
    if req.teamUniversity.Some? && req.sport.Some? {
      var tu, s := req.teamUniversity.value, req.sport.value;
      var founded := if HasTeam(db.teams, tu, s) then Continue(db, {}) else Found(db, tu, s, req, ids.team, faults);
      if founded.db.teams != db.teams {
        var t := founded.db.teams[|db.teams|];
        assert founded.db.teams == db.teams + [t] && t.id == ids.team;
        DistinctTeamAppend(db.teams, t);
        forall j | 0 <= j < |ids.allied| ensures !HasTeamId(founded.db.teams, ids.allied[j]) {
          TeamIdAppend(db.teams, t, ids.allied[j]);
        }
      }
      if founded.Continue? && req.players.Some? {
        AddFromKeepsIdsUnique(founded.db, founded.details, tu, s, req.players.value, 0, req.eventArguments, ids, faults);
      }
    }
  }
}
