/** The store the handlers write to, as an object with one field per table. */
module Stores {
  import opened Wrappers
  import opened Roster
  import opened Mutations

  class Store {
    var players: seq<Player>
    var teams: seq<Team>
    var counts: map<string, SportCount>

    /** The three tables as one value. */
    function Snapshot(): Db
      reads this
    {
      Db(players, teams, counts)
    }

    constructor (db: Db)
      ensures Snapshot() == db
    {
      players, teams, counts := db.players, db.teams, db.counts;
    }

    /** `add_player`, write by write. */
    method AddPlayer(req: AddRequest, ids: IdSupply, faults: set<Step>) returns (outcome: Outcome)
      requires Supplied(req, ids)
      modifies this
      ensures Reply(Snapshot(), outcome) == AddPlayerSpec(old(Snapshot()), req, ids, faults)
    {
      if req.teamUniversity.None? || req.sport.None? {
        return BadRequest;
      }
      var tu, s := req.teamUniversity.value, req.sport.value;
      ghost var founded := if HasTeam(teams, tu, s) then Continue(Snapshot(), {})
                           else Found(Snapshot(), tu, s, req, ids.team, faults);
      var details: set<Flag> := {};
      if !HasTeam(teams, tu, s) {
        if ReadCount in faults {
          return ServerError(ReadCount);
        }
        if s !in counts {
          return Crashed;
        }
        var c := counts[s];
        if c.teamCount >= c.maxTeams {
          return TeamsFull;
        }
        details := details + {WillCreateTeam};
        if req.captainName.None? || req.captainContact.None? {
          return BadRequest;
        }
        if WriteTeam in faults {
          return ServerError(WriteTeam);
        }
        teams := teams + [Team(ids.team, s, tu, req.captainName.value, req.captainContact.value, tu)];
        details := details + {DidCreateTeam, WillUpdateTeamCount};
        if IncrementCount in faults {
          return ServerError(IncrementCount);
        }
        counts := counts[s := SportCount(c.teamCount + 1, c.maxTeams)];
        details := details + {DidUpdateTeamCount};
      }
      if req.players.None? {
        return Crashed;
      }
      var entries := req.players.value;
      assert founded == Continue(Snapshot(), details);
      for k := 0 to |entries|
        invariant AddPlayerSpec(old(Snapshot()), req, ids, faults) ==
                  Finish(AddFrom(Snapshot(), details, tu, s, entries, k, req.eventArguments, ids, faults))
      {
        var args := entries[k];
        if args.name.None? || args.playerUniversity.None? {
          return BadRequest;
        }
        var university := args.playerUniversity.value;
        if !HasSubRoster(teams, s, tu, university) {
          if !CaptainGiven(req.eventArguments) {
            return BadRequest;
          }
          if WriteAlliedTeam(k) in faults {
            return ServerError(WriteAlliedTeam(k));
          }
          teams := teams + [AlliedRow(ids.allied[k], s, tu, university, req.eventArguments)];
        }
        if WritePlayer(k) in faults {
          return ServerError(WritePlayer(k));
        }
        players := players + [Player(ids.players[k], s, tu, args.name.value, university)];
      }
      outcome := Ok(details);
    }

    /** `delete_player`, with the team lookup reading the pair's Team rows. */
    method DeletePlayer(playerId: Option<string>) returns (outcome: Outcome)
      modifies this
      ensures Reply(Snapshot(), outcome) == DeletePlayerSpec(old(Snapshot()), playerId)
    {
      if playerId.None? {
        return Crashed;
      }
      var id := playerId.value;
      if !HasPlayerId(players, id) {
        return NotFound;
      }
      var gone := players[FirstPlayerIndex(players, id)];
      var details := {WillDeletePlayer};
      players := WithoutPlayer(players, id);
      details := details + {DidDeletePlayer};
      if HasPlayers(players, gone.teamUniversity, gone.sport) {
        assert details == PlayerDeleted;
        return Ok(details);
      }
      details := details + {LastPlayerOnTeam, WillDeleteTeam};
      if !HasTeam(teams, gone.teamUniversity, gone.sport) {
        return Crashed;
      }
      teams := WithoutPair(teams, gone.teamUniversity, gone.sport);
      details := details + {DidDeleteTeam, WillUpdateTeamCount};
      if gone.sport !in counts {
        return Crashed;
      }
      var c := counts[gone.sport];
      counts := counts[gone.sport := SportCount(c.teamCount - 1, c.maxTeams)];
      details := details + {DidUpdateTeamCount};
      assert details == TeamDeleted;
      outcome := Ok(details);
    }

    /** `edit_player`: the old row is deleted before the new details are read. */
    method EditPlayer(req: EditRequest, newId: string, writeFails: bool) returns (outcome: Outcome)
      modifies this
      ensures Reply(Snapshot(), outcome) == EditPlayerSpec(old(Snapshot()), req, newId, writeFails)
    {
      if req.playerId.None? {
        return Crashed;
      }
      if !HasPlayerId(players, req.playerId.value) {
        return NotFound;
      }
      players := WithoutPlayer(players, req.playerId.value);
      if req.teamUniversity.None? || req.sport.None? || req.name.None? || req.playerUniversity.None? {
        return BadRequest;
      }
      if writeFails {
        return ServerError(RewritePlayer);
      }
      players := players + [Player(newId, req.sport.value, req.teamUniversity.value, req.name.value,
                                   req.playerUniversity.value)];
      outcome := Ok({});
    }
  }
}
