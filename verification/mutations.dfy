/** The three roster handlers as functions from the store to the store and an
    outcome: registering a team's players, deleting a player and editing a
    player. Each is a sequence of table writes that stops at the first step
    that fails, without undoing the earlier ones. */
module Mutations {
  import opened Wrappers
  import opened Roster

  /** The keys of the `details` progress map. */
  datatype Flag =
    | WillCreateTeam | DidCreateTeam | WillUpdateTeamCount | DidUpdateTeamCount
    | WillDeletePlayer | DidDeletePlayer | LastPlayerOnTeam | WillDeleteTeam | DidDeleteTeam

  /** A store call guarded by `try`/`except`; a step in the
      fault set is one whose call raises. */
  datatype Step =
    | ReadCount                    // reading the sport's SportCount row
    | WriteTeam                    // writing the team's founding row
    | IncrementCount               // raising team_count
    | WriteAlliedTeam(k: nat)      // writing the sub-roster row for the k-th player
    | WritePlayer(k: nat)          // writing the k-th player
    | RewritePlayer                // writing the edited player in `edit_player`

  /** The flags of a deletion that leaves the team with players. */
  const PlayerDeleted: set<Flag> := {WillDeletePlayer, DidDeletePlayer}

  /** The flags of a deletion that also removes the team. */
  const TeamDeleted: set<Flag> :=
    {WillDeletePlayer, DidDeletePlayer, LastPlayerOnTeam, WillDeleteTeam, DidDeleteTeam, WillUpdateTeamCount, DidUpdateTeamCount}

  /** What a handler answers. */
  datatype Outcome =
    | Ok(details: set<Flag>)       // 200, with the progress flags
    | TeamsFull                    // 200, "already has the maximum number of teams"
    | BadRequest                   // 400, a parameter is missing
    | ServerError(step: Step)      // 500, a guarded store call raised
    | NotFound                     // 200, "Cannot find player in the player table."
    | Crashed                      // an exception nothing catches

  /** The store after a handler, and its answer. */
  datatype Reply = Reply(db: Db, outcome: Outcome)

  /** Part way through a handler: carry on with this store and these flags, or stop here. */
  datatype Stage = Continue(db: Db, details: set<Flag>) | Stop(db: Db, outcome: Outcome)

  /** One entry of the `players` list of an add request. */
  datatype PlayerArgs = PlayerArgs(name: Option<string>, playerUniversity: Option<string>)

  /** The captain fields read from the event's own `arguments` bag when a new sub-roster is needed. */
  datatype CaptainArgs = CaptainArgs(firstName: Option<string>, lastName: Option<string>, contact: Option<string>)

  /** The request of `add_player`; `None` is a parameter that is absent. */
  datatype AddRequest = AddRequest(
    teamUniversity: Option<string>,
    sport: Option<string>,
    captainName: Option<string>,
    captainContact: Option<string>,
    players: Option<seq<PlayerArgs>>,
    eventArguments: Option<CaptainArgs>)

  /** The ids `uuid4` hands out during one `add_player` call: one for a founding
      Team row, and for the k-th player one Player id and one sub-roster Team id. */
  datatype IdSupply = IdSupply(team: string, players: seq<string>, allied: seq<string>)

  /** The request of `edit_player`. */
  datatype EditRequest = EditRequest(
    playerId: Option<string>,
    teamUniversity: Option<string>,
    sport: Option<string>,
    name: Option<string>,
    playerUniversity: Option<string>)

  // ---------------------------------------------------------------------
  // Table reads and deletes

  /** The first row holding the player id. */
  function FirstPlayerIndex(players: seq<Player>, id: string): (i: nat)
    requires HasPlayerId(players, id)
    ensures i < |players| && players[i].id == id
    ensures forall j :: 0 <= j < i ==> players[j].id != id
  {
    if players[0].id == id then 0
    else
      assert HasPlayerId(players[1..], id) by {
        var k :| 0 <= k < |players| && players[k].id == id;
        assert players[1..][k - 1] == players[k];
      }
      1 + FirstPlayerIndex(players[1..], id)
  }

  /** The first Team row of `teamUniversity` in `sport`, as `.filter("sport", sport)[0]`
      on the team-university index. */
  function FirstTeamIndex(teams: seq<Team>, teamUniversity: string, sport: string): (i: nat)
    requires HasTeam(teams, teamUniversity, sport)
    ensures i < |teams| && teams[i].teamUniversity == teamUniversity && teams[i].sport == sport
    ensures forall j :: 0 <= j < i ==> !(teams[j].teamUniversity == teamUniversity && teams[j].sport == sport)
  {
    if teams[0].teamUniversity == teamUniversity && teams[0].sport == sport then 0
    else
      assert HasTeam(teams[1..], teamUniversity, sport) by {
        var k :| 0 <= k < |teams| && teams[k].teamUniversity == teamUniversity && teams[k].sport == sport;
        assert teams[1..][k - 1] == teams[k];
      }
      1 + FirstTeamIndex(teams[1..], teamUniversity, sport)
  }

  /** `delete("player_uuid", id)`: every row with the id goes, the others stay in order. */
  function WithoutPlayer(players: seq<Player>, id: string): (r: seq<Player>)
    ensures |r| <= |players|
  {
    if players == [] then []
    else (if players[0].id == id then [] else [players[0]]) + WithoutPlayer(players[1..], id)
  }

  /** The rows left are exactly the rows without the id. */
  lemma {:induction false} WithoutPlayerMembers(players: seq<Player>, id: string)
    ensures forall p :: p in WithoutPlayer(players, id) <==> p in players && p.id != id
  {
    if players != [] {
      WithoutPlayerMembers(players[1..], id);
      assert forall q :: q in players <==> q == players[0] || q in players[1..];
    }
  }

  /** `delete("team_uuid", id)`: every row with the id goes, the others stay in order. */
  function WithoutTeam(teams: seq<Team>, id: string): (r: seq<Team>)
    ensures |r| <= |teams|
  {
    if teams == [] then []
    else (if teams[0].id == id then [] else [teams[0]]) + WithoutTeam(teams[1..], id)
  }

  /** The rows left are exactly the rows without the id. */
  lemma {:induction false} WithoutTeamMembers(teams: seq<Team>, id: string)
    ensures forall t :: t in WithoutTeam(teams, id) <==> t in teams && t.id != id
  {
    if teams != [] {
      WithoutTeamMembers(teams[1..], id);
      assert forall q :: q in teams <==> q == teams[0] || q in teams[1..];
    }
  }

  /** The row belongs to the team of `teamUniversity` in `sport`. */
  predicate OfPair(t: Team, teamUniversity: string, sport: string)
  {
    t.teamUniversity == teamUniversity && t.sport == sport
  }

  /** Every Team row of the team deleted, the others kept in order. */
  function WithoutPair(teams: seq<Team>, teamUniversity: string, sport: string): (r: seq<Team>)
    ensures |r| <= |teams|
  {
    if teams == [] then []
    else (if OfPair(teams[0], teamUniversity, sport) then [] else [teams[0]]) + WithoutPair(teams[1..], teamUniversity, sport)
  }

  /** The rows left are exactly the rows of other teams, so the team has none. */
  lemma {:induction false} WithoutPairMembers(teams: seq<Team>, teamUniversity: string, sport: string)
    ensures forall t :: t in WithoutPair(teams, teamUniversity, sport) <==> t in teams && !OfPair(t, teamUniversity, sport)
    ensures !HasTeam(WithoutPair(teams, teamUniversity, sport), teamUniversity, sport)
  {
    if teams != [] {
      WithoutPairMembers(teams[1..], teamUniversity, sport);
      assert forall q :: q in teams <==> q == teams[0] || q in teams[1..];
    }
    var r := WithoutPair(teams, teamUniversity, sport);
    forall i | 0 <= i < |r| ensures !OfPair(r[i], teamUniversity, sport) {
      assert r[i] in r;
    }
  }

  /** Where ids are distinct, deleting row `k`'s id removes that row and nothing else. */
  lemma {:induction false} WithoutPlayerAt(players: seq<Player>, k: nat)
    requires DistinctPlayerIds(players) && k < |players|
    ensures WithoutPlayer(players, players[k].id) == players[..k] + players[k + 1..]
  {
    var id := players[k].id;
    if k == 0 {
      WithoutAbsentPlayer(players[1..], id);
    } else {
      assert players[0].id != id;
      assert DistinctPlayerIds(players[1..]) by {
        forall i, j | 0 <= i < j < |players[1..]| ensures players[1..][i].id != players[1..][j].id {
          assert players[1..][i] == players[i + 1] && players[1..][j] == players[j + 1];
        }
      }
      WithoutPlayerAt(players[1..], k - 1);
      assert players[1..][k - 1] == players[k];
      assert players[..k] == [players[0]] + players[1..][..k - 1];
      assert players[k + 1..] == players[1..][k..];
    }
  }

  lemma {:induction false} WithoutAbsentPlayer(players: seq<Player>, id: string)
    requires forall i :: 0 <= i < |players| ==> players[i].id != id
    ensures WithoutPlayer(players, id) == players
  {
    if players != [] {
      assert forall i :: 0 <= i < |players[1..]| ==> players[1..][i] == players[i + 1];
      WithoutAbsentPlayer(players[1..], id);
    }
  }

  /** Where ids are distinct, deleting row `k`'s id removes that row and nothing else. */
  lemma {:induction false} WithoutTeamAt(teams: seq<Team>, k: nat)
    requires DistinctTeamIds(teams) && k < |teams|
    ensures WithoutTeam(teams, teams[k].id) == teams[..k] + teams[k + 1..]
  {
    var id := teams[k].id;
    if k == 0 {
      WithoutAbsentTeam(teams[1..], id);
    } else {
      assert teams[0].id != id;
      assert DistinctTeamIds(teams[1..]) by {
        forall i, j | 0 <= i < j < |teams[1..]| ensures teams[1..][i].id != teams[1..][j].id {
          assert teams[1..][i] == teams[i + 1] && teams[1..][j] == teams[j + 1];
        }
      }
      WithoutTeamAt(teams[1..], k - 1);
      assert teams[1..][k - 1] == teams[k];
      assert teams[..k] == [teams[0]] + teams[1..][..k - 1];
      assert teams[k + 1..] == teams[1..][k..];
    }
  }

  lemma {:induction false} WithoutAbsentTeam(teams: seq<Team>, id: string)
    requires forall i :: 0 <= i < |teams| ==> teams[i].id != id
    ensures WithoutTeam(teams, id) == teams
  {
    if teams != [] {
      assert forall i :: 0 <= i < |teams[1..]| ==> teams[1..][i] == teams[i + 1];
      WithoutAbsentTeam(teams[1..], id);
    }
  }

  // ---------------------------------------------------------------------
  // add_player

  /** The event carries all three allied-captain fields. */
  predicate CaptainGiven(captain: Option<CaptainArgs>)
  {
    captain.Some? && captain.value.firstName.Some? && captain.value.lastName.Some? && captain.value.contact.Some?
  }

  /** The sub-roster row written for a player university new to the team;
      its captain is `" ".join([first, last])`. */
  function AlliedRow(id: string, sport: string, teamUniversity: string, university: string,
                     captain: Option<CaptainArgs>): Team
    requires CaptainGiven(captain)
  {
    Team(id, sport, teamUniversity,
         captain.value.firstName.value + " " + captain.value.lastName.value,
         captain.value.contact.value, university)
  }

  /** The supply has an id for every listed player. */
  predicate Covers(entries: seq<PlayerArgs>, ids: IdSupply)
  {
    |entries| <= |ids.players| && |entries| <= |ids.allied|
  }

  /** The supply has an id for every player the request lists. */
  predicate Supplied(req: AddRequest, ids: IdSupply)
  {
    req.players.Some? ==> Covers(req.players.value, ids)
  }

  /** The team's founding: read the sport's count, refuse a full sport, write
      the row whose own university is the team university, raise the count. */
  function Found(db: Db, teamUniversity: string, sport: string, req: AddRequest, teamId: string,
                 faults: set<Step>): Stage
  {
    if ReadCount in faults then Stop(db, ServerError(ReadCount))
    else if sport !in db.counts then Stop(db, Crashed)
    else
      var c := db.counts[sport];
      if c.teamCount >= c.maxTeams then Stop(db, TeamsFull)
      else if req.captainName.None? || req.captainContact.None? then Stop(db, BadRequest)
      else if WriteTeam in faults then Stop(db, ServerError(WriteTeam))
      else
        var founded := db.(teams := db.teams +
          [Team(teamId, sport, teamUniversity, req.captainName.value, req.captainContact.value, teamUniversity)]);
        if IncrementCount in faults then Stop(founded, ServerError(IncrementCount))
        else Continue(founded.(counts := db.counts[sport := SportCount(c.teamCount + 1, c.maxTeams)]),
                      {WillCreateTeam, DidCreateTeam, WillUpdateTeamCount, DidUpdateTeamCount})
  }

  /** One pass of the player loop: check the entry, write the sub-roster row
      if the player's university has none under this team, write the player. */
  function AddOne(db: Db, details: set<Flag>, teamUniversity: string, sport: string, args: PlayerArgs,
                  captain: Option<CaptainArgs>, k: nat, playerId: string, alliedId: string,
                  faults: set<Step>): Stage
  {
    if args.name.None? || args.playerUniversity.None? then Stop(db, BadRequest)
    else
      var university := args.playerUniversity.value;
      var needsRow := !HasSubRoster(db.teams, sport, teamUniversity, university);
      if needsRow && !CaptainGiven(captain) then Stop(db, BadRequest)
      else if needsRow && WriteAlliedTeam(k) in faults then Stop(db, ServerError(WriteAlliedTeam(k)))
      else
        var d := if needsRow then db.(teams := db.teams + [AlliedRow(alliedId, sport, teamUniversity, university, captain)])
                 else db;
        if WritePlayer(k) in faults then Stop(d, ServerError(WritePlayer(k)))
        else Continue(d.(players := d.players + [Player(playerId, sport, teamUniversity, args.name.value, university)]),
                      details)
  }

  /** The player loop from entry `k` on. */
  function AddFrom(db: Db, details: set<Flag>, teamUniversity: string, sport: string, entries: seq<PlayerArgs>,
                   k: nat, captain: Option<CaptainArgs>, ids: IdSupply, faults: set<Step>): Stage
    requires k <= |entries| && Covers(entries, ids)
    decreases |entries| - k
  {
    if k == |entries| then Continue(db, details)
    else
      match AddOne(db, details, teamUniversity, sport, entries[k], captain, k, ids.players[k], ids.allied[k], faults)
      case Stop(d, o) => Stop(d, o)
      case Continue(d, dt) => AddFrom(d, dt, teamUniversity, sport, entries, k + 1, captain, ids, faults)
  }

  /** The answer once the handler has run to its end. */
  function Finish(st: Stage): Reply
  {
    match st
    case Stop(d, o) => Reply(d, o)
    case Continue(d, details) => Reply(d, Ok(details))
  }

  /** `add_player`: found the team if it has no Team row in the sport, then
      register every listed player. */
  function AddPlayerSpec(db: Db, req: AddRequest, ids: IdSupply, faults: set<Step>): Reply
    requires Supplied(req, ids)
  {
    if req.teamUniversity.None? || req.sport.None? then Reply(db, BadRequest)
    else
      var tu, s := req.teamUniversity.value, req.sport.value;
      var founded := if HasTeam(db.teams, tu, s) then Continue(db, {}) else Found(db, tu, s, req, ids.team, faults);
      match founded
      case Stop(d, o) => Reply(d, o)
      case Continue(d, details) =>
        if req.players.None? then Reply(d, Crashed)
        else Finish(AddFrom(d, details, tu, s, req.players.value, 0, req.eventArguments, ids, faults))
  }

  // ---------------------------------------------------------------------
  // delete_player

  /** The three writes after the last player of a pair is gone, as written
      with the lookup reading the pair's Team rows: find the pair's first Team
      row, delete that row only, lower the count. */
  function RemoveFirstTeamRow(db: Db, teamUniversity: string, sport: string): Reply
  {
    if !HasTeam(db.teams, teamUniversity, sport) then Reply(db, Crashed)
    else
      var d := db.(teams := WithoutTeam(db.teams, db.teams[FirstTeamIndex(db.teams, teamUniversity, sport)].id));
      if sport !in db.counts then Reply(d, Crashed)
      else
        var c := db.counts[sport];
        Reply(d.(counts := db.counts[sport := SportCount(c.teamCount - 1, c.maxTeams)]),
              Ok(TeamDeleted))
  }

  /** The team removal once no player of the pair is left: the lookup raises
      when the team has no Team row; otherwise every Team row of the team,
      its own and its sub-rosters', is deleted and the count lowered. */
  function RemoveTeam(db: Db, teamUniversity: string, sport: string): Reply
  {
    if !HasTeam(db.teams, teamUniversity, sport) then Reply(db, Crashed)
    else
      var d := db.(teams := WithoutPair(db.teams, teamUniversity, sport));
      if sport !in db.counts then Reply(d, Crashed)
      else
        var c := db.counts[sport];
        Reply(d.(counts := db.counts[sport := SportCount(c.teamCount - 1, c.maxTeams)]),
              Ok(TeamDeleted))
  }

  /** `delete_player`, with the team lookup reading the pair's Team rows and
      the whole team removed with its last player. */
  function DeletePlayerSpec(db: Db, playerId: Option<string>): Reply
  {
    if playerId.None? then Reply(db, Crashed)
    else if !HasPlayerId(db.players, playerId.value) then Reply(db, NotFound)
    else
      var gone := db.players[FirstPlayerIndex(db.players, playerId.value)];
      var d := db.(players := WithoutPlayer(db.players, playerId.value));
      if HasPlayers(d.players, gone.teamUniversity, gone.sport) then Reply(d, Ok(PlayerDeleted))
      else RemoveTeam(d, gone.teamUniversity, gone.sport)
  }

  /** `delete_player` as written: the team lookup names a variable that is
      never assigned, so removing the last player of a pair raises right
      after the player row is deleted. */
  function DeletePlayerAsWritten(db: Db, playerId: Option<string>): Reply
  {
    if playerId.None? then Reply(db, Crashed)
    else if !HasPlayerId(db.players, playerId.value) then Reply(db, NotFound)
    else
      var gone := db.players[FirstPlayerIndex(db.players, playerId.value)];
      var d := db.(players := WithoutPlayer(db.players, playerId.value));
      if HasPlayers(d.players, gone.teamUniversity, gone.sport) then Reply(d, Ok(PlayerDeleted))
      else Reply(d, Crashed)
  }

  // ---------------------------------------------------------------------
  // edit_player

  /** `edit_player`: delete the old row, then write the new details under a new id. */
  function EditPlayerSpec(db: Db, req: EditRequest, newId: string, writeFails: bool): Reply
  {
    if req.playerId.None? then Reply(db, Crashed)
    else if !HasPlayerId(db.players, req.playerId.value) then Reply(db, NotFound)
    else
      var d := db.(players := WithoutPlayer(db.players, req.playerId.value));
      if req.teamUniversity.None? || req.sport.None? || req.name.None? || req.playerUniversity.None? then
        Reply(d, BadRequest)
      else if writeFails then Reply(d, ServerError(RewritePlayer))
      else
        Reply(d.(players := d.players +
                 [Player(newId, req.sport.value, req.teamUniversity.value, req.name.value, req.playerUniversity.value)]),
              Ok({}))
  }
}
