/** The three tables of the tournament store, as rows in scan order, and
    the reads the handlers make of them. */
module Roster {

  /** A row of the Players table. */
  datatype Player = Player(
    id: string,                // player_uuid
    sport: string,
    teamUniversity: string,    // the university the player plays for
    name: string,
    playerUniversity: string)  // the player's own university

  /** A row of the Teams table: one sub-roster of a team, the players of
      `university` playing for `teamUniversity`. */
  datatype Team = Team(
    id: string,                // team_uuid
    sport: string,
    teamUniversity: string,
    captain: string,
    contact: string,
    university: string)

  /** A row of the SportCount table, keyed by the sport's name. */
  datatype SportCount = SportCount(teamCount: int, maxTeams: int)

  /** The whole store. */
  datatype Db = Db(players: seq<Player>, teams: seq<Team>, counts: map<string, SportCount>)

  /** The players registered for `sport` under `teamUniversity`, in table order
      (the secondary-index read on team_university filtered by sport). */
  function RosterOf(players: seq<Player>, teamUniversity: string, sport: string): (r: seq<Player>)
    ensures |r| <= |players|
    ensures forall p :: p in r <==> p in players && p.teamUniversity == teamUniversity && p.sport == sport
  {
    if players == [] then []
    else
      var rest := RosterOf(players[1..], teamUniversity, sport);
      var p := players[0];
      assert forall q :: q in players <==> q == p || q in players[1..];
      (if p.teamUniversity == teamUniversity && p.sport == sport then [p] else []) + rest
  }

  /** The players of `playerUniversity` registered for `sport`, under any team
      university, in table order. */
  function RegistrationsOf(players: seq<Player>, playerUniversity: string, sport: string): (r: seq<Player>)
    ensures |r| <= |players|
    ensures forall p :: p in r <==> p in players && p.playerUniversity == playerUniversity && p.sport == sport
  {
    if players == [] then []
    else
      var rest := RegistrationsOf(players[1..], playerUniversity, sport);
      var p := players[0];
      assert forall q :: q in players <==> q == p || q in players[1..];
      (if p.playerUniversity == playerUniversity && p.sport == sport then [p] else []) + rest
  }

  /** The team universities of a list of players, in order. */
  function TeamUniversities(players: seq<Player>): (r: seq<string>)
    ensures |r| == |players| && forall i :: 0 <= i < |players| ==> r[i] == players[i].teamUniversity
  {
    if players == [] then [] else [players[0].teamUniversity] + TeamUniversities(players[1..])
  }

  /** The own universities of a list of players, in order. */
  function PlayerUniversities(players: seq<Player>): (r: seq<string>)
    ensures |r| == |players| && forall i :: 0 <= i < |players| ==> r[i] == players[i].playerUniversity
  {
    if players == [] then [] else [players[0].playerUniversity] + PlayerUniversities(players[1..])
  }

  /** Some Team row stands for `teamUniversity` in `sport`. */
  predicate HasTeam(teams: seq<Team>, teamUniversity: string, sport: string)
  {
    exists i :: 0 <= i < |teams| && teams[i].teamUniversity == teamUniversity && teams[i].sport == sport
  }

  /** The sub-roster of `university` under `teamUniversity` in `sport` has its Team row. */
  predicate HasSubRoster(teams: seq<Team>, sport: string, teamUniversity: string, university: string)
  {
    exists i :: 0 <= i < |teams| && teams[i].sport == sport &&
                teams[i].teamUniversity == teamUniversity && teams[i].university == university
  }

  /** Some player is registered for `sport` under `teamUniversity`. */
  predicate HasPlayers(players: seq<Player>, teamUniversity: string, sport: string)
  {
    exists i :: 0 <= i < |players| && players[i].teamUniversity == teamUniversity && players[i].sport == sport
  }

  /** Some player has this id. */
  predicate HasPlayerId(players: seq<Player>, id: string)
  {
    exists i :: 0 <= i < |players| && players[i].id == id
  }

  /** Some team has this id. */
  predicate HasTeamId(teams: seq<Team>, id: string)
  {
    exists i :: 0 <= i < |teams| && teams[i].id == id
  }

  /** Player ids are pairwise distinct. */
  predicate DistinctPlayerIds(players: seq<Player>)
  {
    forall i, j :: 0 <= i < j < |players| ==> players[i].id != players[j].id
  }

  /** Team ids are pairwise distinct. */
  predicate DistinctTeamIds(teams: seq<Team>)
  {
    forall i, j :: 0 <= i < j < |teams| ==> teams[i].id != teams[j].id
  }

  /** Ids are primary keys: no two rows of a table share one. */
  predicate UniqueIds(db: Db)
  {
    DistinctPlayerIds(db.players) && DistinctTeamIds(db.teams)
  }

  /** The distinct team universities that field a Team row in `sport`. */
  ghost function FieldedUniversities(teams: seq<Team>, sport: string): set<string>
  {
    set i | 0 <= i < |teams| && teams[i].sport == sport :: teams[i].teamUniversity
  }

  /** Each sport's team_count is the number of distinct team universities with
      a Team row in that sport. */
  ghost predicate CountsConsistent(db: Db)
  {
    forall s :: s in db.counts ==> db.counts[s].teamCount == |FieldedUniversities(db.teams, s)|
  }

  /** Every player's sub-roster has its Team row. */
  predicate RostersCovered(db: Db)
  {
    forall i :: 0 <= i < |db.players| ==>
      HasSubRoster(db.teams, db.players[i].sport, db.players[i].teamUniversity, db.players[i].playerUniversity)
  }
}
