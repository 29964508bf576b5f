/** How the table predicates behave when a row is appended or removed. */
module TableFacts {
  import opened Roster
  import opened Mutations

  /** A sub-roster row stays found when rows are appended. */
  lemma SubRosterGrows(a: seq<Team>, b: seq<Team>, sport: string, teamUniversity: string, university: string)
    requires a <= b && HasSubRoster(a, sport, teamUniversity, university)
    ensures HasSubRoster(b, sport, teamUniversity, university)
  {
    var i :| 0 <= i < |a| && a[i].sport == sport && a[i].teamUniversity == teamUniversity && a[i].university == university;
    assert b[i] == a[i];
  }

  /** A team's row stays found when rows are appended. */
  lemma HasTeamGrows(a: seq<Team>, b: seq<Team>, teamUniversity: string, sport: string)
    requires a <= b && HasTeam(a, teamUniversity, sport)
    ensures HasTeam(b, teamUniversity, sport)
  {
    var i :| 0 <= i < |a| && a[i].teamUniversity == teamUniversity && a[i].sport == sport;
    assert b[i] == a[i];
  }

  /** A university is fielded in a sport exactly when it has a Team row there. */
  lemma FieldedIffHasTeam(teams: seq<Team>, teamUniversity: string, sport: string)
    ensures teamUniversity in FieldedUniversities(teams, sport) <==> HasTeam(teams, teamUniversity, sport)
  {
    if HasTeam(teams, teamUniversity, sport) {
      var i :| 0 <= i < |teams| && teams[i].teamUniversity == teamUniversity && teams[i].sport == sport;
      assert teams[i].teamUniversity in FieldedUniversities(teams, sport);
    }
  }

  /** Appending a row fields its team university in its sport, and changes nothing else. */
  lemma FieldedAppend(teams: seq<Team>, t: Team, sport: string)
    ensures FieldedUniversities(teams + [t], sport) ==
      FieldedUniversities(teams, sport) + (if t.sport == sport then {t.teamUniversity} else {})
  {
    var grown := teams + [t];
    forall u | u in FieldedUniversities(grown, sport)
      ensures u in FieldedUniversities(teams, sport) || (t.sport == sport && u == t.teamUniversity)
    {
      var i :| 0 <= i < |grown| && grown[i].sport == sport && grown[i].teamUniversity == u;
      if i < |teams| {
        assert grown[i] == teams[i];
      }
    }
    forall u | u in FieldedUniversities(teams, sport) ensures u in FieldedUniversities(grown, sport) {
      var i :| 0 <= i < |teams| && teams[i].sport == sport && teams[i].teamUniversity == u;
      assert grown[i] == teams[i];
    }
    if t.sport == sport {
      assert grown[|teams|] == t;
    }
  }

  /** A university is fielded in a sport exactly when some row of that sport names it. */
  lemma FieldedMembers(teams: seq<Team>, sport: string, u: string)
    ensures u in FieldedUniversities(teams, sport) <==> exists t :: t in teams && t.sport == sport && t.teamUniversity == u
  {
    if u in FieldedUniversities(teams, sport) {
      var i :| 0 <= i < |teams| && teams[i].sport == sport && teams[i].teamUniversity == u;
      assert teams[i] in teams;
    }
    if exists t :: t in teams && t.sport == sport && t.teamUniversity == u {
      var t :| t in teams && t.sport == sport && t.teamUniversity == u;
      var i :| 0 <= i < |teams| && teams[i] == t;
      assert teams[i].teamUniversity in FieldedUniversities(teams, sport);
    }
  }

  /** Deleting a team's rows unfields its team university in its sport and
      leaves every other sport alone. */
  lemma FieldedWithoutPair(teams: seq<Team>, teamUniversity: string, sport: string, s: string)
    ensures FieldedUniversities(WithoutPair(teams, teamUniversity, sport), s) ==
      if s == sport then FieldedUniversities(teams, s) - {teamUniversity} else FieldedUniversities(teams, s)
  {
    var rest := WithoutPair(teams, teamUniversity, sport);
    WithoutPairMembers(teams, teamUniversity, sport);
    forall u
      ensures u in FieldedUniversities(rest, s) <==>
              u in (if s == sport then FieldedUniversities(teams, s) - {teamUniversity} else FieldedUniversities(teams, s))
    {
      FieldedMembers(rest, s, u);
      FieldedMembers(teams, s, u);
    }
  }

  /** Removing one row of a team that has another row changes no sport's
      fielded universities. */
  lemma FieldedKeptWithTwin(teams: seq<Team>, m: nat, j: nat)
    requires m < |teams| && j < |teams| && j != m
    requires teams[j].teamUniversity == teams[m].teamUniversity && teams[j].sport == teams[m].sport
    ensures FieldedUniversities(teams[..m] + teams[m + 1..], teams[m].sport) == FieldedUniversities(teams, teams[m].sport)
  {
    var rest := teams[..m] + teams[m + 1..];
    var sport := teams[m].sport;
    forall u | u in FieldedUniversities(rest, sport) ensures u in FieldedUniversities(teams, sport) {
      var k :| 0 <= k < |rest| && rest[k].sport == sport && rest[k].teamUniversity == u;
      assert rest[k] == teams[if k < m then k else k + 1];
    }
    forall u | u in FieldedUniversities(teams, sport) ensures u in FieldedUniversities(rest, sport) {
      var i :| 0 <= i < |teams| && teams[i].sport == sport && teams[i].teamUniversity == u;
      var i' := if i == m then j else i;
      var k := if i' < m then i' else i' - 1;
      assert rest[k] == teams[i'];
    }
  }

  /** A sub-roster row of another team survives the deletion of a team's rows. */
  lemma SubRosterWithoutPair(teams: seq<Team>, teamUniversity: string, sport: string,
                             otherSport: string, otherTeamUniversity: string, university: string)
    requires HasSubRoster(teams, otherSport, otherTeamUniversity, university)
    requires !(otherTeamUniversity == teamUniversity && otherSport == sport)
    ensures HasSubRoster(WithoutPair(teams, teamUniversity, sport), otherSport, otherTeamUniversity, university)
  {
    var rest := WithoutPair(teams, teamUniversity, sport);
    var i :| 0 <= i < |teams| && teams[i].sport == otherSport && teams[i].teamUniversity == otherTeamUniversity &&
             teams[i].university == university;
    WithoutPairMembers(teams, teamUniversity, sport);
    assert teams[i] in rest;
    var j :| 0 <= j < |rest| && rest[j] == teams[i];
  }

  /** An id is in a grown table when it was before or is the new row's. */
  lemma TeamIdAppend(teams: seq<Team>, t: Team, id: string)
    ensures HasTeamId(teams + [t], id) <==> HasTeamId(teams, id) || t.id == id
  {
    var grown := teams + [t];
    if HasTeamId(grown, id) {
      var i :| 0 <= i < |grown| && grown[i].id == id;
      if i < |teams| { assert teams[i] == grown[i]; }
    }
    if HasTeamId(teams, id) {
      var i :| 0 <= i < |teams| && teams[i].id == id;
      assert grown[i] == teams[i];
    }
    assert grown[|teams|] == t;
  }

  /** An id is in a grown table when it was before or is the new row's. */
  lemma PlayerIdAppend(players: seq<Player>, p: Player, id: string)
    ensures HasPlayerId(players + [p], id) <==> HasPlayerId(players, id) || p.id == id
  {
    var grown := players + [p];
    if HasPlayerId(grown, id) {
      var i :| 0 <= i < |grown| && grown[i].id == id;
      if i < |players| { assert players[i] == grown[i]; }
    }
    if HasPlayerId(players, id) {
      var i :| 0 <= i < |players| && players[i].id == id;
      assert grown[i] == players[i];
    }
    assert grown[|players|] == p;
  }

  /** Appending a row with a new id keeps ids distinct. */
  lemma DistinctTeamAppend(teams: seq<Team>, t: Team)
    requires DistinctTeamIds(teams) && !HasTeamId(teams, t.id)
    ensures DistinctTeamIds(teams + [t])
  {
    var grown := teams + [t];
    forall i, j | 0 <= i < j < |grown| ensures grown[i].id != grown[j].id {
      assert grown[i] == teams[i];
      if j < |teams| { assert grown[j] == teams[j]; }
    }
  }

  /** Appending a row with a new id keeps ids distinct. */
  lemma DistinctPlayerAppend(players: seq<Player>, p: Player)
    requires DistinctPlayerIds(players) && !HasPlayerId(players, p.id)
    ensures DistinctPlayerIds(players + [p])
  {
    var grown := players + [p];
    forall i, j | 0 <= i < j < |grown| ensures grown[i].id != grown[j].id {
      assert grown[i] == players[i];
      if j < |players| { assert grown[j] == players[j]; }
    }
  }

  /** Removing a row keeps ids distinct. */
  lemma DistinctPlayerRemove(players: seq<Player>, k: nat)
    requires DistinctPlayerIds(players) && k < |players|
    ensures DistinctPlayerIds(players[..k] + players[k + 1..])
  {
    var rest := players[..k] + players[k + 1..];
    assert forall j :: 0 <= j < |rest| ==> rest[j] == players[if j < k then j else j + 1];
  }

  /** Deleting a team's rows keeps ids distinct. */
  lemma {:induction false} DistinctWithoutPair(teams: seq<Team>, teamUniversity: string, sport: string)
    requires DistinctTeamIds(teams)
    ensures DistinctTeamIds(WithoutPair(teams, teamUniversity, sport))
  {
    if teams != [] {
      var tail := teams[1..];
      assert DistinctTeamIds(tail) by {
        forall i, j | 0 <= i < j < |tail| ensures tail[i].id != tail[j].id {
          assert tail[i] == teams[i + 1] && tail[j] == teams[j + 1];
        }
      }
      DistinctWithoutPair(tail, teamUniversity, sport);
      var rest := WithoutPair(tail, teamUniversity, sport);
      if !OfPair(teams[0], teamUniversity, sport) {
        var r := [teams[0]] + rest;
        assert r == WithoutPair(teams, teamUniversity, sport);
        WithoutPairMembers(tail, teamUniversity, sport);
        forall j | 0 < j < |r| ensures r[j].id != teams[0].id {
          assert r[j] == rest[j - 1] && rest[j - 1] in rest;
          var k :| 0 <= k < |tail| && tail[k] == r[j];
          assert tail[k] == teams[k + 1];
        }
        forall i, j | 0 <= i < j < |r| ensures r[i].id != r[j].id {
          if i > 0 {
            assert r[i] == rest[i - 1] && r[j] == rest[j - 1];
          }
        }
      } else {
        assert WithoutPair(teams, teamUniversity, sport) == rest;
      }
    }
  }
}
