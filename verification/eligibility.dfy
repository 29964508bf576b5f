/** The eligibility check run before a player is added, and the team-exists
    lookup. Three rules are tried in order and the first that fails decides:
    a team's first player comes from the team's own university; a university
    plays a sport for one team university only; a team draws on at most three
    universities. */
module Eligibility {
  import opened Roster
  import opened QueryResponses

  datatype Reason =
    | FirstPlayerNotFromTeam   // "First player must be from the university they're playing for."
    | AlreadyHasTeam           // "{player_uni} already has a team for {sport}."
    | PlaysForAnotherTeam      // "{player_uni} already playing for another team {sport}."
    | ThreeUniversities        // "{team_uni} {sport} team already has three universities."

  datatype Verdict = Eligible | Ineligible(reason: Reason)

  /** The distinct own universities of the players on a team's roster, in order
      of first registration. */
  function AlliedUniversities(players: seq<Player>, teamUniversity: string, sport: string): seq<string>
  {
    Dedup(PlayerUniversities(RosterOf(players, teamUniversity, sport)))
  }

  /** The distinct team universities a university's players play `sport` for,
      in order of first registration. */
  function TeamsPlayedFor(players: seq<Player>, playerUniversity: string, sport: string): seq<string>
  {
    Dedup(TeamUniversities(RegistrationsOf(players, playerUniversity, sport)))
  }

  /** `is_player_valid` with the "already has a team" branch reachable: the
      university's first team university is compared with its own name. */
  function IsPlayerValid(players: seq<Player>, teamUniversity: string, playerUniversity: string, sport: string): Verdict
  {
    if RosterOf(players, teamUniversity, sport) == [] && playerUniversity != teamUniversity then
      Ineligible(FirstPlayerNotFromTeam)
    else
      var similar := TeamsPlayedFor(players, playerUniversity, sport);
      if |similar| > 0 && similar[0] != teamUniversity then
        Ineligible(if similar[0] == playerUniversity then AlreadyHasTeam else PlaysForAnotherTeam)
      else
        var allied := AlliedUniversities(players, teamUniversity, sport);
        if playerUniversity !in allied && |allied| == 3 then Ineligible(ThreeUniversities) else Eligible
  }

  /** `is_player_valid` as written: its test of the whole list of team
      universities against the player's university is never true, so the
      exclusivity rule always reports "already playing for another team". */
  function IsPlayerValidAsWritten(players: seq<Player>, teamUniversity: string, playerUniversity: string, sport: string): Verdict
  {
    if RosterOf(players, teamUniversity, sport) == [] && playerUniversity != teamUniversity then
      Ineligible(FirstPlayerNotFromTeam)
    else
      var similar := TeamsPlayedFor(players, playerUniversity, sport);
      if |similar| > 0 && similar[0] != teamUniversity then
        Ineligible(PlaysForAnotherTeam)
      else
        var allied := AlliedUniversities(players, teamUniversity, sport);
        if playerUniversity !in allied && |allied| == 3 then Ineligible(ThreeUniversities) else Eligible
  }

  // ---------------------------------------------------------------------
  // The three rules, stated on the Players table directly

  /** Rule 1 fails: nobody plays `sport` for the team yet and the player is from elsewhere. */
  predicate FirstRuleFails(players: seq<Player>, teamUniversity: string, playerUniversity: string, sport: string)
  {
    !HasPlayers(players, teamUniversity, sport) && playerUniversity != teamUniversity
  }

  /** Row `i` is the first registration of `playerUniversity` for `sport`. */
  predicate FirstRegistrationAt(players: seq<Player>, playerUniversity: string, sport: string, i: int)
  {
    0 <= i < |players| && players[i].playerUniversity == playerUniversity && players[i].sport == sport &&
    forall j :: 0 <= j < i ==> !(players[j].playerUniversity == playerUniversity && players[j].sport == sport)
  }

  /** Rule 2 fails: the university's first registration for `sport` is under another team university. */
  ghost predicate ExclusiveRuleFails(players: seq<Player>, teamUniversity: string, playerUniversity: string, sport: string)
  {
    exists i :: FirstRegistrationAt(players, playerUniversity, sport, i) && players[i].teamUniversity != teamUniversity
  }

  /** The own universities of everyone playing `sport` for `teamUniversity`. */
  ghost function AlliedSet(players: seq<Player>, teamUniversity: string, sport: string): set<string>
  {
    set i | 0 <= i < |players| && players[i].teamUniversity == teamUniversity && players[i].sport == sport
      :: players[i].playerUniversity
  }

  /** Rule 3 fails: the player's university is new to a team that already has exactly three. */
  ghost predicate CapRuleFails(players: seq<Player>, teamUniversity: string, playerUniversity: string, sport: string)
  {
    playerUniversity !in AlliedSet(players, teamUniversity, sport) && |AlliedSet(players, teamUniversity, sport)| == 3
  }

  lemma RosterEmpty(players: seq<Player>, teamUniversity: string, sport: string)
    ensures RosterOf(players, teamUniversity, sport) == [] <==> !HasPlayers(players, teamUniversity, sport)
  {
    if HasPlayers(players, teamUniversity, sport) {
      var i :| 0 <= i < |players| && players[i].teamUniversity == teamUniversity && players[i].sport == sport;
      assert players[i] in RosterOf(players, teamUniversity, sport);
    }
  }

  /** The first element of `RegistrationsOf` is the first registration in the table. */
  lemma {:induction false} FirstRegistration(players: seq<Player>, playerUniversity: string, sport: string)
    ensures RegistrationsOf(players, playerUniversity, sport) == [] <==>
            forall i :: !FirstRegistrationAt(players, playerUniversity, sport, i)
    ensures RegistrationsOf(players, playerUniversity, sport) != [] ==>
            exists i :: FirstRegistrationAt(players, playerUniversity, sport, i) &&
                        RegistrationsOf(players, playerUniversity, sport)[0] == players[i]
  {
    if players != [] {
      FirstRegistration(players[1..], playerUniversity, sport);
      var p := players[0];
      if p.playerUniversity == playerUniversity && p.sport == sport {
        assert FirstRegistrationAt(players, playerUniversity, sport, 0);
      } else {
        forall i | FirstRegistrationAt(players, playerUniversity, sport, i)
          ensures FirstRegistrationAt(players[1..], playerUniversity, sport, i - 1)
        {
          forall j | 0 <= j < i - 1
            ensures !(players[1..][j].playerUniversity == playerUniversity && players[1..][j].sport == sport)
          {
            assert players[1..][j] == players[j + 1];
          }
        }
        if RegistrationsOf(players[1..], playerUniversity, sport) != [] {
          var i :| FirstRegistrationAt(players[1..], playerUniversity, sport, i) &&
                   RegistrationsOf(players[1..], playerUniversity, sport)[0] == players[1..][i];
          assert FirstRegistrationAt(players, playerUniversity, sport, i + 1) by {
            forall j | 0 <= j < i + 1
              ensures !(players[j].playerUniversity == playerUniversity && players[j].sport == sport)
            {
              if j > 0 { assert players[j] == players[1..][j - 1]; }
            }
          }
        }
      }
    }
  }

  /** Two first registrations are the same row. */
  lemma FirstRegistrationUnique(players: seq<Player>, playerUniversity: string, sport: string, i: int, j: int)
    requires FirstRegistrationAt(players, playerUniversity, sport, i)
    requires FirstRegistrationAt(players, playerUniversity, sport, j)
    ensures i == j
  {
  }

  /** The first of the de-duplicated values is the first value. */
  lemma DedupHead(s: seq<string>)
    requires s != []
    ensures Dedup(s) != [] && Dedup(s)[0] == s[0]
  {
    DedupGrowsByPrefix(s, 1);
    assert s[..1] == [s[0]];
    assert s[..1][..0] == [];
  }

  /** The de-duplicated allied list holds exactly the allied set. */
  lemma AlliedMatchesSet(players: seq<Player>, teamUniversity: string, sport: string)
    ensures (set v | v in AlliedUniversities(players, teamUniversity, sport)) == AlliedSet(players, teamUniversity, sport)
    ensures |AlliedUniversities(players, teamUniversity, sport)| == |AlliedSet(players, teamUniversity, sport)|
  {
    var roster := RosterOf(players, teamUniversity, sport);
    var unis := PlayerUniversities(roster);
    var allied := AlliedUniversities(players, teamUniversity, sport);
    var aset := AlliedSet(players, teamUniversity, sport);
    DedupMeaning(unis);
    forall v | v in allied ensures v in aset {
      var k :| 0 <= k < |unis| && unis[k] == v;
      assert roster[k] in roster;
      var i :| 0 <= i < |players| && players[i] == roster[k];
    }
    forall v | v in aset ensures v in allied {
      var i :| 0 <= i < |players| && players[i].teamUniversity == teamUniversity &&
               players[i].sport == sport && players[i].playerUniversity == v;
      assert players[i] in roster;
      var k :| 0 <= k < |roster| && roster[k] == players[i];
      assert unis[k] == v;
    }
    DedupLength(unis);
    assert (set v | v in allied) == (set v | v in unis);
  }

  /** The head of the team-university list is the team of the first registration. */
  lemma SimilarHead(players: seq<Player>, playerUniversity: string, sport: string)
    ensures |TeamsPlayedFor(players, playerUniversity, sport)| > 0 <==>
            exists i :: FirstRegistrationAt(players, playerUniversity, sport, i)
    ensures forall i :: FirstRegistrationAt(players, playerUniversity, sport, i) ==>
            |TeamsPlayedFor(players, playerUniversity, sport)| > 0 &&
            TeamsPlayedFor(players, playerUniversity, sport)[0] == players[i].teamUniversity
  {
    FirstRegistration(players, playerUniversity, sport);
    var regs := RegistrationsOf(players, playerUniversity, sport);
    if regs != [] {
      DedupHead(TeamUniversities(regs));
      var i :| FirstRegistrationAt(players, playerUniversity, sport, i) && regs[0] == players[i];
      forall j | FirstRegistrationAt(players, playerUniversity, sport, j) ensures j == i {
        FirstRegistrationUnique(players, playerUniversity, sport, i, j);
      }
    } else {
      assert TeamUniversities(regs) == [];
    }
  }

  /** Membership in, and the size of, the allied list are those of the allied set. */
  lemma AlliedFacts(players: seq<Player>, teamUniversity: string, playerUniversity: string, sport: string)
    ensures playerUniversity in AlliedUniversities(players, teamUniversity, sport) <==>
            playerUniversity in AlliedSet(players, teamUniversity, sport)
    ensures |AlliedUniversities(players, teamUniversity, sport)| == |AlliedSet(players, teamUniversity, sport)|
  {
    AlliedMatchesSet(players, teamUniversity, sport);
    var allied := AlliedUniversities(players, teamUniversity, sport);
    assert playerUniversity in allied <==> playerUniversity in (set v | v in allied);
  }

  /** The verdict, rule by rule: each rejection happens exactly when its rule
      fails and every earlier rule passes, and the player is eligible exactly
      when all three pass. */
  lemma VerdictMeaning(players: seq<Player>, teamUniversity: string, playerUniversity: string, sport: string)
    ensures IsPlayerValid(players, teamUniversity, playerUniversity, sport) == Ineligible(FirstPlayerNotFromTeam)
        <==> FirstRuleFails(players, teamUniversity, playerUniversity, sport)
    ensures IsPlayerValid(players, teamUniversity, playerUniversity, sport) in
              {Ineligible(AlreadyHasTeam), Ineligible(PlaysForAnotherTeam)}
        <==> !FirstRuleFails(players, teamUniversity, playerUniversity, sport) &&
             ExclusiveRuleFails(players, teamUniversity, playerUniversity, sport)
    ensures IsPlayerValid(players, teamUniversity, playerUniversity, sport) == Ineligible(AlreadyHasTeam)
        <==> !FirstRuleFails(players, teamUniversity, playerUniversity, sport) &&
             exists i :: FirstRegistrationAt(players, playerUniversity, sport, i) &&
                         players[i].teamUniversity != teamUniversity && players[i].teamUniversity == playerUniversity
    ensures IsPlayerValid(players, teamUniversity, playerUniversity, sport) == Ineligible(ThreeUniversities)
        <==> !FirstRuleFails(players, teamUniversity, playerUniversity, sport) &&
             !ExclusiveRuleFails(players, teamUniversity, playerUniversity, sport) &&
             CapRuleFails(players, teamUniversity, playerUniversity, sport)
    ensures IsPlayerValid(players, teamUniversity, playerUniversity, sport) == Eligible
        <==> !FirstRuleFails(players, teamUniversity, playerUniversity, sport) &&
             !ExclusiveRuleFails(players, teamUniversity, playerUniversity, sport) &&
             !CapRuleFails(players, teamUniversity, playerUniversity, sport)
  {
    var similar := TeamsPlayedFor(players, playerUniversity, sport);
    var allied := AlliedUniversities(players, teamUniversity, sport);
    var first := RosterOf(players, teamUniversity, sport) == [] && playerUniversity != teamUniversity;
    var exclusive := |similar| > 0 && similar[0] != teamUniversity;
    var own := exclusive && similar[0] == playerUniversity;
    var cap := playerUniversity !in allied && |allied| == 3;
    assert first == FirstRuleFails(players, teamUniversity, playerUniversity, sport) by {
      RosterEmpty(players, teamUniversity, sport);
    }
    assert exclusive == ExclusiveRuleFails(players, teamUniversity, playerUniversity, sport) &&
           own == exists i :: FirstRegistrationAt(players, playerUniversity, sport, i) &&
                              players[i].teamUniversity != teamUniversity && players[i].teamUniversity == playerUniversity
    by {
      SimilarHead(players, playerUniversity, sport);
    }
    assert cap == CapRuleFails(players, teamUniversity, playerUniversity, sport) by {
      AlliedFacts(players, teamUniversity, playerUniversity, sport);
    }
  }

  // ---------------------------------------------------------------------
  // What an eligible addition preserves

  /** A university plays each sport under one team university only. */
  predicate Exclusive(players: seq<Player>)
  {
    forall i, j ::
      (0 <= i < |players| && 0 <= j < |players| &&
       players[i].playerUniversity == players[j].playerUniversity && players[i].sport == players[j].sport) ==>
      players[i].teamUniversity == players[j].teamUniversity
  }

  /** Row `i`'s team has a player from its own university. */
  predicate FoundedAt(players: seq<Player>, i: int)
    requires 0 <= i < |players|
  {
    exists j :: 0 <= j < |players| && players[j].teamUniversity == players[i].teamUniversity &&
                players[j].sport == players[i].sport && players[j].playerUniversity == players[i].teamUniversity
  }

  /** Every team with a player has one from its own university. */
  predicate Founded(players: seq<Player>)
  {
    forall i :: 0 <= i < |players| ==> FoundedAt(players, i)
  }

  /** No team draws on more than three universities. */
  ghost predicate AtMostThree(players: seq<Player>)
  {
    forall i :: 0 <= i < |players| ==> |AlliedSet(players, players[i].teamUniversity, players[i].sport)| <= 3
  }

  lemma AlliedSetAppend(players: seq<Player>, p: Player, teamUniversity: string, sport: string)
    ensures AlliedSet(players + [p], teamUniversity, sport) ==
      AlliedSet(players, teamUniversity, sport) +
      (if p.teamUniversity == teamUniversity && p.sport == sport then {p.playerUniversity} else {})
  {
    var grown := players + [p];
    forall v | v in AlliedSet(grown, teamUniversity, sport)
      ensures v in AlliedSet(players, teamUniversity, sport) ||
              (p.teamUniversity == teamUniversity && p.sport == sport && v == p.playerUniversity)
    {
      var i :| 0 <= i < |grown| && grown[i].teamUniversity == teamUniversity && grown[i].sport == sport &&
               grown[i].playerUniversity == v;
      if i < |players| { assert grown[i] == players[i]; }
    }
    forall v | v in AlliedSet(players, teamUniversity, sport) ensures v in AlliedSet(grown, teamUniversity, sport) {
      var i :| 0 <= i < |players| && players[i].teamUniversity == teamUniversity && players[i].sport == sport &&
               players[i].playerUniversity == v;
      assert grown[i] == players[i];
    }
    if p.teamUniversity == teamUniversity && p.sport == sport {
      assert grown[|players|] == p;
    }
  }

  /** Adding a player whose university has no registration elsewhere in the sport keeps `Exclusive`. */
  lemma ExclusiveAddition(players: seq<Player>, p: Player)
    requires !ExclusiveRuleFails(players, p.teamUniversity, p.playerUniversity, p.sport)
    requires Exclusive(players)
    ensures Exclusive(players + [p])
  {
    var grown := players + [p];
    forall i | 0 <= i < |players| && players[i].playerUniversity == p.playerUniversity && players[i].sport == p.sport
      ensures players[i].teamUniversity == p.teamUniversity
    {
      FirstRegistration(players, p.playerUniversity, p.sport);
      assert players[i] in RegistrationsOf(players, p.playerUniversity, p.sport);
      var k :| FirstRegistrationAt(players, p.playerUniversity, p.sport, k) &&
               RegistrationsOf(players, p.playerUniversity, p.sport)[0] == players[k];
    }
    forall i, j | 0 <= i < |grown| && 0 <= j < |grown| &&
                  grown[i].playerUniversity == grown[j].playerUniversity && grown[i].sport == grown[j].sport
      ensures grown[i].teamUniversity == grown[j].teamUniversity
    {
      if i < |players| { assert grown[i] == players[i]; }
      if j < |players| { assert grown[j] == players[j]; }
    }
  }

  /** Adding a founding player, or a player to a team that has one, keeps `Founded`. */
  lemma FoundedAddition(players: seq<Player>, p: Player)
    requires !FirstRuleFails(players, p.teamUniversity, p.playerUniversity, p.sport)
    requires Founded(players)
    ensures Founded(players + [p])
  {
    var grown := players + [p];
    var n := |players|;
    forall i | 0 <= i < |grown| ensures FoundedAt(grown, i) {
      if i < n {
        assert grown[i] == players[i];
        assert FoundedAt(players, i);
        var j :| 0 <= j < n && players[j].teamUniversity == players[i].teamUniversity &&
                 players[j].sport == players[i].sport && players[j].playerUniversity == players[i].teamUniversity;
        assert grown[j] == players[j];
      } else if HasPlayers(players, p.teamUniversity, p.sport) {
        var k :| 0 <= k < n && players[k].teamUniversity == p.teamUniversity && players[k].sport == p.sport;
        assert FoundedAt(players, k);
        var j :| 0 <= j < n && players[j].teamUniversity == players[k].teamUniversity &&
                 players[j].sport == players[k].sport && players[j].playerUniversity == players[k].teamUniversity;
        assert grown[j] == players[j];
      } else {
        assert grown[n] == p && p.playerUniversity == p.teamUniversity;
      }
    }
  }

  /** Adding a player who does not bring a fourth university keeps `AtMostThree`. */
  lemma AtMostThreeAddition(players: seq<Player>, p: Player)
    requires !CapRuleFails(players, p.teamUniversity, p.playerUniversity, p.sport)
    requires AtMostThree(players)
    ensures AtMostThree(players + [p])
  {
    var grown := players + [p];
    var n := |players|;
    forall i | 0 <= i < |grown|
      ensures |AlliedSet(grown, grown[i].teamUniversity, grown[i].sport)| <= 3
    {
      var tu, s := grown[i].teamUniversity, grown[i].sport;
      AlliedSetAppend(players, p, tu, s);
      var before := AlliedSet(players, tu, s);
      if tu == p.teamUniversity && s == p.sport {
        if p.playerUniversity !in before && before != {} {
          var v :| v in before;
          var k :| 0 <= k < n && players[k].teamUniversity == tu && players[k].sport == s &&
                   players[k].playerUniversity == v;
          assert |before| <= 3;
          assert |before + {p.playerUniversity}| == |before| + 1;
        } else if p.playerUniversity in before {
          assert before + {p.playerUniversity} == before;
          var k :| 0 <= k < n && players[k].teamUniversity == tu && players[k].sport == s &&
                   players[k].playerUniversity == p.playerUniversity;
        }
      } else {
        assert i < n && grown[i] == players[i];
      }
    }
  }

  /** Adding a player whom the check finds eligible keeps all three rules true
      of the whole table. */
  lemma EligibleAdditionPreserves(players: seq<Player>, p: Player)
    requires IsPlayerValid(players, p.teamUniversity, p.playerUniversity, p.sport) == Eligible
    ensures Exclusive(players) ==> Exclusive(players + [p])
    ensures Founded(players) ==> Founded(players + [p])
    ensures AtMostThree(players) ==> AtMostThree(players + [p])
  {
    VerdictMeaning(players, p.teamUniversity, p.playerUniversity, p.sport);
    if Exclusive(players) { ExclusiveAddition(players, p); }
    if Founded(players) { FoundedAddition(players, p); }
    if AtMostThree(players) { AtMostThreeAddition(players, p); }
  }

  /** The source compares the list of team universities with a string, which
      is never equal, so a university that already fields its own team gets the
      "playing for another team" message; here is such a table. */
  lemma AlreadyHasTeamExample()
    ensures
      var players := [Player("1", "Football", "KCL", "Ann", "KCL"), Player("2", "Football", "UCL", "Ben", "UCL")];
      IsPlayerValidAsWritten(players, "KCL", "UCL", "Football") == Ineligible(PlaysForAnotherTeam) &&
      IsPlayerValid(players, "KCL", "UCL", "Football") == Ineligible(AlreadyHasTeam)
  {
    var players := [Player("1", "Football", "KCL", "Ann", "KCL"), Player("2", "Football", "UCL", "Ben", "UCL")];
    assert RosterOf(players, "KCL", "Football") != [] by {
      assert players[0] in RosterOf(players, "KCL", "Football");
    }
    var regs := RegistrationsOf(players, "UCL", "Football");
    assert regs == [players[1]] by {
      assert players[1..] == [players[1]];
      assert players[1..][1..] == [];
    }
    assert TeamUniversities(regs) == ["UCL"];
    assert TeamsPlayedFor(players, "UCL", "Football") == ["UCL"] by {
      assert ["UCL"][..0] == [];
    }
  }
  /** As written, no table and no request ever gets the "already has a team"
      verdict: the check that would give it compares a list with a string. */
  lemma AsWrittenNeverAlreadyHasTeam(players: seq<Player>, teamUniversity: string, playerUniversity: string, sport: string)
    ensures IsPlayerValidAsWritten(players, teamUniversity, playerUniversity, sport) != Ineligible(AlreadyHasTeam)
  {
  }


  /** The as-written check and the corrected one accept and reject the same
      players; they differ only in the message of an exclusivity rejection. */
  lemma AsWrittenAgreesOnValidity(players: seq<Player>, teamUniversity: string, playerUniversity: string, sport: string)
    ensures IsPlayerValidAsWritten(players, teamUniversity, playerUniversity, sport) ==
      (if IsPlayerValid(players, teamUniversity, playerUniversity, sport) == Ineligible(AlreadyHasTeam)
       then Ineligible(PlaysForAnotherTeam) else IsPlayerValid(players, teamUniversity, playerUniversity, sport))
  {
  }

  /** `team_exists`: some Team row whose own `university` is the given one is in `sport`. */
  function TeamExists(teams: seq<Team>, university: string, sport: string): (r: bool)
    ensures r <==> exists i :: 0 <= i < |teams| && teams[i].university == university && teams[i].sport == sport
  {
    if teams == [] then false
    else if teams[0].university == university && teams[0].sport == sport then true
    else
      var r := TeamExists(teams[1..], university, sport);
      assert forall i :: 1 <= i < |teams| ==> teams[i] == teams[1..][i - 1];
      r
  }
}
