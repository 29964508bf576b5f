/** The timetable clash check: each sport has a start and an end time on one
    fixed date, and a player may not take up a sport whose slot overlaps a
    sport they are already registered for. */
module Schedule {
  import opened Wrappers
  import opened Roster

  /** A time of day as the timetable gives it, hour and minute. */
  datatype Clock = Clock(hour: int, minute: int)

  /** A sport's slot in the timetable. */
  datatype Entry = Entry(start: Clock, end: Clock)

  /** Why the check raised instead of answering. */
  datatype ClashError =
    | UnknownSport(sport: string)   // KeyError on `timetable[...]`
    | InvalidTime                   // `datetime(...)` refuses the hour or minute

  /** Minutes since midnight. */
  function Minutes(c: Clock): int
  {
    c.hour * 60 + c.minute
  }

  /** A clock `datetime` accepts. */
  predicate ValidClock(c: Clock)
  {
    0 <= c.hour < 24 && 0 <= c.minute < 60
  }

  /** Two datetimes on the same date compare by hour, then by minute; so do
      their minute counts. */
  lemma MinutesOrder(a: Clock, b: Clock)
    requires ValidClock(a) && ValidClock(b)
    ensures Minutes(a) <= Minutes(b) <==> a.hour < b.hour || (a.hour == b.hour && a.minute <= b.minute)
  {
    if a.hour < b.hour {
      assert Minutes(a) < (a.hour + 1) * 60 <= b.hour * 60 <= Minutes(b);
    } else if a.hour > b.hour {
      assert Minutes(b) < (b.hour + 1) * 60 <= a.hour * 60 <= Minutes(a);
    }
  }

  /** A slot in minutes. */
  datatype Slot = Slot(start: int, end: int)

  /** The slot of a timetable entry, as the four `datetime(2023, 3, 4, h, m)` calls
      would build it. */
  function SlotOf(e: Entry): Result<Slot, ClashError>
  {
    if ValidClock(e.start) && ValidClock(e.end) then Success(Slot(Minutes(e.start), Minutes(e.end)))
    else Failure(InvalidTime)
  }

  /** `not (end_time1 <= start_time2 or end_time2 <= start_time1)`. */
  predicate Overlaps(a: Slot, b: Slot)
  {
    !(a.end <= b.start || b.end <= a.start)
  }

  /** The overlap test does not depend on which slot comes first, and slots
      that meet end to start do not overlap. */
  lemma OverlapFacts(a: Slot, b: Slot)
    ensures Overlaps(a, b) <==> Overlaps(b, a)
    ensures a.end == b.start ==> !Overlaps(a, b)
    ensures a.start < a.end && b.start < b.end ==> (Overlaps(a, b) <==> a.start < b.end && b.start < a.end)
  {
  }

  /** The row is a registration of the player with this name and own university. */
  predicate IsPlayer(p: Player, name: string, playerUniversity: string)
  {
    p.name == name && p.playerUniversity == playerUniversity
  }

  /** The sports a player (by name and own university) is registered for, in table order. */
  function SportsOf(players: seq<Player>, name: string, playerUniversity: string): (r: seq<string>)
    ensures |r| <= |players|
    ensures forall p :: p in players && IsPlayer(p, name, playerUniversity) ==> p.sport in r
    ensures forall s :: s in r ==> exists p :: p in players && IsPlayer(p, name, playerUniversity) && p.sport == s
  {
    if players == [] then []
    else
      var p := players[0];
      var rest := SportsOf(players[1..], name, playerUniversity);
      assert forall q :: q in players <==> q == p || q in players[1..];
      (if IsPlayer(p, name, playerUniversity) then [p.sport] else []) + rest
  }

  /** One step of the loop: the registered sport's slot against the candidate's. */
  function ClashWith(registered: string, sport: string, timetable: map<string, Entry>): Result<bool, ClashError>
  {
    if registered !in timetable then Failure(UnknownSport(registered))
    else
      match SlotOf(timetable[registered])
      case Failure(e) => Failure(e)
      case Success(slot1) =>
        if sport !in timetable then Failure(UnknownSport(sport))
        else
          match SlotOf(timetable[sport])
          case Failure(e) => Failure(e)
          case Success(slot2) => Success(Overlaps(slot1, slot2))
  }

  /** The loop of `sport_clash`: true at the first registered sport that
      overlaps, false when none does. */
  function Clash(registered: seq<string>, sport: string, timetable: map<string, Entry>): Result<bool, ClashError>
  {
    if registered == [] then Success(false)
    else
      match ClashWith(registered[0], sport, timetable)
      case Failure(e) => Failure(e)
      case Success(hit) => if hit then Success(true) else Clash(registered[1..], sport, timetable)
  }

  /** The sport has a timetable entry that `datetime` accepts. */
  predicate Known(sport: string, timetable: map<string, Entry>)
  {
    sport in timetable && SlotOf(timetable[sport]).Success?
  }

  /** The two sports are both known and their slots overlap. */
  predicate SlotsOverlap(registered: string, sport: string, timetable: map<string, Entry>)
  {
    Known(registered, timetable) && Known(sport, timetable) &&
    Overlaps(SlotOf(timetable[registered]).value, SlotOf(timetable[sport]).value)
  }

  /** A player with no registration never clashes, whatever the timetable holds. */
  lemma NoRegistrationNoClash(sport: string, timetable: map<string, Entry>)
    ensures Clash([], sport, timetable) == Success(false)
  {
  }

  /** With a complete timetable the check answers exactly whether some
      registered sport's slot overlaps the candidate's. */
  lemma {:induction false} ClashMeaning(registered: seq<string>, sport: string, timetable: map<string, Entry>)
    requires Known(sport, timetable)
    requires forall i :: 0 <= i < |registered| ==> Known(registered[i], timetable)
    ensures Clash(registered, sport, timetable) ==
      Success(exists i :: 0 <= i < |registered| && SlotsOverlap(registered[i], sport, timetable))
  {
    if registered != [] {
      ClashMeaning(registered[1..], sport, timetable);
      if !SlotsOverlap(registered[0], sport, timetable) {
        if exists i :: 0 <= i < |registered| && SlotsOverlap(registered[i], sport, timetable) {
          var i :| 0 <= i < |registered| && SlotsOverlap(registered[i], sport, timetable);
          assert registered[1..][i - 1] == registered[i];
        }
      }
    }
  }

  /** The check raises only on a sport it had to look up that is missing from
      the timetable or has a time `datetime` refuses. */
  lemma {:induction false} ClashFailure(registered: seq<string>, sport: string, timetable: map<string, Entry>)
    ensures Clash(registered, sport, timetable).Failure? ==>
      !Known(sport, timetable) || exists i :: 0 <= i < |registered| && !Known(registered[i], timetable)
  {
    if registered != [] {
      ClashFailure(registered[1..], sport, timetable);
      if Clash(registered[1..], sport, timetable).Failure? && Known(sport, timetable) &&
         exists i :: 0 <= i < |registered[1..]| && !Known(registered[1..][i], timetable) {
        var i :| 0 <= i < |registered[1..]| && !Known(registered[1..][i], timetable);
        assert registered[1..][i] == registered[i + 1];
      }
    }
  }

  /** `sport_clash`: the player's registrations are looked up by name and own
      university, and each is tested against the candidate sport in turn. */
  method SportClash(players: seq<Player>, sport: string, name: string, playerUniversity: string,
                    timetable: map<string, Entry>)
    returns (r: Result<bool, ClashError>)
    ensures r == Clash(SportsOf(players, name, playerUniversity), sport, timetable)
  {
    var registered := SportsOf(players, name, playerUniversity);
    var i := 0;
    while i < |registered|
      invariant 0 <= i <= |registered|
      invariant Clash(registered, sport, timetable) == Clash(registered[i..], sport, timetable)
    {
      assert registered[i..][0] == registered[i] && registered[i..][1..] == registered[i + 1..];
      var step := ClashWith(registered[i], sport, timetable);
      if step.Failure? {
        return Failure(step.error);
      }
      if step.value {
        return Success(true);
      }
      i := i + 1;
    }
    assert registered[i..] == [];
    r := Success(false);
  }
}
