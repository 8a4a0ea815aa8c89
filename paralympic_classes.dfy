/** The plain classes of the classes exercise: an event that athletes register with,
    and the athlete, runner, medal and athlete-with-medals records with the strings
    Python renders for them (`__str__`, the dataclass `repr`, and the printed lines of
    `introduce`, `race_info` and the athletes line of `describe`). */
module ParalympicClasses {
  import opened Text

  // ---------------------------------------------------------------- ParalympicEvent

  /** The athletes line that `describe` prints: the label, then the names joined with ", ". */
  function AthletesLine(athletes: seq<string>): string
  {
    "Athletes competing: " + Join(athletes, ", ")
  }

  /** A Paralympic event: name, sport and classification as given, and the list of
      athlete names registered so far. */
  class ParalympicEvent {
    var name: string
    var sport: string
    var classification: string
    var athletes: seq<string>

    /** `__init__`: the fields as given and no athletes yet. */
    constructor (name: string, sport: string, classification: string)
      ensures this.name == name && this.sport == sport && this.classification == classification
      ensures athletes == []
    {
      this.name := name;
      this.sport := sport;
      this.classification := classification;
      athletes := [];
    }

    /** The athletes line of `describe` for the current registrations: the label, then,
        when the names can be told apart, exactly the registered names in order. */
    function DescribeAthletes(): (line: string)
      reads this
      ensures |line| >= 20 && line[..20] == "Athletes competing: "
      ensures |athletes| == 0 ==> line == "Athletes competing: "
      ensures Listable(athletes) ==> Split(line[20..], ", ") == athletes
    {
      var line := AthletesLine(athletes);
      assert line[..20] == "Athletes competing: ";
      if Listable(athletes) then AthletesLineLists(athletes); line else line
    }

    /** `register_athlete`: the name goes at the end, earlier entries stay in order,
        duplicates are allowed, and the other fields do not change. */
    method RegisterAthlete(athleteName: string)
      modifies this
      ensures athletes == old(athletes) + [athleteName]
      ensures name == old(name) && sport == old(sport) && classification == old(classification)
    {
      athletes := athletes + [athleteName];
    }
  }

  /** Registering one more athlete extends the athletes line by ", " and the new name
      (by the name alone when it is the first). */
  lemma AthletesLineRegister(athletes: seq<string>, athleteName: string)
    ensures AthletesLine(athletes + [athleteName]) ==
      AthletesLine(athletes) + (if |athletes| == 0 then "" else ", ") + athleteName
  {
    JoinAppend(athletes, athleteName, ", ");
  }

  /** At least one name, and no name with a comma in it. */
  predicate Listable(athletes: seq<string>)
  {
    |athletes| > 0 && forall k :: 0 <= k < |athletes| ==> ',' !in athletes[k]
  }

  /** The athletes line lists the registered names in registration order: splitting what
      follows the label at ", " gives the list back, provided there is at least one name
      and no name contains a comma. */
  lemma AthletesLineLists(athletes: seq<string>)
    requires Listable(athletes)
    ensures |AthletesLine(athletes)| >= 20
    ensures Split(AthletesLine(athletes)[20..], ", ") == athletes
  {
    var line := AthletesLine(athletes);
    assert line[20..] == Join(athletes, ", ");
    SplitJoin(athletes, ", ");
  }

  // ---------------------------------------------------------------- Athlete and Runner

  /** An athlete: name parts, team code and disability class. */
  datatype Athlete = Athlete(firstName: string, lastName: string, teamCode: string, disabilityClass: string)
  {
    /** `__str__`: the four fields separated by single spaces. */
    function ToString(): string
    {
      Join([firstName, lastName, teamCode, disabilityClass], " ")
    }

    /** The sentence `introduce` prints. */
    function Introduction(): string
    {
      firstName + " " + lastName + " represents " + teamCode + " in class " + disabilityClass + "."
    }
  }

  /** True when none of the strings contains a space. */
  predicate NoSpaces(fields: seq<string>)
  {
    forall k :: 0 <= k < |fields| ==> ' ' !in fields[k]
  }

  /** The rendering of an athlete is its four fields, in order, with one space between
      each two, whatever the fields hold; when none of them contains a space, splitting
      it at single spaces gives them back. */
  lemma AthleteStringFields(a: Athlete)
    ensures a.ToString() == a.firstName + " " + a.lastName + " " + a.teamCode + " " + a.disabilityClass
    ensures NoSpaces([a.firstName, a.lastName, a.teamCode, a.disabilityClass]) ==>
      Split(a.ToString(), " ") == [a.firstName, a.lastName, a.teamCode, a.disabilityClass]
  {
    var fields := [a.firstName, a.lastName, a.teamCode, a.disabilityClass];
    JoinFields(fields);
    if NoSpaces(fields) {
      SplitJoin(fields, " ");
    }
  }

  /** Four fields joined by single spaces. */
  lemma JoinFields(fields: seq<string>)
    requires |fields| == 4
    ensures Join(fields, " ") == fields[0] + " " + fields[1] + " " + fields[2] + " " + fields[3]
  {
    var t := fields[1..];
    assert Join(t[1..], " ") == fields[2] + " " + fields[3] by {
      assert t[1..][1..] == [fields[3]];
    }
    assert Join(fields, " ") == fields[0] + " " + (fields[1] + " " + (fields[2] + " " + fields[3]));
  }

  /** A runner: the four athlete fields and the race distance. */
  datatype Runner = Runner(firstName: string, lastName: string, teamCode: string, disabilityClass: string,
                           distance: string)
  {
    /** The Athlete part, which `super().__init__` fills in. */
    function AsAthlete(): Athlete
    {
      Athlete(firstName, lastName, teamCode, disabilityClass)
    }

    /** The inherited `__str__`. */
    function ToString(): string
    {
      AsAthlete().ToString()
    }

    /** The inherited `introduce`. */
    function Introduction(): string
    {
      AsAthlete().Introduction()
    }

    /** The sentence `race_info` prints. */
    function RaceInfo(): string
    {
      firstName + " is running the " + distance + " race."
    }
  }

  /** A runner's rendering is the athlete rendering of its own four fields, in order, with
      the distance left out; when no field contains a space, splitting it gives them back. */
  lemma RunnerInherits(r: Runner)
    ensures r.ToString() == r.firstName + " " + r.lastName + " " + r.teamCode + " " + r.disabilityClass
    ensures NoSpaces([r.firstName, r.lastName, r.teamCode, r.disabilityClass]) ==>
      Split(r.ToString(), " ") == [r.firstName, r.lastName, r.teamCode, r.disabilityClass]
  {
    AthleteStringFields(r.AsAthlete());
  }

  // ---------------------------------------------------------------- Medal and AthleteWithMedals

  /** A calendar date; `Repr` is Python's `repr` of a `datetime.date`. */
  datatype Date = Date(year: nat, month: nat, day: nat)
  {
    function Repr(): string
    {
      "datetime.date(" + Join([NatToString(year), NatToString(month), NatToString(day)], ", ") + ")"
    }
  }

  /** The three numbers of a date can be read back from its repr. */
  lemma DateReprFields(d: Date)
    ensures |d.Repr()| >= 15
    ensures var inner := d.Repr()[14..|d.Repr()| - 1];
      Split(inner, ", ") == [NatToString(d.year), NatToString(d.month), NatToString(d.day)]
    ensures ParseNat(NatToString(d.year)) == d.year && ParseNat(NatToString(d.month)) == d.month &&
      ParseNat(NatToString(d.day)) == d.day
  {
    var ys, ms, ds := NatToString(d.year), NatToString(d.month), NatToString(d.day);
    var parts := [ys, ms, ds];
    var r := d.Repr();
    assert r[14..|r| - 1] == Join(parts, ", ");
    SplitJoin(parts, ", ");
    ParseNatToString(d.year);
    ParseNatToString(d.month);
    ParseNatToString(d.day);
  }

  /** A medal: a plain value record of (type, design, date_designed). `Repr` is the
      dataclass-generated `repr`. */
  datatype Medal = Medal(kind: string, design: string, dateDesigned: Date)
  {
    function Repr(): string
    {
      "Medal(" + Join(["type=" + StrRepr(kind), "design=" + StrRepr(design),
                       "date_designed=" + dateDesigned.Repr()], ", ") + ")"
    }
  }

  /** The reprs of a list of medals, element by element. */
  function MedalReprs(medals: seq<Medal>): (r: seq<string>)
    ensures |r| == |medals| && forall i :: 0 <= i < |medals| ==> r[i] == medals[i].Repr()
  {
    if |medals| == 0 then [] else [medals[0].Repr()] + MedalReprs(medals[1..])
  }

  /** Python's `repr` of a list of medals. */
  function MedalsRepr(medals: seq<Medal>): string
  {
    "[" + Join(MedalReprs(medals), ", ") + "]"
  }

  /** The list repr keeps the medals in the order given: no medals render as "[]", and one
      more medal adds ", " and its repr just before the closing bracket. */
  lemma MedalsReprAppend(medals: seq<Medal>, m: Medal)
    ensures MedalsRepr([]) == "[]"
    ensures MedalsRepr(medals + [m]) ==
      "[" + (if |medals| == 0 then m.Repr() else Join(MedalReprs(medals), ", ") + ", " + m.Repr()) + "]"
  {
    var none: seq<Medal> := [];
    assert MedalReprs(none) == [];
    assert "[" + Join([], ", ") + "]" == "[]";
    MedalReprsAppend(medals, m);
    JoinAppend(MedalReprs(medals), m.Repr(), ", ");
  }

  lemma MedalReprsAppend(medals: seq<Medal>, m: Medal)
    ensures MedalReprs(medals + [m]) == MedalReprs(medals) + [m.Repr()]
  {
    var a, b := MedalReprs(medals + [m]), MedalReprs(medals) + [m.Repr()];
    assert |a| == |b|;
    forall i | 0 <= i < |a| ensures a[i] == b[i] {
      if i < |medals| { assert (medals + [m])[i] == medals[i]; } else { assert (medals + [m])[i] == m; }
    }
  }

  /** An athlete that holds the medals it was given (composition). */
  datatype AthleteWithMedals = AthleteWithMedals(firstName: string, lastName: string, teamCode: string,
                                                 disabilityClass: string, medals: seq<Medal>)
  {
    /** `__str__`: the four athlete fields, then the repr of the medals list, separated by
        single spaces. */
    function ToString(): string
    {
      Join([firstName, lastName, teamCode, disabilityClass, MedalsRepr(medals)], " ")
    }
  }

  /** The rendering of an athlete with medals is the four fields, in order, each followed
      by one space, then the repr of the medals list, whatever the fields hold; when no
      field contains a space, splitting it gives the four fields first and the medals repr
      from what remains. */
  lemma AthleteWithMedalsFields(a: AthleteWithMedals)
    ensures a.ToString() ==
      a.firstName + " " + a.lastName + " " + a.teamCode + " " + a.disabilityClass + " " + MedalsRepr(a.medals)
    ensures NoSpaces([a.firstName, a.lastName, a.teamCode, a.disabilityClass]) ==>
      var parts := Split(a.ToString(), " ");
      |parts| >= 5 && parts[..4] == [a.firstName, a.lastName, a.teamCode, a.disabilityClass] &&
      Join(parts[4..], " ") == MedalsRepr(a.medals)
  {
    var fields := [a.firstName, a.lastName, a.teamCode, a.disabilityClass];
    var m := MedalsRepr(a.medals);
    assert fields + [m] == [a.firstName, a.lastName, a.teamCode, a.disabilityClass, m];
    JoinAppend(fields, m, " ");
    JoinFields(fields);
    if NoSpaces(fields) {
      SplitJoinPrefix(fields, m, " ");
      var parts := Split(a.ToString(), " ");
      assert parts[..4] == fields && parts[4..] == Split(m, " ");
      JoinSplit(m, " ");
    }
  }
}
