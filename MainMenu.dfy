/**
 * The persistence and deletion logic of the menu program: reading the
 * tournament file into the registries (`loadDataFromFile`), writing the
 * registries back out (`saveDataToFile`), and turning a delete-menu choice
 * into a registry index (`deleteOneContest`, `deleteOneSkater`).
 *
 * The file is its sequence of lines.  `Load` and `Encode` are the
 * specifications; `LoadDataFromFile` and `SaveDataToFile` are the loops of
 * the program, proved to compute them.
 */
module MainMenu {
  import opened Wrappers
  import opened Registry
  import opened LineFormat

  /** The contents of the contest registry and of the skater registry. */
  datatype Tables = Tables(contests: seq<Contest>, skaters: seq<Skater>)

  /** A load runs to the end of the file, or is ended by an exception on some line. */
  datatype Status = Completed | Aborted(line: nat, reason: CrashReason)

  datatype LoadResult = LoadResult(tables: Tables, status: Status)

  /** Every score text is accepted by `Double.parseDouble`. */
  predicate AllParse(texts: seq<string>, parsesAsDouble: string -> bool)
  {
    forall k :: 0 <= k < |texts| ==> parsesAsDouble(texts[k])
  }

  /**
   * The effect of one decoded line on the registries.  A Scores line first
   * converts all its values (an unparsable one ends the load), then looks up
   * skater and contest; if either is missing, or the line is malformed or of
   * an unknown type, it is reported and nothing changes.
   */
  function ApplyRecord(t: Tables, r: Record, parsesAsDouble: string -> bool): (res: Result<Tables, CrashReason>)
    ensures res.Failure? <==> r.Crash? || (r.ScoresRecord? && !AllParse(r.texts, parsesAsDouble))
    ensures r.Crash? ==> res == Failure(r.reason)
    ensures r.ScoresRecord? && !AllParse(r.texts, parsesAsDouble) ==> res == Failure(NotANumber)
  {
    match r
    case DestinationRecord(location, date) =>
      Success(t.(contests := t.contests + [Contest(location, date)]))
    case SkaterRecord(name, stance, nationality, gender) =>
      Success(t.(skaters := t.skaters + [NewSkater(name, stance, nationality, gender)]))
    case ScoresRecord(name, location, texts) =>
      if !AllParse(texts, parsesAsDouble) then Failure(NotANumber)
      else
        var si := FindSkater(t.skaters, name);
        var ci := FindContest(t.contests, location);
        if si.Some? && ci.Some? then
          var s := t.skaters[si.value];
          Success(t.(skaters := t.skaters[si.value := s.AddScores(t.contests[ci.value], texts)]))
        else Success(t)
    case MalformedScores(_) => Success(t)
    case UnknownTag(_) => Success(t)
    case Crash(reason) => Failure(reason)
  }

  /** Every line decoded on its own, in file order. */
  function Decode(lines: seq<string>): (records: seq<Record>)
    ensures |records| == |lines|
  {
    if lines == [] then []
    else Decode(lines[..|lines| - 1]) + [ParseLine(lines[|lines| - 1])]
  }

  /** Applying one more record, that of the line at 0-based position `index`, after `before`. */
  function Step(before: LoadResult, record: Record, index: nat, parsesAsDouble: string -> bool): (after: LoadResult)
    ensures before.status.Aborted? ==> after == before
    ensures before.status.Completed? && after.status.Aborted? ==>
              after.tables == before.tables && after.status.line == index
  {
    if before.status.Aborted? then before
    else
      match ApplyRecord(before.tables, record, parsesAsDouble)
      case Failure(reason) => LoadResult(before.tables, Aborted(index, reason))
      case Success(after) => LoadResult(after, Completed)
  }

  /** Applying decoded lines in order to registries that start as `t`. */
  function Apply(t: Tables, records: seq<Record>, parsesAsDouble: string -> bool): (r: LoadResult)
    ensures r.status.Aborted? ==> r.status.line < |records|
    decreases |records|
  {
    if records == [] then LoadResult(t, Completed)
    else Step(Apply(t, records[..|records| - 1], parsesAsDouble), records[|records| - 1], |records| - 1, parsesAsDouble)
  }

  /** Reading `lines` in order into registries that start as `t`. */
  function Load(t: Tables, lines: seq<string>, parsesAsDouble: string -> bool): (r: LoadResult)
    ensures r.status.Aborted? ==> r.status.line < |lines|
  {
    Apply(t, Decode(lines), parsesAsDouble)
  }

  /** Each record is the parse of the line at the same position. */
  lemma {:induction false} DecodeLines(lines: seq<string>)
    ensures forall i :: 0 <= i < |lines| ==> Decode(lines)[i] == ParseLine(lines[i])
    decreases |lines|
  {
    if lines != [] {
      var m := |lines| - 1;
      var rs := Decode(lines[..m]);
      assert Decode(lines) == rs + [ParseLine(lines[m])];
      DecodeLines(lines[..m]);
      forall i | 0 <= i < |lines| ensures Decode(lines)[i] == ParseLine(lines[i]) {
        if i < m {
          assert Decode(lines)[i] == rs[i];
          assert lines[..m][i] == lines[i];
        }
      }
    }
  }

  /** Decoding a prefix is the prefix of the decoding. */
  lemma {:induction false} DecodePrefix(lines: seq<string>, n: nat)
    requires n <= |lines|
    ensures Decode(lines[..n]) == Decode(lines)[..n]
    decreases |lines|
  {
    if n < |lines| {
      var m := |lines| - 1;
      assert lines[..m][..n] == lines[..n];
      DecodePrefix(lines[..m], n);
    } else {
      assert lines[..n] == lines;
    }
  }

  /** Reading one more line is one more step. */
  lemma LoadNext(t: Tables, lines: seq<string>, i: nat, p: string -> bool)
    requires i < |lines|
    ensures Load(t, lines[..i + 1], p) == Step(Load(t, lines[..i], p), ParseLine(lines[i]), i, p)
  {
    assert lines[..i + 1][..i] == lines[..i];
    var rs := Decode(lines[..i + 1]);
    assert rs[..i] == Decode(lines[..i]);
  }

  /** After the first exception no later record is applied. */
  lemma {:induction false} ApplyStopsAtCrash(t: Tables, records: seq<Record>, n: nat, p: string -> bool)
    requires n <= |records| && Apply(t, records[..n], p).status.Aborted?
    ensures Apply(t, records, p) == Apply(t, records[..n], p)
    decreases |records| - n
  {
    if n == |records| {
      assert records[..n] == records;
    } else {
      var m := |records| - 1;
      assert records[..m][..n] == records[..n];
      if n < m {
        ApplyStopsAtCrash(t, records[..m], n, p);
      } else {
        assert records[..m] == records[..n];
      }
    }
  }

  /** After the first exception no later line is read. */
  lemma LoadStopsAtCrash(t: Tables, lines: seq<string>, n: nat, p: string -> bool)
    requires n <= |lines| && Load(t, lines[..n], p).status.Aborted?
    ensures Load(t, lines, p) == Load(t, lines[..n], p)
  {
    DecodePrefix(lines, n);
    ApplyStopsAtCrash(t, Decode(lines), n, p);
  }

  /**
   * The numbers of a Scores line become a fresh array of the same length,
   * one `Double.parseDouble` per element, in order.
   */
  method ScoresArray(texts: seq<string>, parsesAsDouble: string -> bool) returns (ok: bool, scores: seq<string>)
    ensures ok <==> AllParse(texts, parsesAsDouble)
    ensures ok ==> scores == texts
  {
    var values := new string[|texts|];
    for i := 0 to |texts|
      invariant forall k :: 0 <= k < i ==> parsesAsDouble(texts[k]) && values[k] == texts[k]
    {
      if !parsesAsDouble(texts[i]) {
        return false, [];
      }
      values[i] := texts[i];
    }
    return true, values[..];
  }

  /**
   * The body of the read loop for one decoded line: the registries are
   * updated in place, or the exception that ends the load is returned.
   */
  method ApplyToRegistries(contestList: ContestList, skaterList: SkaterList, record: Record,
                           parsesAsDouble: string -> bool) returns (crash: Option<CrashReason>)
    modifies contestList, skaterList
    ensures match ApplyRecord(old(Tables(contestList.contests, skaterList.skaters)), record, parsesAsDouble)
            case Failure(reason) =>
              crash == Some(reason) && Tables(contestList.contests, skaterList.skaters) == old(Tables(contestList.contests, skaterList.skaters))
            case Success(after) =>
              crash == None && Tables(contestList.contests, skaterList.skaters) == after
  {
    match record {
      case DestinationRecord(location, date) =>
        contestList.AddContest(Contest(location, date));
      case SkaterRecord(name, stance, nationality, gender) =>
        skaterList.AddSkater(NewSkater(name, stance, nationality, gender));
      case ScoresRecord(name, location, texts) =>
        var ok, scores := ScoresArray(texts, parsesAsDouble);
        if !ok {
          return Some(NotANumber);
        }
        var si := FindSkater(skaterList.skaters, name);
        var ci := FindContest(contestList.contests, location);
        if si.Some? && ci.Some? {
          skaterList.AddScores(si.value, contestList.contests[ci.value], scores);
        }
      case MalformedScores(_) =>
      case UnknownTag(_) =>
      case Crash(reason) =>
        return Some(reason);
    }
    return None;
  }

  /**
   * `loadDataFromFile`: each line is decoded and applied to the registries in
   * file order.  A missing file reads as no lines.
   */
  method LoadDataFromFile(contestList: ContestList, skaterList: SkaterList, lines: seq<string>,
                          parsesAsDouble: string -> bool) returns (status: Status)
    modifies contestList, skaterList
    ensures Load(old(Tables(contestList.contests, skaterList.skaters)), lines, parsesAsDouble)
         == LoadResult(Tables(contestList.contests, skaterList.skaters), status)
  {
    ghost var start := Tables(contestList.contests, skaterList.skaters);
    var i := 0;
    while i < |lines|
      invariant 0 <= i <= |lines|
      invariant Load(start, lines[..i], parsesAsDouble)
             == LoadResult(Tables(contestList.contests, skaterList.skaters), Completed)
    {
      LoadNext(start, lines, i, parsesAsDouble);
      var record := ParseLine(lines[i]);
      var crash := ApplyToRegistries(contestList, skaterList, record, parsesAsDouble);
      if crash.Some? {
        status := Aborted(i, crash.value);
        LoadStopsAtCrash(start, lines, i + 1, parsesAsDouble);
        return;
      }
      i := i + 1;
    }
    assert lines[..|lines|] == lines;
    status := Completed;
  }

  /** One Destination line per contest, in registry order. */
  function DestinationLines(contests: seq<Contest>): (lines: seq<string>)
    ensures |lines| == |contests|
    ensures forall i :: 0 <= i < |contests| ==> lines[i] == DestinationLine(contests[i])
  {
    if contests == [] then []
    else DestinationLines(contests[..|contests| - 1]) + [DestinationLine(contests[|contests| - 1])]
  }

  /** One Skater line per skater, in registry order. */
  function SkaterLines(skaters: seq<Skater>): (lines: seq<string>)
    ensures |lines| == |skaters|
    ensures forall i :: 0 <= i < |skaters| ==> lines[i] == SkaterLine(skaters[i])
  {
    if skaters == [] then []
    else SkaterLines(skaters[..|skaters| - 1]) + [SkaterLine(skaters[|skaters| - 1])]
  }

  /** A skater has a non-null, non-empty score array for a contest. */
  predicate HasScores(s: Skater, c: Contest)
  {
    s.GetScores(c).Some? && |s.GetScores(c).value| > 0
  }

  /** The Scores line of one (contest, skater) pair, if there is one. */
  function ScoreLine(c: Contest, s: Skater): (r: seq<string>)
    ensures |r| <= 1 && (|r| == 1 <==> HasScores(s, c))
  {
    if HasScores(s, c) then [ScoresLine(s.name, c.location, s.GetScores(c).value)] else []
  }

  /** The Scores lines of one contest, skater by skater. */
  function ContestScoreLines(c: Contest, skaters: seq<Skater>): (r: seq<string>)
    ensures |r| <= |skaters|
  {
    if skaters == [] then []
    else ContestScoreLines(c, skaters[..|skaters| - 1]) + ScoreLine(c, skaters[|skaters| - 1])
  }

  /** All Scores lines, contest by contest. */
  function ScoreLines(contests: seq<Contest>, skaters: seq<Skater>): (r: seq<string>)
    ensures |r| <= |contests| * |skaters|
  {
    if contests == [] then []
    else
      var n := |contests| - 1;
      assert n * |skaters| + |skaters| == |contests| * |skaters|;
      ScoreLines(contests[..n], skaters) + ContestScoreLines(contests[n], skaters)
  }

  /** The whole file, section by section. */
  function Encode(contests: seq<Contest>, skaters: seq<Skater>): (r: seq<string>)
    ensures |contests| + |skaters| <= |r| <= |contests| + |skaters| + |contests| * |skaters|
  {
    DestinationLines(contests) + SkaterLines(skaters) + ScoreLines(contests, skaters)
  }

  /** The Scores line written for skater `s` at contest `c`. */
  predicate WrittenFor(line: string, c: Contest, s: Skater)
  {
    HasScores(s, c) && line == ScoresLine(s.name, c.location, s.GetScores(c).value)
  }

  /** Some skater of `skaters` has `line` written for contest `c`. */
  predicate WrittenForSome(line: string, c: Contest, skaters: seq<Skater>)
  {
    exists i :: 0 <= i < |skaters| && WrittenFor(line, c, skaters[i])
  }

  /** A contest's Scores lines are those of the skaters holding a non-empty array for it. */
  lemma {:induction false} ContestScoreLinesMembers(c: Contest, skaters: seq<Skater>, line: string)
    ensures line in ContestScoreLines(c, skaters) <==> WrittenForSome(line, c, skaters)
    decreases |skaters|
  {
    if skaters != [] {
      var n := |skaters| - 1;
      var front := skaters[..n];
      assert ContestScoreLines(c, skaters) == ContestScoreLines(c, front) + ScoreLine(c, skaters[n]);
      ContestScoreLinesMembers(c, front, line);
      assert forall i :: 0 <= i < n ==> front[i] == skaters[i];
      if WrittenForSome(line, c, skaters) {
        var i :| 0 <= i < |skaters| && WrittenFor(line, c, skaters[i]);
        if i < n {
          assert WrittenFor(line, c, front[i]);
        }
      }
    }
  }

  /**
   * The Scores section holds a line for a (contest, skater) pair exactly when
   * that skater's array for that contest is present and non-empty.
   */
  lemma {:induction false} ScoreLinesMembers(contests: seq<Contest>, skaters: seq<Skater>, line: string)
    ensures line in ScoreLines(contests, skaters) <==>
            exists k :: 0 <= k < |contests| && WrittenForSome(line, contests[k], skaters)
    decreases |contests|
  {
    if contests != [] {
      var n := |contests| - 1;
      var front := contests[..n];
      assert ScoreLines(contests, skaters) == ScoreLines(front, skaters) + ContestScoreLines(contests[n], skaters);
      ScoreLinesMembers(front, skaters, line);
      ContestScoreLinesMembers(contests[n], skaters, line);
      assert forall k :: 0 <= k < n ==> front[k] == contests[k];
    }
  }

  /** `saveDataToFile`: the lines printed, in order, one loop per section. */
  method SaveDataToFile(contestList: ContestList, skaterList: SkaterList) returns (lines: seq<string>)
    ensures lines == Encode(contestList.contests, skaterList.skaters)
  {
    var destinations := DestinationsToFile(contestList);
    var skaters := SkatersToFile(skaterList);
    var scores := ScoresToFile(contestList, skaterList);
    lines := destinations + skaters + scores;
  }

  /** The contest loop of `saveDataToFile`. */
  method DestinationsToFile(contestList: ContestList) returns (lines: seq<string>)
    ensures lines == DestinationLines(contestList.contests)
  {
    var contests := contestList.contests;
    lines := [];
    for i := 1 to |contests| + 1
      invariant lines == DestinationLines(contests[..i - 1])
    {
      assert contests[..i][..i - 1] == contests[..i - 1];
      lines := lines + [DestinationLine(contestList.GetContest(i))];
    }
    assert contests[..|contests|] == contests;
  }

  /** The skater loop of `saveDataToFile`. */
  method SkatersToFile(skaterList: SkaterList) returns (lines: seq<string>)
    ensures lines == SkaterLines(skaterList.skaters)
  {
    var skaters := skaterList.skaters;
    lines := [];
    for j := 1 to |skaters| + 1
      invariant lines == SkaterLines(skaters[..j - 1])
    {
      assert skaters[..j][..j - 1] == skaters[..j - 1];
      lines := lines + [SkaterLine(skaterList.GetSkater(j))];
    }
    assert skaters[..|skaters|] == skaters;
  }

  /** The nested scores loops of `saveDataToFile`, contest outer, skater inner. */
  method ScoresToFile(contestList: ContestList, skaterList: SkaterList) returns (lines: seq<string>)
    ensures lines == ScoreLines(contestList.contests, skaterList.skaters)
  {
    var contests, skaters := contestList.contests, skaterList.skaters;
    lines := [];
    for i := 1 to |contests| + 1
      invariant lines == ScoreLines(contests[..i - 1], skaters)
    {
      var contest := contestList.GetContest(i);
      var section := ContestScoresToFile(contest, skaterList);
      lines := lines + section;
      assert contests[..i][..i - 1] == contests[..i - 1];
    }
    assert contests[..|contests|] == contests;
  }

  /** The inner loop of the scores section: the Scores lines of one contest. */
  method ContestScoresToFile(contest: Contest, skaterList: SkaterList) returns (lines: seq<string>)
    ensures lines == ContestScoreLines(contest, skaterList.skaters)
  {
    var skaters := skaterList.skaters;
    lines := [];
    for j := 1 to |skaters| + 1
      invariant lines == ContestScoreLines(contest, skaters[..j - 1])
    {
      assert skaters[..j][..j - 1] == skaters[..j - 1];
      var skater := skaterList.GetSkater(j);
      var scores := skater.GetScores(contest);
      if scores.Some? && |scores.value| > 0 {
        lines := lines + [ScoresLine(skater.name, contest.location, scores.value)];
      }
    }
    assert skaters[..|skaters|] == skaters;
  }

  /** The delete menus list the entry at 1-based position `p` as option `p + 1`. */
  function OptionNumber(position: nat): nat
  {
    position + 1
  }

  /**
   * The 0-based index removed for a delete-menu choice; option 1 is
   * "Return to main menu".  The menu re-prompts until the choice is in range.
   */
  function Selection(choice: int, total: nat): (r: Option<nat>)
    requires 1 <= choice <= total + 1
    ensures r.None? <==> choice == 1
    ensures r.Some? ==> r.value < total && OptionNumber(r.value + 1) == choice
  {
    if choice == 1 then None else Some(choice - 2)
  }

  /** The registry contents after the delete menu, for an empty one and for every valid choice. */
  function AfterDelete<T>(entries: seq<T>, choice: int): (r: seq<T>)
    requires entries == [] || 1 <= choice <= |entries| + 1
    ensures entries == [] || choice == 1 ==> r == entries
    ensures entries != [] && choice != 1 ==> r == entries[..choice - 2] + entries[choice - 1..]
  {
    if entries == [] then entries
    else
      match Selection(choice, |entries|)
      case None => entries
      case Some(i) => RemoveAt(entries, i)
  }

  /** `deleteOneContest` once the menu has read a `choice` in range. */
  method DeleteOneContest(contestList: ContestList, choice: int)
    requires contestList.contests == [] || 1 <= choice <= |contestList.contests| + 1
    modifies contestList
    ensures contestList.contests == AfterDelete(old(contestList.contests), choice)
  {
    if contestList.contests != [] {
      if choice != 1 {
        contestList.RemoveContest(choice - 2);
      }
    }
  }

  /** `deleteOneSkater` once the menu has read a `choice` in range. */
  method DeleteOneSkater(skaterList: SkaterList, choice: int)
    requires skaterList.skaters == [] || 1 <= choice <= |skaterList.skaters| + 1
    modifies skaterList
    ensures skaterList.skaters == AfterDelete(old(skaterList.skaters), choice)
  {
    if skaterList.skaters != [] {
      if choice != 1 {
        skaterList.RemoveSkater(choice - 2);
      }
    }
  }

  /**
   * Choosing the option listed beside an entry removes exactly that entry,
   * later entries moving up; option 1 removes nothing.
   */
  lemma DeleteRemovesListedEntry<T>(entries: seq<T>, position: nat)
    requires 1 <= position <= |entries|
    ensures AfterDelete(entries, 1) == entries
    ensures |AfterDelete(entries, OptionNumber(position))| == |entries| - 1
    ensures AfterDelete(entries, OptionNumber(position)) == entries[..position - 1] + entries[position..]
  {
  }
}
