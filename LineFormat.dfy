/**
 * One line of the tournament file, `SLS2024.txt`:
 *
 *   Destination: <location>, <date>
 *   Skater: <name>, <stance>, <nationality>, <gender>
 *   Scores: <name>, <location>, [<s1>, <s2>, ...]
 *
 * `ParseLine` is the field extraction that `MainMenu.loadDataFromFile` does
 * on each line before it touches a registry; the `...Line` functions are the
 * strings `MainMenu.saveDataToFile` prints.  Score values are kept as the
 * text of each number (`Double.toString` / `Double.parseDouble` are not
 * modelled); `Arrays.toString` is `ScoreList`.
 */
module LineFormat {
  import opened JavaString
  import opened Registry

  /** The unchecked exceptions that end the load. */
  datatype CrashReason =
    | MissingField    // ArrayIndexOutOfBoundsException: too few ':' or ',' separated parts
    | ShortScoreList  // StringIndexOutOfBoundsException: list text shorter than its brackets
    | NotANumber      // NumberFormatException from Double.parseDouble

  /** What a line asks the loader to do. */
  datatype Record =
    | DestinationRecord(location: string, date: string)
    | SkaterRecord(name: string, stance: string, nationality: string, gender: string)
    | ScoresRecord(name: string, location: string, texts: seq<string>)
    | MalformedScores(data: string)
    | UnknownTag(tag: string)
    | Crash(reason: CrashReason)

  /**
   * The tag is what precedes the first ':' and the data what lies between the
   * first and second ':', both trimmed.  Destination and Skater data are
   * split on every ','; Scores data on the first two ',' only, and the list
   * text loses its first and last characters and is split on ", ".
   */
  function ParseLine(line: string): Record
  {
    var parts := Split(line, ":");
    if |parts| < 2 then Crash(MissingField)
    else ParseData(Trim(parts[0]), Trim(parts[1]))
  }

  /** Dispatch on the (trimmed) tag of a line: the record's kind follows the tag. */
  function ParseData(tag: string, data: string): (r: Record)
    ensures r.UnknownTag? <==> tag != "Destination" && tag != "Skater" && tag != "Scores"
    ensures r.UnknownTag? ==> r.tag == tag
    ensures r.DestinationRecord? ==> tag == "Destination"
    ensures r.SkaterRecord? ==> tag == "Skater"
    ensures r.ScoresRecord? || r.MalformedScores? ==> tag == "Scores"
  {
    if tag == "Destination" then ParseDestination(data)
    else if tag == "Skater" then ParseSkater(data)
    else if tag == "Scores" then ParseScores(data)
    else UnknownTag(tag)
  }

  /** Two fields or more, or else the index error at `contestData[1]`. */
  function ParseDestination(data: string): (r: Record)
    ensures r.DestinationRecord? || r == Crash(MissingField)
  {
    var fields := Split(data, ",");
    if |fields| < 2 then Crash(MissingField)
    else DestinationRecord(Trim(fields[0]), Trim(fields[1]))
  }

  /** Four fields or more, or else the index error at `skaterData[3]` or before. */
  function ParseSkater(data: string): (r: Record)
    ensures r.SkaterRecord? || r == Crash(MissingField)
  {
    var fields := Split(data, ",");
    if |fields| < 4 then Crash(MissingField)
    else SkaterRecord(Trim(fields[0]), Trim(fields[1]), Trim(fields[2]), Trim(fields[3]))
  }

  /** Three fields, or else reported as malformed; a list too short for its brackets is an index error. */
  function ParseScores(data: string): (r: Record)
    ensures r.ScoresRecord? || r == MalformedScores(data) || r == Crash(ShortScoreList)
  {
    var fields := SplitLimit(data, ",", 3);
    if |fields| < 3 then MalformedScores(data)
    else
      var list := Trim(fields[2]);
      if |list| < 2 then Crash(ShortScoreList)
      else ScoresRecord(Trim(fields[0]), Trim(fields[1]), Split(list[1..|list| - 1], ", "))
  }

  /** Trimmed and free of `c`: what a field looks like once split off on `c` and trimmed. */
  predicate CleanOf(s: string, c: char)
  {
    c !in s && Trimmed(s)
  }

  /** `Arrays.toString`: the values between brackets, separated by ", ". */
  function ScoreList(texts: seq<string>): string
  {
    "[" + Join(texts, ", ") + "]"
  }

  /** The fields of a Destination line, as written after "Destination: ". */
  function DestinationData(c: Contest): string
  {
    c.location + ", " + c.date
  }

  function SkaterData(s: Skater): string
  {
    s.name + ", " + s.stance + ", " + s.nationality + ", " + s.gender
  }

  function ScoresData(name: string, location: string, texts: seq<string>): string
  {
    name + ", " + location + ", " + ScoreList(texts)
  }

  function DestinationLine(c: Contest): string
  {
    "Destination: " + DestinationData(c)
  }

  function SkaterLine(s: Skater): string
  {
    "Skater: " + SkaterData(s)
  }

  function ScoresLine(name: string, location: string, texts: seq<string>): string
  {
    "Scores: " + ScoresData(name, location, texts)
  }

  /**
   * Text that `Scanner.nextLine` reads back as (part of) a single line: it
   * holds none of the characters that end a line there, namely line feed,
   * carriage return, next line, line separator and paragraph separator.
   */
  predicate OneLine(s: string)
  {
    '\n' !in s && '\r' !in s && '\U{85}' !in s && '\U{2028}' !in s && '\U{2029}' !in s
  }

  /** A Destination line holds a line break exactly when its location or its date does. */
  lemma DestinationLineOneLine(c: Contest)
    ensures OneLine(DestinationLine(c)) <==> OneLine(c.location) && OneLine(c.date)
  {
  }

  /** A Skater line holds a line break exactly when one of its four profile fields does. */
  lemma SkaterLineOneLine(s: Skater)
    ensures OneLine(SkaterLine(s)) <==>
            OneLine(s.name) && OneLine(s.stance) && OneLine(s.nationality) && OneLine(s.gender)
  {
  }

  /** `Arrays.toString` adds a line break only if one of the values holds one. */
  lemma ScoreListOneLine(texts: seq<string>)
    ensures OneLine(ScoreList(texts)) <==> forall k :: 0 <= k < |texts| ==> OneLine(texts[k])
  {
    JoinOneLine(texts, ", ");
  }

  /** A Scores line holds a line break exactly when its name, its location or one of its values does. */
  lemma ScoresLineOneLine(name: string, location: string, texts: seq<string>)
    ensures OneLine(ScoresLine(name, location, texts)) <==>
            OneLine(name) && OneLine(location) && forall k :: 0 <= k < |texts| ==> OneLine(texts[k])
  {
    ScoreListOneLine(texts);
  }

  lemma {:induction false} JoinOneLine(parts: seq<string>, sep: string)
    requires OneLine(sep)
    ensures OneLine(Join(parts, sep)) <==> forall k :: 0 <= k < |parts| ==> OneLine(parts[k])
  {
    if |parts| > 1 {
      JoinOneLine(parts[1..], sep);
      assert forall k :: 1 <= k < |parts| ==> parts[k] == parts[1..][k - 1];
    }
  }

  /** A field that survives the line format: no separator, no line break, no white space at either end. */
  predicate Field(s: string)
  {
    ',' !in s && ':' !in s && OneLine(s) && Trimmed(s)
  }

  /**
   * The last field of a Destination or Skater line must also be non-empty:
   * `split(",")` drops a trailing empty field, and the missing field is then
   * an index error.
   */
  predicate LastField(s: string)
  {
    Field(s) && |s| > 0
  }

  /** The text of one score value. */
  predicate Token(t: string)
  {
    |t| > 0 && ',' !in t && ':' !in t && OneLine(t)
  }

  predicate Tokens(texts: seq<string>)
  {
    forall k :: 0 <= k < |texts| ==> Token(texts[k])
  }

  predicate ContestFields(c: Contest)
  {
    Field(c.location) && LastField(c.date)
  }

  predicate SkaterFields(s: Skater)
  {
    Field(s.name) && Field(s.stance) && Field(s.nationality) && LastField(s.gender)
  }

  /** The tag and the data around the line's only ':'. */
  lemma {:induction false} SplitAtColon(tag: string, rest: string)
    requires ':' !in tag && ':' !in rest && rest != ""
    ensures Split(tag + ":" + rest, ":") == [tag, rest]
  {
    assert Join([tag, rest], ":") == tag + ":" + rest;
    SplitOfJoin([tag, rest], ":");
  }

  /** A line with exactly one ':' is dispatched on its tag with the trimmed rest as data. */
  lemma {:induction false} ParseSplitLine(tag: string, data: string)
    requires ':' !in tag && ':' !in data && data != "" && Trimmed(tag)
    ensures ParseLine(tag + ":" + data) == ParseData(tag, Trim(data))
  {
    SplitAtColon(tag, data);
    TrimOfTrimmed(tag);
  }

  /** A line written as "<tag>: <data>" with data that starts and ends with a visible character. */
  lemma {:induction false} ParseTaggedLine(tag: string, x: string)
    requires ':' !in tag && ':' !in x && Trimmed(tag) && Trimmed(x)
    ensures ParseLine(tag + ": " + x) == ParseData(tag, x)
  {
    assert tag + ": " + x == tag + ":" + (" " + x);
    TrimSpaced(x);
    ParseSplitLine(tag, " " + x);
  }

  /** Fields joined by ", " start with the first field (or the ',') and end with the last. */
  lemma LeadingFieldTrimmed(a: string, b: string)
    requires Trimmed(a) && |b| > 0 && !Trimmable(b[|b| - 1])
    ensures Trimmed(a + ", " + b)
  {
    var x := a + ", " + b;
    if |a| > 0 { assert x[0] == a[0]; } else { assert x[0] == ','; }
    assert x[|x| - 1] == b[|b| - 1];
  }

  lemma {:induction false} DestinationDataParses(c: Contest)
    requires ContestFields(c)
    ensures ParseDestination(DestinationData(c)) == DestinationRecord(c.location, c.date)
  {
    var fields := [c.location, " " + c.date];
    assert DestinationData(c) == Join(fields, ",");
    SplitOfJoin(fields, ",");
    TrimOfTrimmed(c.location);
    TrimSpaced(c.date);
  }

  lemma {:induction false} DestinationLineParses(c: Contest)
    requires ContestFields(c)
    ensures ParseLine(DestinationLine(c)) == DestinationRecord(c.location, c.date)
  {
    LeadingFieldTrimmed(c.location, c.date);
    var line := DestinationLine(c);
    assert line == "Destination" + ": " + DestinationData(c);
    ParseTaggedLine("Destination", DestinationData(c));
    assert ParseLine(line) == ParseData("Destination", DestinationData(c));
    DestinationDataParses(c);
  }

  lemma JoinFour(f: seq<string>, sep: string)
    requires |f| == 4
    ensures Join(f, sep) == f[0] + sep + f[1] + sep + f[2] + sep + f[3]
  {
    assert Join(f[3..], sep) == f[3];
    assert Join(f[2..], sep) == f[2] + sep + f[3];
    assert Join(f[1..], sep) == f[1] + sep + (f[2] + sep + f[3]);
  }

  lemma {:induction false} SkaterDataParses(s: Skater)
    requires SkaterFields(s)
    ensures ParseSkater(SkaterData(s)) == SkaterRecord(s.name, s.stance, s.nationality, s.gender)
  {
    SkaterDataSplits(s);
    TrimOfTrimmed(s.name);
    TrimSpaced(s.stance);
    TrimSpaced(s.nationality);
    TrimSpaced(s.gender);
  }

  lemma SkaterDataSplits(s: Skater)
    requires SkaterFields(s)
    ensures Split(SkaterData(s), ",") == [s.name, " " + s.stance, " " + s.nationality, " " + s.gender]
  {
    var fields := [s.name, " " + s.stance, " " + s.nationality, " " + s.gender];
    JoinFour(fields, ",");
    assert SkaterData(s) == Join(fields, ",");
    SplitOfJoin(fields, ",");
  }

  lemma {:induction false} SkaterLineParses(s: Skater)
    requires SkaterFields(s)
    ensures ParseLine(SkaterLine(s)) == SkaterRecord(s.name, s.stance, s.nationality, s.gender)
  {
    var tail := s.stance + ", " + s.nationality + ", " + s.gender;
    assert SkaterData(s) == s.name + ", " + tail;
    LeadingFieldTrimmed(s.name, tail);
    var line := SkaterLine(s);
    assert line == "Skater" + ": " + SkaterData(s);
    ParseTaggedLine("Skater", SkaterData(s));
    assert ParseLine(line) == ParseData("Skater", SkaterData(s));
    SkaterDataParses(s);
  }

  /** The list text between its brackets splits back into the values. */
  lemma {:induction false} ScoreListParses(texts: seq<string>)
    requires |texts| > 0 && Tokens(texts)
    ensures var list := ScoreList(texts); |list| >= 2 && Split(list[1..|list| - 1], ", ") == texts
  {
    var list := ScoreList(texts);
    assert list[1..|list| - 1] == Join(texts, ", ");
    assert Separable(texts, ", ") by {
      forall k | 0 <= k < |texts| ensures ", "[0] !in texts[k] { assert Token(texts[k]); }
    }
    SplitOfJoin(texts, ", ");
  }

  lemma {:induction false} ScoresDataParses(name: string, location: string, texts: seq<string>)
    requires Field(name) && Field(location) && |texts| > 0 && Tokens(texts)
    ensures ParseScores(ScoresData(name, location, texts)) == ScoresRecord(name, location, texts)
  {
    var list := ScoreList(texts);
    var rest := (" " + location) + "," + (" " + list);
    assert ScoresData(name, location, texts) == name + "," + rest;
    SplitLimitStep(name, ",", rest, 3);
    SplitLimitStep(" " + location, ",", " " + list, 2);
    assert SplitLimit(" " + list, ",", 1) == [" " + list];
    TrimOfTrimmed(name);
    TrimSpaced(location);
    TrimSpaced(list);
    ScoreListParses(texts);
  }

  lemma {:induction false} ScoresLineParses(name: string, location: string, texts: seq<string>)
    requires Field(name) && Field(location) && |texts| > 0 && Tokens(texts)
    ensures ParseLine(ScoresLine(name, location, texts)) == ScoresRecord(name, location, texts)
  {
    var x := ScoresData(name, location, texts);
    assert ':' !in x by { JoinAvoids(texts, ", ", ':'); }
    var tail := location + ", " + ScoreList(texts);
    assert x == name + ", " + tail;
    LeadingFieldTrimmed(name, tail);
    var line := ScoresLine(name, location, texts);
    assert line == "Scores" + ": " + x;
    ParseTaggedLine("Scores", x);
    assert ParseLine(line) == ParseData("Scores", x);
    ScoresDataParses(name, location, texts);
  }

  /** A character in none of the parts nor the separator is not in their join. */
  lemma {:induction false} JoinAvoids(parts: seq<string>, sep: string, c: char)
    requires c !in sep && forall k :: 0 <= k < |parts| ==> c !in parts[k]
    ensures c !in Join(parts, sep)
  {
    if |parts| > 1 {
      JoinAvoids(parts[1..], sep, c);
    }
  }

  /** A line without ':' is an index error at `parts[1]`. */
  lemma NoColonCrashes(line: string)
    requires ':' !in line
    ensures ParseLine(line) == Crash(MissingField)
  {
    SplitWithout(line, ':');
  }

  /** An unknown tag is reported trimmed and without ':'. */
  lemma UnknownTagIsClean(line: string)
    requires ParseLine(line).UnknownTag?
    ensures CleanOf(ParseLine(line).tag, ':')
  {
    TrimmedPiece(Split(line, ":")[0], ':');
  }

  /** Destination or Skater data without ',' is an index error at the second field. */
  lemma NoCommaCrashes(data: string)
    requires ',' !in data
    ensures ParseDestination(data) == Crash(MissingField)
    ensures ParseSkater(data) == Crash(MissingField)
  {
    SplitWithout(data, ',');
  }

  /** The fields of a parsed Destination are trimmed and hold no ','. */
  lemma DestinationFieldsClean(data: string)
    requires ParseDestination(data).DestinationRecord?
    ensures var r := ParseDestination(data); CleanOf(r.location, ',') && CleanOf(r.date, ',')
  {
    var fields := Split(data, ",");
    TrimmedPiece(fields[0], ',');
    TrimmedPiece(fields[1], ',');
  }

  /** The fields of a parsed Skater are trimmed and hold no ','. */
  lemma SkaterFieldsClean(data: string)
    requires ParseSkater(data).SkaterRecord?
    ensures var r := ParseSkater(data);
            CleanOf(r.name, ',') && CleanOf(r.stance, ',') && CleanOf(r.nationality, ',') && CleanOf(r.gender, ',')
  {
    var fields := Split(data, ",");
    TrimmedPiece(fields[0], ',');
    TrimmedPiece(fields[1], ',');
    TrimmedPiece(fields[2], ',');
    TrimmedPiece(fields[3], ',');
  }

  /**
   * The name and location of a parsed Scores line are trimmed and hold no ',';
   * no value text holds ", ".
   */
  lemma ScoresFieldsClean(data: string)
    requires ParseScores(data).ScoresRecord?
    ensures var r := ParseScores(data);
            CleanOf(r.name, ',') && CleanOf(r.location, ',') &&
            forall k :: 0 <= k < |r.texts| ==> IndexOf(r.texts[k], ", ").None?
  {
    var fields := SplitLimit(data, ",", 3);
    TrimmedPiece(fields[0], ',');
    TrimmedPiece(fields[1], ',');
  }

  /** Scores data with fewer than two ',' is reported as malformed. */
  lemma FewCommasIsMalformed(data: string)
    requires Count(data, ',') < 2
    ensures ParseScores(data) == MalformedScores(data)
  {
    SplitLimitPieces(data, ',', 3);
    assert "," == [','];
  }

  /** A Scores line whose data holds fewer than two ',' is reported and skipped. */
  lemma {:induction false} ScoresWithFewCommasIsMalformed(data: string)
    requires |data| > 0 && ':' !in data && Count(data, ',') < 2
    ensures ParseLine("Scores:" + data) == MalformedScores(Trim(data))
  {
    assert "Scores:" + data == "Scores" + ":" + data;
    ParseSplitLine("Scores", data);
    assert ParseData("Scores", Trim(data)) == ParseScores(Trim(data));
    TrimCount(data, ',');
    FewCommasIsMalformed(Trim(data));
  }

  /** A line whose tag is none of the three record types is reported and skipped. */
  lemma {:induction false} OtherTagIsUnknown(tag: string, data: string)
    requires ':' !in tag && ':' !in data && data != ""
    requires Trim(tag) != "Destination" && Trim(tag) != "Skater" && Trim(tag) != "Scores"
    ensures ParseLine(tag + ":" + data) == UnknownTag(Trim(tag))
  {
    SplitAtColon(tag, data);
  }
}
