# SLS2024 tournament file: a verified model of its persistence codec

SLS2024 is a console program that keeps a street-league tournament in memory:
contest stops (location and date), skaters (name, stance, nationality,
gender), and for each skater a score array per contest. Between runs it
keeps that state in a text file, one record per line:

    Destination: <location>, <date>
    Skater: <name>, <stance>, <nationality>, <gender>
    Scores: <name>, <location>, [<s1>, <s2>, ...]

This project models the part of `MainMenu.java` that reads and writes that
file:

- `loadDataFromFile` splits each line into a tag and its data. Destination and
  Skater records are appended to the registries. Scores records are attached to
  the skater and contest found by name and location.
- `saveDataToFile` writes every contest, then every skater, then every
  non-empty score array, contest by contest and skater by skater.
- `deleteOneContest` / `deleteOneSkater` turn a delete-menu choice into a
  registry index.

The project has six modules:

- `Wrappers`: `Option` for Java's `null`, `Result` for an uncaught exception.
- `JavaString`: the `java.lang.String` operations the codec relies on. These
  are `trim`, `indexOf`, `split` with limit 0 and with a positive limit, all
  for literal separators. `Join` is their inverse.
- `Registry`: `Contest` and `Skater` as values, and `ContestList` /
  `SkaterList` as classes whose sequence field the operations update. It
  covers only the calls the codec makes: 1-based `getContest`/`getSkater`,
  0-based `remove…`, appending `add…`, lookup by name, `addScores`, and
  `getScores`.
- `LineFormat`: the decoding of one line into a `Record`, and the three line
  renderings. Lemmas show that each rendering decodes back to its fields, and
  describe the lines that crash or are skipped.
- `MainMenu`: the specifications `Load` (decode every line, then apply the
  records in order) and `Encode` (the three sections). The imperative loops
  `LoadDataFromFile` and `SaveDataToFile` are proved to compute them.
  `ScoresArray`, the loop over the score texts, is proved to succeed exactly
  when every text parses (`AllParse`). The module also holds the
  delete-choice translation.
- `RoundTrip`: properties that span several lines. Reading splits at any point
  of the file. Registries only grow. A line without ':' ends the load. Skipped
  lines change nothing. Every saved line is a single line. Saving and then
  loading gives back the same contests and skaters, but each skater keeps only
  its non-empty arrays for listed contests (`SaveThenLoad`). The registries
  come back exactly when no other array exists: `SaveThenLoadExact` proves
  the "when" and `RestoredOnlyWhenNothingUnsaved` the "only when".

Decoding runs `Double.parseDouble` on each value. That check is the parameter
`parsesAsDouble`, and score values are kept as their text.

The loader does not catch unchecked exceptions, so they end the load. An
`ArrayIndexOutOfBoundsException` comes from indexing a `split` result that
is too short. A line made only of ':' characters splits into no parts, so
`parts[0]` fails (line 118); a line without ':' fails at `parts[1]` (line
119). Data made only of ',' characters fails at `contestData[0]` or
`skaterData[0]` (lines 124 and 130); data with too few commas fails at
`contestData[1]` (line 125) or `skaterData[1..3]` (lines 131-133). A `StringIndexOutOfBoundsException`
comes from `substring` on a score list shorter than two characters (line
148), and a `NumberFormatException` from `parseDouble` (line 151). The model
returns `Aborted(line, reason)` with the registries as they stood at that
point. A malformed line therefore ends the load. Only short Scores data,
unknown tags and unknown names are skipped.

## Model

| member | source | states |
|---|---|---|
| JavaString.TrimStart | MainMenu.java:118 | the first kept index: every character before it is at most U+0020, and the one at it is not |
| JavaString.TrimEnd | MainMenu.java:118 | the end of the kept range: every character after it is at most U+0020, and the last kept one is not |
| JavaString.Trim | MainMenu.java:118 | the result has no character at most U+0020 at either end, and is the input with such characters removed from both ends only |
| JavaString.TrimUnique | MainMenu.java:118 | any string that has no white space at either end and is the input stripped of white space at both ends is the result of `trim` |
| JavaString.TrimOfTrimmed | MainMenu.java:118 | trimming a string with no white space at either end returns it unchanged |
| JavaString.TrimAfterSpace | MainMenu.java:119 | a leading space does not change the result of `trim` |
| JavaString.TrimSpaced | MainMenu.java:119 | the space written after a separator disappears when the field is trimmed |
| JavaString.TrimCount | MainMenu.java:145 | trimming never adds an occurrence of a character |
| JavaString.IndexOf | MainMenu.java:117 | the result is the leftmost occurrence of the separator, and None means it does not occur |
| JavaString.NoOccurrence | MainMenu.java:117 | a string without the separator's first character has no occurrence of it |
| JavaString.NotFound | MainMenu.java:117 | a one-character separator that is not found is not in the string |
| JavaString.FirstOccurrence | MainMenu.java:117 | in `a + sep + b`, where `a` lacks the separator's first character, the first match is at `|a|` |
| JavaString.Pieces | MainMenu.java:117 | the pieces between separators, empty ones included, contain no separator and joined with it give back the input |
| JavaString.DropTrailingEmpty | MainMenu.java:123 | only trailing empty strings are removed, and the result does not end in one |
| JavaString.Split | MainMenu.java:117 | `split(sep)` is the whole string when the separator is absent, and otherwise the pieces without their trailing empty ones; no piece contains the separator |
| JavaString.SplitWithout | MainMenu.java:117-119 | splitting a string on a character it lacks gives the one-element array of the string |
| JavaString.SplitLimit | MainMenu.java:138 | `split(sep, limit)` yields between 1 and `limit` pieces, which join back to the input; no piece but the last contains the separator, and the last does not either when fewer than `limit` pieces come back |
| JavaString.PiecesOfJoin | MainMenu.java:148 | cutting a join of separator-free parts at every separator gives back the parts |
| JavaString.SplitOfJoin | MainMenu.java:148 | `split` undoes `Join` when no part contains the separator and the last part is non-empty or the only one |
| JavaString.SplitLimitStep | MainMenu.java:138 | with a limit of at least 2, a separator-free first part is split off and the rest is split with a limit one lower |
| JavaString.SplitLimitPieces | MainMenu.java:138-139 | `split(",", limit)` yields at most one more piece than there are commas |
| JavaString.TrimmedPiece | MainMenu.java:123-125 | a piece of a split, once trimmed, still lacks the separator and has no white space at either end |
| Registry.Skater.AddScores | MainMenu.java:161 | the array is recorded for that contest, replacing any earlier one, while the skater's other contests and details are unchanged |
| Registry.FindFirst | MainMenu.java:155-156 | the lookup by name or location gives the first entry with that key, or None exactly when no entry has it |
| Registry.FindContest | MainMenu.java:156 | no contract of its own: `getContestByName` is `FindFirst` keyed by location, and `FindsUniqueContest` gives the position of a contest with a unique location |
| Registry.FindSkater | MainMenu.java:155 | no contract of its own: `getSkaterByName` is `FindFirst` keyed by name, and `FindsUniqueSkater` gives the position of a skater with a unique name |
| Registry.Skater.GetScores | MainMenu.java:194 | no contract of its own: `getScores` gives the recorded array or None for null; `Skater.AddScores` states its value after a record, and `ScoreLine` and `ContestScoresToFile` rely on the null-and-empty test |
| Registry.NewSkater | MainMenu.java:135 | no contract of its own: a skater with the given details and an empty score book; `ApplySkaters` and `LoadSkaters` rely on that book being empty |
| Registry.ContestList.GetContest | MainMenu.java:180-182 | no contract of its own: the 1-based `getContest(i)`; `DestinationsToFile` and `ScoresToFile` rely on it to walk the contests in order |
| Registry.SkaterList.GetSkater | MainMenu.java:185-187 | no contract of its own: the 1-based `getSkater(j)`; `SkatersToFile` and `ContestScoresToFile` rely on it to walk the skaters in order |
| Registry.RemoveAt | MainMenu.java:515 | removal at a 0-based index keeps earlier entries and moves later entries down by one |
| Registry.ContestList.AddContest | MainMenu.java:126 | the contest is appended at the end |
| Registry.SkaterList.AddSkater | MainMenu.java:135 | the skater is appended at the end |
| Registry.ContestList.RemoveContest | MainMenu.java:515 | the registry becomes its old contents with that index removed |
| Registry.SkaterList.RemoveSkater | MainMenu.java:545 | the registry becomes its old contents with that index removed |
| Registry.SkaterList.AddScores | MainMenu.java:159-161 | only the skater at that position changes, and it gains the array for the contest |
| LineFormat.ParseLine | MainMenu.java:117-167 | no contract of its own (the split on ':' and the switch); `ParseSplitLine`, `ParseTaggedLine`, `NoColonCrashes`, `UnknownTagIsClean` and `OtherTagIsUnknown` state what it gives |
| LineFormat.ParseData | MainMenu.java:121-167 | the switch on the tag: a record of an unknown tag exactly when the tag is none of the three, and each record kind only from its own tag |
| LineFormat.ParseDestination | MainMenu.java:123-126 | Destination data gives a contest record or an index error, nothing else |
| LineFormat.ParseSkater | MainMenu.java:129-135 | Skater data gives a skater record or an index error, nothing else |
| LineFormat.ParseScores | MainMenu.java:138-151 | Scores data gives a scores record, is reported as malformed, or crashes in `substring` |
| LineFormat.SplitAtColon | MainMenu.java:117-119 | a line with exactly one ':' and non-empty data splits into tag and data |
| LineFormat.ParseSplitLine | MainMenu.java:117-121 | a line with one ':' is dispatched on its tag with its trimmed data |
| LineFormat.ParseTaggedLine | MainMenu.java:117-121 | `tag + ": " + data` with trimmed data is dispatched on that tag and data |
| LineFormat.NoColonCrashes | MainMenu.java:117-119 | a line without ':' has no `parts[1]` and crashes with an index error |
| LineFormat.UnknownTagIsClean | MainMenu.java:117-118 | an unknown tag holds no ':' and has no white space at either end |
| LineFormat.NoCommaCrashes | MainMenu.java:123-133 | Destination or Skater data without a comma crashes with an index error |
| LineFormat.DestinationFieldsClean | MainMenu.java:123-125 | a decoded location and date hold no ',' and have no white space at either end |
| LineFormat.SkaterFieldsClean | MainMenu.java:129-133 | the four decoded skater fields hold no ',' and have no white space at either end |
| LineFormat.ScoresFieldsClean | MainMenu.java:138-148 | a decoded name and location hold no ',' and are trimmed, and no score text holds ", " |
| LineFormat.FewCommasIsMalformed | MainMenu.java:138-142 | data with fewer than two commas is reported as malformed |
| LineFormat.ScoresWithFewCommasIsMalformed | MainMenu.java:137-142 | Scores data with fewer than two commas is reported as malformed |
| LineFormat.OtherTagIsUnknown | MainMenu.java:166-167 | a tag other than the three known ones is reported as unknown |
| LineFormat.ScoreList | MainMenu.java:196 | no contract of its own (`Arrays.toString` of the texts); `ScoreListParses` shows it parses back and `ScoreListOneLine` that it is one line when its values are |
| LineFormat.DestinationData | MainMenu.java:181-182 | no contract of its own; `DestinationDataParses` shows it splits back into location and date |
| LineFormat.SkaterData | MainMenu.java:186-187 | no contract of its own; `SkaterDataSplits` and `SkaterDataParses` show it splits back into the four fields |
| LineFormat.ScoresData | MainMenu.java:197 | no contract of its own; `ScoresDataParses` shows it splits back into name, location and values |
| LineFormat.DestinationLine | MainMenu.java:181-182 | no contract of its own; `DestinationLineParses` and `DestinationLineOneLine` state that it decodes to the contest and is one line |
| LineFormat.SkaterLine | MainMenu.java:186-187 | no contract of its own; `SkaterLineParses` and `SkaterLineOneLine` state that it decodes to the skater and is one line |
| LineFormat.ScoresLine | MainMenu.java:197 | no contract of its own; `ScoresLineParses` and `ScoresLineOneLine` state that it decodes to the name, location and values and is one line |
| LineFormat.LeadingFieldTrimmed | MainMenu.java:181-182 | a trimmed field, ", " and a non-empty field whose last character is above U+0020 form a trimmed string |
| LineFormat.DestinationDataParses | MainMenu.java:123-125 | the data written for a contest splits back into its location and date |
| LineFormat.DestinationLineParses | MainMenu.java:117-126 | a written Destination line decodes to a Destination record of that contest's location and date |
| LineFormat.SkaterDataSplits | MainMenu.java:129 | the data written for a skater splits at ',' into its name and its three other fields each behind a space |
| LineFormat.SkaterDataParses | MainMenu.java:129-133 | the data written for a skater splits back into its four fields |
| LineFormat.SkaterLineParses | MainMenu.java:117-135 | a written Skater line decodes to a Skater record of that skater's four fields |
| LineFormat.ScoreListParses | MainMenu.java:148 | stripping the brackets from a rendered list and splitting on ", " gives back the tokens, one score per token |
| LineFormat.ScoresDataParses | MainMenu.java:138-148 | the data written for a score array splits back into name, location and the tokens |
| LineFormat.ScoresLineParses | MainMenu.java:117-148 | a written Scores line decodes to a Scores record of that name, location and tokens |
| LineFormat.JoinAvoids | MainMenu.java:196 | a join of parts lacking a character, with a separator lacking it, lacks it too |
| LineFormat.DestinationLineOneLine | MainMenu.java:181-182 | a Destination line holds no line break exactly when its location and date hold none |
| LineFormat.SkaterLineOneLine | MainMenu.java:186-187 | a Skater line holds no line break exactly when none of its four fields does |
| LineFormat.ScoreListOneLine | MainMenu.java:196 | a rendered score list holds no line break exactly when none of its values does |
| LineFormat.ScoresLineOneLine | MainMenu.java:197 | a Scores line holds no line break exactly when its name, location and values hold none |
| LineFormat.JoinOneLine | MainMenu.java:196 | a join with a single-line separator is a single line exactly when every part is |
| MainMenu.ApplyRecord | MainMenu.java:121-168 | a record fails exactly when it is a crash, or a Scores record with a value that does not parse, and reports that exception |
| MainMenu.Decode | MainMenu.java:115-119 | one record per line; `DecodeLines` states that record i is the decoding of line i |
| MainMenu.DecodeLines | MainMenu.java:115-119 | the i-th record is the decoding of the i-th line |
| MainMenu.Step | MainMenu.java:115-168 | once aborted the load stays as it was, and a line that aborts it leaves the registries unchanged and names that line |
| MainMenu.Apply | MainMenu.java:115-168 | an aborted load names one of the records |
| MainMenu.Load | MainMenu.java:115-169 | an aborted load names one of the file's lines |
| MainMenu.LoadStopsAtCrash | MainMenu.java:115-169 | after the first uncaught exception no later line changes the registries or the outcome |
| MainMenu.ScoresArray | MainMenu.java:149-152 | the conversion succeeds exactly when every value parses, and then yields one value per token, in order |
| MainMenu.ApplyToRegistries | MainMenu.java:121-168 | the registries become what the line's record makes of them, or stay unchanged with the exception reported |
| MainMenu.LoadDataFromFile | MainMenu.java:107-173 | the registries and outcome after the read loop are those `Load` gives for the lines, starting from the registries as they were |
| MainMenu.DestinationLines | MainMenu.java:180-183 | one Destination line per contest, the i-th describing the i-th contest |
| MainMenu.SkaterLines | MainMenu.java:185-188 | one Skater line per skater, the i-th describing the i-th skater |
| MainMenu.ScoreLine | MainMenu.java:194-197 | a (contest, skater) pair gets one line exactly when its array is present and non-empty, and none otherwise |
| MainMenu.ContestScoreLines | MainMenu.java:192-200 | a contest gets at most one Scores line per skater |
| MainMenu.ScoreLines | MainMenu.java:190-201 | the Scores section has at most one line per (contest, skater) pair |
| MainMenu.Encode | MainMenu.java:180-201 | the file has a line per contest and per skater, plus at most one per (contest, skater) pair |
| MainMenu.ContestScoreLinesMembers | MainMenu.java:192-199 | a contest's Scores lines are exactly those of skaters with a present, non-empty array for it |
| MainMenu.ScoreLinesMembers | MainMenu.java:190-201 | the Scores section has a line for a (contest, skater) pair exactly when that array is present and non-empty |
| MainMenu.SaveDataToFile | MainMenu.java:177-205 | the lines printed are the Destination section, then the Skater section, then the Scores section |
| MainMenu.DestinationsToFile | MainMenu.java:180-183 | the contest loop prints `DestinationLines` of the registry |
| MainMenu.SkatersToFile | MainMenu.java:185-188 | the skater loop prints `SkaterLines` of the registry |
| MainMenu.ScoresToFile | MainMenu.java:190-201 | the nested loops print the Scores lines contest by contest |
| MainMenu.ContestScoresToFile | MainMenu.java:192-200 | the inner loop prints, skater by skater, the Scores lines of one contest |
| MainMenu.Selection | MainMenu.java:509-516 | choice 1 removes nothing, and any other choice in range removes an existing 0-based index, that of the entry listed as that option |
| MainMenu.AfterDelete | MainMenu.java:514-516 | an empty registry and choice 1 leave the entries as they are; any other choice removes exactly the entry at 1-based position `choice - 1`, the one listed as that option, and the others keep their order |
| MainMenu.DeleteOneContest | MainMenu.java:495-523 | an empty registry is left alone, and otherwise the registry loses the entry the choice selects |
| MainMenu.DeleteOneSkater | MainMenu.java:526-551 | an empty registry is left alone, and otherwise the registry loses the entry the choice selects |
| MainMenu.DeleteRemovesListedEntry | MainMenu.java:504-516 | option 1 keeps every entry, and the option listed beside position p removes exactly that entry while the others keep their order |
| RoundTrip.LoadAppend | MainMenu.java:115-169 | reading `a + b` is reading `a`, then reading `b` from where `a` left off, unless `a` already crashed |
| RoundTrip.ApplyRecordGrows | MainMenu.java:121-168 | one line never removes a contest or skater, nor changes a skater's details |
| RoundTrip.LoadGrows | MainMenu.java:115-169 | reading a file keeps every earlier contest in place and every earlier skater's details |
| RoundTrip.NoColonLineEndsLoad | MainMenu.java:117-119 | a line without ':' after a clean prefix aborts at that line, with the registries the prefix left |
| RoundTrip.NoColonEndsLoad | MainMenu.java:117-119 | a line without ':' ends the load at that line, with the registries as they were |
| RoundTrip.StepIgnored | MainMenu.java:139-167 | a skipped record leaves the load state unchanged |
| RoundTrip.IgnoredLineChangesNothing | MainMenu.java:137-167 | short Scores data, an unknown tag, or an unknown skater or contest changes neither registry |
| RoundTrip.ScoresAttach | MainMenu.java:155-161 | a parsable Scores record whose skater and contest are found records exactly its tokens for that pair, and nothing else changes |
| RoundTrip.LoadDestinations | MainMenu.java:122-126 | the Destination section appends its contests in file order |
| RoundTrip.LoadSkaters | MainMenu.java:128-135 | the Skater section appends its skaters in file order, with no scores |
| RoundTrip.LoadRegistries | MainMenu.java:115-135 | reading the Destination and Skater sections into empty registries completes with those contests and those skaters, holding no scores |
| RoundTrip.LoadScoreLines | MainMenu.java:137-161 | reading the Scores section then attaches to each skater exactly its non-empty arrays for listed contests |
| RoundTrip.SavedLinesAreLines | MainMenu.java:180-201 | every line the save writes for well-formed registries holds no line break, so the file reads back as those lines |
| RoundTrip.SaveThenLoad | MainMenu.java:107-205 | loading the saved file of well-formed registries into empty ones completes, with the same contests and the same skaters, each keeping exactly its non-empty arrays for listed contests |
| RoundTrip.RestoredOnlyWhenNothingUnsaved | MainMenu.java:107-205 | if save then load restores the registries exactly, every array was non-empty and for a listed contest |
| RoundTrip.SaveThenLoadExact | MainMenu.java:107-205 | when every array is non-empty and for a listed contest, save then load restores the registries exactly |

## Left out

- The menu loop, prompts, re-prompting, `nextInt` input errors and every printed message are left out. The reports "Invalid Scores data", "Skater or contest not found" and "Unknown data type" become silent skips.
- The regex validation of typed-in fields is left out. The round trip instead requires fields free of ',', ':' and line breaks and not starting or ending with white space, plus non-empty last fields (`WellFormed`).
- File handling is left out: `File.exists`, `createNewFile`, `Scanner`, `PrintWriter`, `FileWriter` and `IOException`. The file is its sequence of lines, and a missing file is an empty sequence. `Scanner.nextLine` splitting the text at line breaks is not modelled; instead `SavedLinesAreLines` shows that no saved line holds one of the breaks it splits at (`\n`, `\r`, U+0085, U+2028, U+2029), which is why `WellFormed` fields exclude them.
- `Double.parseDouble` and the formatting of `Double` values by `Arrays.toString` are left out because they are floating point. Values stay as text, and `parsesAsDouble` says which texts parse.
- `String.split` is modelled only for the literal separators the codec uses. Regex matching in general is not modelled.
- The internals of `ContestList`, `SkaterList`, `Contest`, `Skater` and `SkaterScore` are not part of this model. That includes their capacity of 8 and any behaviour beyond the calls listed above.
- The standings and high-score screens, and the unused `skaterScore` parameter, are left out.
- Registry.Skater.AddScores: score arrays are keyed by the contest's value (location and date), not by the identity of the `Contest` object.
- Registry.FindFirst: assumes `getContestByName` and `getSkaterByName` return the first exact match.
- MainMenu.LoadDataFromFile: an uncaught exception ends the program in Java, since it escapes the method. Here it ends the load with an `Aborted` status and the registries as they stood.
- Java strings are sequences of UTF-16 code units, while Dafny strings here are sequences of code points. The two differ on characters outside the Basic Multilingual Plane: for `Scores: a, b, [1.0😀` Java's `substring(1, length()-1)` (line 148) keeps the emoji's high surrogate, so `parseDouble` throws, whereas the model drops the whole emoji.
