/**
 * What the file format promises across a save and a load: reading a file
 * splits into reading its parts one after another, the registries only grow
 * while a file is read, a line without ':' ends the load, and a file written
 * by `saveDataToFile` reads back as the registries it was written from (less
 * the score arrays that were never written).
 */
module RoundTrip {
  import opened Wrappers
  import opened JavaString
  import opened Registry
  import opened LineFormat
  import opened MainMenu

  /** A load result read from line `offset` on: exception positions move by `offset`. */
  function Shifted(r: LoadResult, offset: nat): LoadResult
  {
    match r.status
    case Completed => r
    case Aborted(line, reason) => LoadResult(r.tables, Aborted(line + offset, reason))
  }

  lemma ApplySnoc(t: Tables, rs: seq<Record>, r: Record, p: string -> bool)
    ensures Apply(t, rs + [r], p) == Step(Apply(t, rs, p), r, |rs|, p)
  {
    assert (rs + [r])[..|rs|] == rs;
  }

  lemma {:induction false} DecodeAppend(a: seq<string>, b: seq<string>)
    ensures Decode(a + b) == Decode(a) + Decode(b)
    decreases |b|
  {
    if b == [] {
      assert a + b == a;
    } else {
      var b', x := b[..|b| - 1], b[|b| - 1];
      assert (a + b)[..|a + b| - 1] == a + b';
      DecodeAppend(a, b');
    }
  }

  /**
   * Applying `a + b` is applying `a`, then applying `b` to the registries `a`
   * left behind, unless `a` already ended the load.
   */
  lemma {:induction false} ApplyAppend(t: Tables, a: seq<Record>, b: seq<Record>, p: string -> bool)
    ensures Apply(t, a, p).status.Aborted? ==> Apply(t, a + b, p) == Apply(t, a, p)
    ensures Apply(t, a, p).status.Completed? ==>
              Apply(t, a + b, p) == Shifted(Apply(Apply(t, a, p).tables, b, p), |a|)
    decreases |b|
  {
    var u := Apply(t, a, p);
    if b == [] {
      assert a + b == a;
    } else {
      var b', x := b[..|b| - 1], b[|b| - 1];
      assert a + b == (a + b') + [x];
      assert b == b' + [x];
      ApplyAppend(t, a, b', p);
      ApplySnoc(t, a + b', x, p);
      if u.status.Completed? {
        ApplySnoc(u.tables, b', x, p);
      }
    }
  }

  /**
   * Reading `a + b` is reading `a`, then reading `b` into the registries `a`
   * left behind, unless `a` already ended the load.
   */
  lemma LoadAppend(t: Tables, a: seq<string>, b: seq<string>, p: string -> bool)
    ensures Load(t, a, p).status.Aborted? ==> Load(t, a + b, p) == Load(t, a, p)
    ensures Load(t, a, p).status.Completed? ==>
              Load(t, a + b, p) == Shifted(Load(Load(t, a, p).tables, b, p), |a|)
  {
    DecodeAppend(a, b);
    ApplyAppend(t, Decode(a), Decode(b), p);
  }

  /** The registries as a prefix-preserving extension of earlier ones. */
  predicate Grown(before: Tables, after: Tables)
  {
    |before.contests| <= |after.contests| && after.contests[..|before.contests|] == before.contests &&
    |before.skaters| <= |after.skaters| &&
    forall i :: 0 <= i < |before.skaters| ==> SameProfile(after.skaters[i], before.skaters[i])
  }

  lemma GrownTransitive(a: Tables, b: Tables, c: Tables)
    requires Grown(a, b) && Grown(b, c)
    ensures Grown(a, c)
  {
    assert c.contests[..|b.contests|][..|a.contests|] == c.contests[..|a.contests|];
  }

  /** One line never removes a contest or a skater, nor changes a skater's details. */
  lemma ApplyRecordGrows(t: Tables, r: Record, p: string -> bool)
    ensures ApplyRecord(t, r, p).Success? ==> Grown(t, ApplyRecord(t, r, p).value)
  {
    if r.DestinationRecord? {
      assert (t.contests + [Contest(r.location, r.date)])[..|t.contests|] == t.contests;
    }
  }

  lemma {:induction false} ApplyGrows(t: Tables, rs: seq<Record>, p: string -> bool)
    ensures Grown(t, Apply(t, rs, p).tables)
    decreases |rs|
  {
    if rs == [] {
      assert t.contests[..|t.contests|] == t.contests;
    } else {
      var before := Apply(t, rs[..|rs| - 1], p);
      ApplyGrows(t, rs[..|rs| - 1], p);
      if before.status.Completed? {
        var r := rs[|rs| - 1];
        ApplyRecordGrows(before.tables, r, p);
        if ApplyRecord(before.tables, r, p).Success? {
          GrownTransitive(t, before.tables, ApplyRecord(before.tables, r, p).value);
        }
      }
    }
  }

  /** Reading a file never removes a contest or a skater, nor changes a skater's details. */
  lemma LoadGrows(t: Tables, lines: seq<string>, p: string -> bool)
    ensures Grown(t, Load(t, lines, p).tables)
  {
    ApplyGrows(t, Decode(lines), p);
  }

  /** A line without ':' ends the load right there, with the registries as they were. */
  lemma NoColonEndsLoad(t: Tables, a: seq<string>, line: string, b: seq<string>, p: string -> bool)
    requires Load(t, a, p).status.Completed? && ':' !in line
    ensures Load(t, a + [line] + b, p) == LoadResult(Load(t, a, p).tables, Aborted(|a|, MissingField))
  {
    NoColonLineEndsLoad(t, a, line, p);
    LoadAppend(t, a + [line], b, p);
  }

  lemma NoColonLineEndsLoad(t: Tables, a: seq<string>, line: string, p: string -> bool)
    requires Load(t, a, p).status.Completed? && ':' !in line
    ensures Load(t, a + [line], p) == LoadResult(Load(t, a, p).tables, Aborted(|a|, MissingField))
  {
    NoColonCrashes(line);
    DecodeAppend(a, [line]);
    ApplySnoc(t, Decode(a), Crash(MissingField), p);
  }

  /**
   * A record the loader reports and skips: a Scores line with fewer than
   * three fields, an unknown tag, or a Scores line whose skater or contest is
   * not registered.
   */
  predicate Ignored(t: Tables, r: Record, p: string -> bool)
  {
    r.MalformedScores? || r.UnknownTag? ||
    (r.ScoresRecord? && AllParse(r.texts, p) &&
     (FindSkater(t.skaters, r.name).None? || FindContest(t.contests, r.location).None?))
  }

  /** Reading a skipped line changes neither registry and does not end the load. */
  lemma IgnoredLineChangesNothing(t: Tables, a: seq<string>, line: string, p: string -> bool)
    requires Load(t, a, p).status.Completed? && Ignored(Load(t, a, p).tables, ParseLine(line), p)
    ensures Load(t, a + [line], p) == Load(t, a, p)
  {
    var before := Load(t, a, p);
    DecodeAppend(a, [line]);
    assert Decode([line]) == [ParseLine(line)] by { assert [line][..0] == []; }
    ApplySnoc(t, Decode(a), ParseLine(line), p);
    StepIgnored(before, ParseLine(line), |a|, p);
  }

  lemma StepIgnored(before: LoadResult, r: Record, index: nat, p: string -> bool)
    requires before.status.Completed? && Ignored(before.tables, r, p)
    ensures Step(before, r, index, p) == before
  {
  }

  /**
   * A Scores record whose values all parse and whose skater and contest are
   * found records its values, one per token, for that skater and contest;
   * no other skater, no other contest of that skater, and no contest changes.
   */
  lemma ScoresAttach(t: Tables, name: string, location: string, texts: seq<string>, p: string -> bool)
    requires AllParse(texts, p)
    requires FindSkater(t.skaters, name).Some? && FindContest(t.contests, location).Some?
    ensures var i, k := FindSkater(t.skaters, name).value, FindContest(t.contests, location).value;
            var r := ApplyRecord(t, ScoresRecord(name, location, texts), p);
            r.Success? && r.value.contests == t.contests && |r.value.skaters| == |t.skaters| &&
            r.value.skaters[i].GetScores(t.contests[k]) == Some(texts) &&
            SameProfile(r.value.skaters[i], t.skaters[i]) &&
            (forall d :: d != t.contests[k] ==> r.value.skaters[i].GetScores(d) == t.skaters[i].GetScores(d)) &&
            forall j :: 0 <= j < |t.skaters| && j != i ==> r.value.skaters[j] == t.skaters[j]
  {
  }

  /** The records of the Destination section. */
  function DestinationRecords(cs: seq<Contest>): seq<Record>
  {
    if cs == [] then []
    else DestinationRecords(cs[..|cs| - 1]) + [DestinationRecord(cs[|cs| - 1].location, cs[|cs| - 1].date)]
  }

  lemma {:induction false} DecodeDestinations(cs: seq<Contest>)
    requires forall i :: 0 <= i < |cs| ==> ContestFields(cs[i])
    ensures Decode(DestinationLines(cs)) == DestinationRecords(cs)
    decreases |cs|
  {
    if cs != [] {
      var cs', c := cs[..|cs| - 1], cs[|cs| - 1];
      DecodeDestinations(cs');
      DestinationLineParses(c);
      var lines := DestinationLines(cs);
      assert lines[..|lines| - 1] == DestinationLines(cs');
    }
  }

  /** Applying the Destination section appends its contests, in file order. */
  lemma {:induction false} ApplyDestinations(t: Tables, cs: seq<Contest>, p: string -> bool)
    ensures Apply(t, DestinationRecords(cs), p) == LoadResult(t.(contests := t.contests + cs), Completed)
    decreases |cs|
  {
    if cs != [] {
      var cs', c := cs[..|cs| - 1], cs[|cs| - 1];
      ApplyDestinations(t, cs', p);
      ApplySnoc(t, DestinationRecords(cs'), DestinationRecord(c.location, c.date), p);
      assert t.contests + cs' + [c] == t.contests + cs;
    }
  }

  /** Loading the Destination section appends its contests, in file order. */
  lemma LoadDestinations(t: Tables, cs: seq<Contest>, p: string -> bool)
    requires forall i :: 0 <= i < |cs| ==> ContestFields(cs[i])
    ensures Load(t, DestinationLines(cs), p) == LoadResult(t.(contests := t.contests + cs), Completed)
  {
    DecodeDestinations(cs);
    ApplyDestinations(t, cs, p);
  }

  /**
   * A skater as reloaded, given the contests whose Scores lines have been
   * read: the saved details, and of the score arrays only the non-empty ones
   * for those contests.
   */
  function Kept(s: Skater, cs: seq<Contest>): (r: Skater)
    ensures SameProfile(r, s)
    ensures forall c :: r.GetScores(c) == (if c in cs && HasScores(s, c) then s.GetScores(c) else None)
  {
    s.(scores := map c | c in s.scores && c in cs && |s.scores[c]| > 0 :: s.scores[c])
  }

  /** Every skater of `ss`, kept for the contests `cs`. */
  function AllKept(ss: seq<Skater>, cs: seq<Contest>): (r: seq<Skater>)
    ensures |r| == |ss| && forall i :: 0 <= i < |ss| ==> r[i] == Kept(ss[i], cs)
  {
    seq(|ss|, i requires 0 <= i < |ss| => Kept(ss[i], cs))
  }

  /** The records of the Skater section. */
  function SkaterRecords(ss: seq<Skater>): seq<Record>
  {
    if ss == [] then []
    else
      var s := ss[|ss| - 1];
      SkaterRecords(ss[..|ss| - 1]) + [SkaterRecord(s.name, s.stance, s.nationality, s.gender)]
  }

  lemma {:induction false} DecodeSkaters(ss: seq<Skater>)
    requires forall i :: 0 <= i < |ss| ==> SkaterFields(ss[i])
    ensures Decode(SkaterLines(ss)) == SkaterRecords(ss)
    decreases |ss|
  {
    if ss != [] {
      var ss', s := ss[..|ss| - 1], ss[|ss| - 1];
      DecodeSkaters(ss');
      SkaterLineParses(s);
      var lines := SkaterLines(ss);
      assert lines[..|lines| - 1] == SkaterLines(ss');
    }
  }

  lemma {:induction false} ApplySkaters(t: Tables, ss: seq<Skater>, p: string -> bool)
    ensures Apply(t, SkaterRecords(ss), p) == LoadResult(t.(skaters := t.skaters + AllKept(ss, [])), Completed)
    decreases |ss|
  {
    if ss != [] {
      var ss', s := ss[..|ss| - 1], ss[|ss| - 1];
      ApplySkaters(t, ss', p);
      ApplySnoc(t, SkaterRecords(ss'), SkaterRecord(s.name, s.stance, s.nationality, s.gender), p);
      assert Kept(s, []) == NewSkater(s.name, s.stance, s.nationality, s.gender) by {
        assert Kept(s, []).scores == map[];
      }
      assert t.skaters + AllKept(ss', []) + [Kept(s, [])] == t.skaters + AllKept(ss, []);
    }
  }

  /** Loading the Skater section appends its skaters, with no scores yet. */
  lemma LoadSkaters(t: Tables, ss: seq<Skater>, p: string -> bool)
    requires forall i :: 0 <= i < |ss| ==> SkaterFields(ss[i])
    ensures Load(t, SkaterLines(ss), p) == LoadResult(t.(skaters := t.skaters + AllKept(ss, [])), Completed)
  {
    DecodeSkaters(ss);
    ApplySkaters(t, ss, p);
  }

  /** No two contests share a location. */
  predicate UniqueLocations(cs: seq<Contest>)
  {
    forall i, j :: 0 <= i < j < |cs| ==> cs[i].location != cs[j].location
  }

  /** No two skaters share a name. */
  predicate UniqueNames(ss: seq<Skater>)
  {
    forall i, j :: 0 <= i < j < |ss| ==> ss[i].name != ss[j].name
  }

  /**
   * Registries the file format can carry: every field survives its line,
   * lookups by name find the entry they were written from, and every
   * written score reads back as a number.
   */
  predicate WellFormed(cs: seq<Contest>, ss: seq<Skater>, p: string -> bool)
  {
    (forall k :: 0 <= k < |cs| ==> ContestFields(cs[k])) &&
    (forall i :: 0 <= i < |ss| ==> SkaterFields(ss[i])) &&
    UniqueLocations(cs) && UniqueNames(ss) &&
    forall i, k :: 0 <= i < |ss| && 0 <= k < |cs| && HasScores(ss[i], cs[k]) ==>
      Tokens(ss[i].GetScores(cs[k]).value) && AllParse(ss[i].GetScores(cs[k]).value, p)
  }

  /**
   * The skaters part-way through the Scores lines of contest `cs[k]`: those
   * before `j` have the contests up to and including `cs[k]`, the others
   * only those before it.
   */
  function Stage(ss: seq<Skater>, cs: seq<Contest>, k: nat, j: nat): (r: seq<Skater>)
    requires k < |cs|
    ensures |r| == |ss|
  {
    seq(|ss|, i requires 0 <= i < |ss| => if i < j then Kept(ss[i], cs[..k + 1]) else Kept(ss[i], cs[..k]))
  }

  /** A contest whose array is absent or empty is not kept. */
  lemma KeptWithout(s: Skater, cs: seq<Contest>, k: nat)
    requires k < |cs| && !HasScores(s, cs[k])
    ensures Kept(s, cs[..k + 1]) == Kept(s, cs[..k])
  {
    var c := cs[k];
    assert forall d :: d in cs[..k + 1] <==> d in cs[..k] || d == c;
    assert Kept(s, cs[..k + 1]).scores == Kept(s, cs[..k]).scores;
  }

  /** Recording the array of `cs[k]` keeps one more contest. */
  lemma KeptWith(s: Skater, cs: seq<Contest>, k: nat)
    requires k < |cs| && HasScores(s, cs[k])
    ensures Kept(s, cs[..k]).AddScores(cs[k], s.GetScores(cs[k]).value) == Kept(s, cs[..k + 1])
  {
    var c := cs[k];
    assert forall d :: d in cs[..k + 1] <==> d in cs[..k] || d == c;
    assert Kept(s, cs[..k]).AddScores(c, s.GetScores(c).value).scores == Kept(s, cs[..k + 1]).scores;
  }

  /** The record of the Scores line of one (contest, skater) pair, if there is one. */
  function ScoreRecord(c: Contest, s: Skater): seq<Record>
  {
    if HasScores(s, c) then [ScoresRecord(s.name, c.location, s.GetScores(c).value)] else []
  }

  function ContestScoreRecords(c: Contest, ss: seq<Skater>): seq<Record>
  {
    if ss == [] then []
    else ContestScoreRecords(c, ss[..|ss| - 1]) + ScoreRecord(c, ss[|ss| - 1])
  }

  function ScoreRecords(cs: seq<Contest>, ss: seq<Skater>): seq<Record>
  {
    if cs == [] then []
    else ScoreRecords(cs[..|cs| - 1], ss) + ContestScoreRecords(cs[|cs| - 1], ss)
  }

  lemma DecodeScoreLine(c: Contest, s: Skater)
    requires ContestFields(c) && SkaterFields(s)
    requires HasScores(s, c) ==> Tokens(s.GetScores(c).value)
    ensures Decode(ScoreLine(c, s)) == ScoreRecord(c, s)
  {
    if HasScores(s, c) {
      var line := ScoresLine(s.name, c.location, s.GetScores(c).value);
      ScoresLineParses(s.name, c.location, s.GetScores(c).value);
      assert [line][..0] == [];
    }
  }

  lemma WellFormedPair(cs: seq<Contest>, ss: seq<Skater>, p: string -> bool, k: nat, i: nat)
    requires WellFormed(cs, ss, p) && k < |cs| && i < |ss|
    ensures ContestFields(cs[k]) && SkaterFields(ss[i])
    ensures HasScores(ss[i], cs[k]) ==> Tokens(ss[i].GetScores(cs[k]).value) && AllParse(ss[i].GetScores(cs[k]).value, p)
  {
  }

  lemma {:induction false} DecodeContestScores(cs: seq<Contest>, ss: seq<Skater>, k: nat, j: nat, p: string -> bool)
    requires WellFormed(cs, ss, p) && k < |cs| && j <= |ss|
    ensures Decode(ContestScoreLines(cs[k], ss[..j])) == ContestScoreRecords(cs[k], ss[..j])
  {
    if j > 0 {
      assert ss[..j][..j - 1] == ss[..j - 1];
      DecodeContestScores(cs, ss, k, j - 1, p);
      DecodeAppend(ContestScoreLines(cs[k], ss[..j - 1]), ScoreLine(cs[k], ss[j - 1]));
      WellFormedPair(cs, ss, p, k, j - 1);
      DecodeScoreLine(cs[k], ss[j - 1]);
    }
  }

  lemma {:induction false} DecodeScores(cs: seq<Contest>, ss: seq<Skater>, k: nat, p: string -> bool)
    requires WellFormed(cs, ss, p) && k <= |cs|
    ensures Decode(ScoreLines(cs[..k], ss)) == ScoreRecords(cs[..k], ss)
  {
    if k > 0 {
      assert cs[..k][..k - 1] == cs[..k - 1];
      DecodeScores(cs, ss, k - 1, p);
      DecodeAppend(ScoreLines(cs[..k - 1], ss), ContestScoreLines(cs[k - 1], ss));
      assert ss[..|ss|] == ss;
      DecodeContestScores(cs, ss, k - 1, |ss|, p);
    }
  }

  /** With unique names, looking a skater's name up finds that skater. */
  lemma FindsUniqueSkater(skaters: seq<Skater>, j: nat)
    requires UniqueNames(skaters) && j < |skaters|
    ensures FindSkater(skaters, skaters[j].name) == Some(j)
  {
  }

  /** With unique locations, looking a contest's location up finds that contest. */
  lemma FindsUniqueContest(contests: seq<Contest>, k: nat)
    requires UniqueLocations(contests) && k < |contests|
    ensures FindContest(contests, contests[k].location) == Some(k)
  {
  }

  /** Recording `ss[j]`'s array for `cs[k]` on the stage moves it on by one skater. */
  lemma StageStep(ss: seq<Skater>, cs: seq<Contest>, k: nat, j: nat)
    requires k < |cs| && j < |ss| && HasScores(ss[j], cs[k])
    ensures var before := Stage(ss, cs, k, j);
            before[j := before[j].AddScores(cs[k], ss[j].GetScores(cs[k]).value)] == Stage(ss, cs, k, j + 1)
  {
    KeptWith(ss[j], cs, k);
  }

  /** The Scores record of skater `ss[j]` for contest `cs[k]` advances the stage by one skater. */
  lemma ApplyScoreRecord(cs: seq<Contest>, ss: seq<Skater>, k: nat, j: nat, p: string -> bool)
    requires WellFormed(cs, ss, p) && k < |cs| && j < |ss|
    ensures Apply(Tables(cs, Stage(ss, cs, k, j)), ScoreRecord(cs[k], ss[j]), p)
         == LoadResult(Tables(cs, Stage(ss, cs, k, j + 1)), Completed)
  {
    var c, s := cs[k], ss[j];
    var before := Stage(ss, cs, k, j);
    if HasScores(s, c) {
      var arr := s.GetScores(c).value;
      var t := Tables(cs, before);
      var rec := ScoresRecord(s.name, c.location, arr);
      assert ScoreRecord(c, s) == [rec];
      WellFormedPair(cs, ss, p, k, j);
      assert UniqueNames(before) by {
        assert forall i :: 0 <= i < |ss| ==> before[i].name == ss[i].name;
      }
      FindsUniqueSkater(before, j);
      FindsUniqueContest(cs, k);
      ApplyFoundScores(t, j, k, s.name, c.location, arr, p);
      ApplySnoc(t, [], rec, p);
      assert [] + [rec] == [rec];
      StageStep(ss, cs, k, j);
    } else {
      KeptWithout(s, cs, k);
      assert before == Stage(ss, cs, k, j + 1);
    }
  }

  /** A parsable Scores record whose skater and contest are found updates that skater alone. */
  lemma ApplyFoundScores(t: Tables, i: nat, k: nat, name: string, location: string, texts: seq<string>, p: string -> bool)
    requires AllParse(texts, p)
    requires FindSkater(t.skaters, name) == Some(i) && FindContest(t.contests, location) == Some(k)
    ensures ApplyRecord(t, ScoresRecord(name, location, texts), p)
         == Success(t.(skaters := t.skaters[i := t.skaters[i].AddScores(t.contests[k], texts)]))
  {
  }

  /** Applying the Scores records of contest `cs[k]` for the first `j` skaters. */
  lemma {:induction false} ApplyContestScores(cs: seq<Contest>, ss: seq<Skater>, k: nat, j: nat, p: string -> bool)
    requires WellFormed(cs, ss, p) && k < |cs| && j <= |ss|
    ensures Apply(Tables(cs, Stage(ss, cs, k, 0)), ContestScoreRecords(cs[k], ss[..j]), p)
         == LoadResult(Tables(cs, Stage(ss, cs, k, j)), Completed)
  {
    if j > 0 {
      assert ss[..j][..j - 1] == ss[..j - 1];
      ApplyContestScores(cs, ss, k, j - 1, p);
      ApplyAppend(Tables(cs, Stage(ss, cs, k, 0)), ContestScoreRecords(cs[k], ss[..j - 1]), ScoreRecord(cs[k], ss[j - 1]), p);
      ApplyScoreRecord(cs, ss, k, j - 1, p);
    }
  }

  /** Applying the Scores records of the first `k` contests. */
  lemma {:induction false} ApplyScores(cs: seq<Contest>, ss: seq<Skater>, k: nat, p: string -> bool)
    requires WellFormed(cs, ss, p) && k <= |cs|
    ensures Apply(Tables(cs, AllKept(ss, [])), ScoreRecords(cs[..k], ss), p)
         == LoadResult(Tables(cs, AllKept(ss, cs[..k])), Completed)
  {
    if k == 0 {
      assert cs[..0] == [];
    } else {
      assert cs[..k][..k - 1] == cs[..k - 1];
      ApplyScores(cs, ss, k - 1, p);
      ApplyAppend(Tables(cs, AllKept(ss, [])), ScoreRecords(cs[..k - 1], ss), ContestScoreRecords(cs[k - 1], ss), p);
      StageBounds(ss, cs, k - 1);
      assert ss[..|ss|] == ss;
      ApplyContestScores(cs, ss, k - 1, |ss|, p);
    }
  }

  /** Before the Scores lines of `cs[k]` no skater has it; after them all have. */
  lemma StageBounds(ss: seq<Skater>, cs: seq<Contest>, k: nat)
    requires k < |cs|
    ensures Stage(ss, cs, k, 0) == AllKept(ss, cs[..k])
    ensures Stage(ss, cs, k, |ss|) == AllKept(ss, cs[..k + 1])
  {
  }

  /**
   * Save then load: the file written from well-formed registries reads back,
   * from empty registries, as the same contests and the same skaters, each
   * with exactly the non-empty score arrays it held for listed contests.
   */
  lemma SaveThenLoad(cs: seq<Contest>, ss: seq<Skater>, p: string -> bool)
    requires WellFormed(cs, ss, p)
    ensures Load(Tables([], []), Encode(cs, ss), p) == LoadResult(Tables(cs, AllKept(ss, cs)), Completed)
  {
    var dl, sl, scl := DestinationLines(cs), SkaterLines(ss), ScoreLines(cs, ss);
    assert forall k :: 0 <= k < |cs| ==> ContestFields(cs[k]);
    assert forall i :: 0 <= i < |ss| ==> SkaterFields(ss[i]);
    LoadRegistries(cs, ss, p);
    LoadScoreLines(cs, ss, p);
    LoadAppend(Tables([], []), dl + sl, scl, p);
  }

  /** The Destination and Skater sections rebuild both lists, with no scores yet. */
  lemma LoadRegistries(cs: seq<Contest>, ss: seq<Skater>, p: string -> bool)
    requires forall k :: 0 <= k < |cs| ==> ContestFields(cs[k])
    requires forall i :: 0 <= i < |ss| ==> SkaterFields(ss[i])
    ensures Load(Tables([], []), DestinationLines(cs) + SkaterLines(ss), p)
         == LoadResult(Tables(cs, AllKept(ss, [])), Completed)
  {
    var empty := Tables([], []);
    var dl, sl := DestinationLines(cs), SkaterLines(ss);
    LoadDestinations(empty, cs, p);
    assert empty.(contests := empty.contests + cs) == Tables(cs, []);
    LoadSkaters(Tables(cs, []), ss, p);
    assert Tables(cs, []).(skaters := [] + AllKept(ss, [])) == Tables(cs, AllKept(ss, []));
    LoadAppend(empty, dl, sl, p);
  }

  /** The Scores section then attaches every saved array. */
  lemma LoadScoreLines(cs: seq<Contest>, ss: seq<Skater>, p: string -> bool)
    requires WellFormed(cs, ss, p)
    ensures Load(Tables(cs, AllKept(ss, [])), ScoreLines(cs, ss), p)
         == LoadResult(Tables(cs, AllKept(ss, cs)), Completed)
  {
    assert cs[..|cs|] == cs;
    DecodeScores(cs, ss, |cs|, p);
    ApplyScores(cs, ss, |cs|, p);
  }

  /**
   * Every line the save writes holds no line break, so `Scanner.nextLine`
   * reads the file back as exactly these lines.
   */
  lemma SavedLinesAreLines(cs: seq<Contest>, ss: seq<Skater>, p: string -> bool)
    requires WellFormed(cs, ss, p)
    ensures forall line :: line in Encode(cs, ss) ==> OneLine(line)
  {
    var dl, sl, scl := DestinationLines(cs), SkaterLines(ss), ScoreLines(cs, ss);
    forall line | line in Encode(cs, ss) ensures OneLine(line) {
      if line in dl {
        var k :| 0 <= k < |dl| && dl[k] == line;
        DestinationLineOneLine(cs[k]);
      } else if line in sl {
        var i :| 0 <= i < |sl| && sl[i] == line;
        SkaterLineOneLine(ss[i]);
      } else {
        ScoresLineIsOneLine(cs, ss, p, line);
      }
    }
  }

  lemma ScoresLineIsOneLine(cs: seq<Contest>, ss: seq<Skater>, p: string -> bool, line: string)
    requires WellFormed(cs, ss, p) && line in ScoreLines(cs, ss)
    ensures OneLine(line)
  {
    ScoreLinesMembers(cs, ss, line);
    var k :| 0 <= k < |cs| && WrittenForSome(line, cs[k], ss);
    var i :| 0 <= i < |ss| && WrittenFor(line, cs[k], ss[i]);
    WellFormedPair(cs, ss, p, k, i);
    var c, s := cs[k], ss[i];
    ScoresLineOneLine(s.name, c.location, s.GetScores(c).value);
  }

  /** Every recorded array is non-empty and belongs to a listed contest. */
  predicate NothingUnsaved(cs: seq<Contest>, ss: seq<Skater>)
  {
    forall i, c :: 0 <= i < |ss| && c in ss[i].scores ==> c in cs && |ss[i].scores[c]| > 0
  }

  /** When nothing is left unsaved, loading the saved file restores the registries exactly. */
  lemma SaveThenLoadExact(cs: seq<Contest>, ss: seq<Skater>, p: string -> bool)
    requires WellFormed(cs, ss, p) && NothingUnsaved(cs, ss)
    ensures Load(Tables([], []), Encode(cs, ss), p) == LoadResult(Tables(cs, ss), Completed)
  {
    SaveThenLoad(cs, ss, p);
    AllKeptWhenNothingUnsaved(cs, ss);
  }

  /** Conversely, a save that loads back exactly left nothing unsaved. */
  lemma RestoredOnlyWhenNothingUnsaved(cs: seq<Contest>, ss: seq<Skater>, p: string -> bool)
    requires WellFormed(cs, ss, p)
    requires Load(Tables([], []), Encode(cs, ss), p) == LoadResult(Tables(cs, ss), Completed)
    ensures NothingUnsaved(cs, ss)
  {
    SaveThenLoad(cs, ss, p);
    assert AllKept(ss, cs) == ss;
    forall i, c | 0 <= i < |ss| && c in ss[i].scores ensures c in cs && |ss[i].scores[c]| > 0 {
      assert Kept(ss[i], cs) == ss[i];
      assert Kept(ss[i], cs).GetScores(c) == ss[i].GetScores(c);
    }
  }

  lemma AllKeptWhenNothingUnsaved(cs: seq<Contest>, ss: seq<Skater>)
    requires NothingUnsaved(cs, ss)
    ensures AllKept(ss, cs) == ss
  {
    forall i | 0 <= i < |ss| ensures Kept(ss[i], cs) == ss[i] {
      var s := ss[i];
      assert forall c :: c in s.scores ==> c in cs && |s.scores[c]| > 0;
      assert Kept(s, cs).scores == s.scores;
    }
  }
}
