/**
 * The tournament's entities and the two registries that hold them.  The
 * registry classes of the program (ContestList, SkaterList, Contest, Skater)
 * are not part of this model's sources; they are modelled only through the
 * calls the menu and the file codec make on them: 1-based `getContest(i)` /
 * `getSkater(i)`, 0-based `removeContest(i)` / `removeSkater(i)`, appending
 * `addContest` / `addSkater`, lookup by name that yields a match or null, and
 * `addScores(contest, array)` / `getScores(contest)` on a skater.
 */
module Registry {
  import opened Wrappers

  /** A contest stop; it is identified by its location. */
  datatype Contest = Contest(location: string, date: string)

  /**
   * A skater and the score array recorded for each contest.  A contest with
   * no entry in `scores` is one for which `getScores` returns null.
   */
  datatype Skater = Skater(name: string, stance: string, nationality: string, gender: string,
                           scores: map<Contest, seq<string>>)
  {
    /** `getScores(contest)`: the recorded array, or None for null. */
    function GetScores(c: Contest): Option<seq<string>>
    {
      if c in scores then Some(scores[c]) else None
    }

    /** `addScores(contest, array)`: records `arr` for `c`, replacing any earlier array. */
    function AddScores(c: Contest, arr: seq<string>): (r: Skater)
      ensures r.GetScores(c) == Some(arr)
      ensures forall d :: d != c ==> r.GetScores(d) == GetScores(d)
      ensures SameProfile(r, this)
    {
      this.(scores := scores[c := arr])
    }
  }

  /** Two skaters agree on everything but their scores. */
  predicate SameProfile(a: Skater, b: Skater)
  {
    a.name == b.name && a.stance == b.stance && a.nationality == b.nationality && a.gender == b.gender
  }

  /** The skater as created from its details, before any score is recorded. */
  function NewSkater(name: string, stance: string, nationality: string, gender: string): Skater
  {
    Skater(name, stance, nationality, gender, map[])
  }

  /** Position of the first element whose key is `want`, None when there is none. */
  function FindFirst<T>(s: seq<T>, key: T -> string, want: string): (r: Option<nat>)
    ensures r.Some? ==> r.value < |s| && key(s[r.value]) == want
    ensures r.Some? ==> forall k :: 0 <= k < r.value ==> key(s[k]) != want
    ensures r.None? <==> forall k :: 0 <= k < |s| ==> key(s[k]) != want
  {
    if |s| == 0 then None
    else if key(s[0]) == want then Some(0)
    else match FindFirst(s[1..], key, want)
      case None => None
      case Some(k) => Some(k + 1)
  }

  function Location(c: Contest): string { c.location }

  function Name(s: Skater): string { s.name }

  /** `getContestByName(location)`: position of the first contest held there, None for null. */
  function FindContest(contests: seq<Contest>, location: string): Option<nat>
  {
    FindFirst(contests, Location, location)
  }

  /** `getSkaterByName(name)`: position of the first skater with that name, None for null. */
  function FindSkater(skaters: seq<Skater>, name: string): Option<nat>
  {
    FindFirst(skaters, Name, name)
  }

  /** Removal at a 0-based index, later entries moving down one place. */
  function RemoveAt<T>(s: seq<T>, i: nat): (r: seq<T>)
    requires i < |s|
    ensures |r| == |s| - 1
    ensures forall k :: 0 <= k < i ==> r[k] == s[k]
    ensures forall k :: i <= k < |r| ==> r[k] == s[k + 1]
  {
    s[..i] + s[i + 1..]
  }

  class ContestList {
    var contests: seq<Contest>

    constructor ()
      ensures contests == []
    {
      contests := [];
    }

    /** `getContest(i)`, 1-based. */
    function GetContest(i: nat): Contest
      reads this
      requires 1 <= i <= |contests|
    {
      contests[i - 1]
    }

    method AddContest(c: Contest)
      modifies this
      ensures contests == old(contests) + [c]
    {
      contests := contests + [c];
    }

    /** `removeContest(i)`, 0-based. */
    method RemoveContest(i: nat)
      requires i < |contests|
      modifies this
      ensures contests == RemoveAt(old(contests), i)
    {
      contests := RemoveAt(contests, i);
    }
  }

  class SkaterList {
    var skaters: seq<Skater>

    constructor ()
      ensures skaters == []
    {
      skaters := [];
    }

    /** `getSkater(i)`, 1-based. */
    function GetSkater(i: nat): Skater
      reads this
      requires 1 <= i <= |skaters|
    {
      skaters[i - 1]
    }

    method AddSkater(s: Skater)
      modifies this
      ensures skaters == old(skaters) + [s]
    {
      skaters := skaters + [s];
    }

    /** `removeSkater(i)`, 0-based. */
    method RemoveSkater(i: nat)
      requires i < |skaters|
      modifies this
      ensures skaters == RemoveAt(old(skaters), i)
    {
      skaters := RemoveAt(skaters, i);
    }

    /**
     * `addScores(contest, array)` on the skater object held at 0-based
     * position `i`: that skater is updated in place, no other one changes.
     */
    method AddScores(i: nat, c: Contest, arr: seq<string>)
      requires i < |skaters|
      modifies this
      ensures skaters == old(skaters)[i := old(skaters)[i].AddScores(c, arr)]
    {
      skaters := skaters[i := skaters[i].AddScores(c, arr)];
    }
  }
}
