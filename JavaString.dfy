/**
 * The parts of java.lang.String that the tournament file codec relies on:
 * `trim`, `indexOf`, `split(regex)` (limit 0) and `split(regex, limit)`, for
 * separators that are plain text (":", "," and ", " contain no regex
 * metacharacter, so the regex matches exactly the literal text, leftmost
 * first, without overlap).  `Join` is the inverse used to state round trips.
 */
module JavaString {
  import opened Wrappers

  /** The characters `String.trim` removes: every code point up to U+0020. */
  predicate Trimmable(c: char) { c <= ' ' }

  /** `String.trim`'s first loop: from `i`, the index of the first character it keeps (or `|s|`). */
  function TrimStart(s: string, i: nat): (a: nat)
    requires i <= |s|
    ensures i <= a <= |s|
    ensures forall k :: i <= k < a ==> Trimmable(s[k])
    ensures a == |s| || !Trimmable(s[a])
    decreases |s| - i
  {
    if i < |s| && Trimmable(s[i]) then TrimStart(s, i + 1) else i
  }

  /** `String.trim`'s second loop: from `j` down to `a`, the end of the last character it keeps. */
  function TrimEnd(s: string, a: nat, j: nat): (b: nat)
    requires a <= j <= |s|
    ensures a <= b <= j
    ensures forall k :: b <= k < j ==> Trimmable(s[k])
    ensures b == a || !Trimmable(s[b - 1])
    decreases j
  {
    if j > a && Trimmable(s[j - 1]) then TrimEnd(s, a, j - 1) else j
  }

  /** Neither end of `s` is trimmable (the empty string included). */
  predicate Trimmed(s: string)
  {
    |s| == 0 || (!Trimmable(s[0]) && !Trimmable(s[|s| - 1]))
  }

  /** `r` is `s` from position `a` on, with only trimmable characters cut off at either end. */
  predicate TrimsTo(s: string, a: nat, r: string)
  {
    a + |r| <= |s| && s[a..a + |r|] == r &&
    (forall k :: 0 <= k < a ==> Trimmable(s[k])) &&
    (forall k :: a + |r| <= k < |s| ==> Trimmable(s[k]))
  }

  /**
   * `String.trim`: the part of `s` left after dropping every leading and
   * every trailing character up to U+0020.
   */
  function Trim(s: string): (r: string)
    ensures Trimmed(r)
    ensures exists a :: TrimsTo(s, a, r)
  {
    var a := TrimStart(s, 0);
    var b := TrimEnd(s, a, |s|);
    assert TrimsTo(s, a, s[a..b]);
    s[a..b]
  }

  /** The trimmed infix is unique: `Trim` is the only result its contract allows. */
  lemma TrimUnique(s: string, a: nat, r: string)
    requires TrimsTo(s, a, r) && Trimmed(r)
    ensures Trim(s) == r
  {
    var a0 := TrimStart(s, 0);
    var b0 := TrimEnd(s, a0, |s|);
    if |r| == 0 {
      assert a0 == |s|;
    } else {
      assert s[a] == r[0] && s[a + |r| - 1] == r[|r| - 1];
      assert a0 == a;
      assert b0 == a + |r|;
    }
  }

  lemma TrimOfTrimmed(s: string)
    requires Trimmed(s)
    ensures Trim(s) == s
  {
    assert TrimsTo(s, 0, s);
    TrimUnique(s, 0, s);
  }

  /** Leading white space never survives a trim. */
  lemma TrimAfterSpace(s: string)
    ensures Trim(" " + s) == Trim(s)
  {
    var r := Trim(s);
    var a: nat :| TrimsTo(s, a, r);
    var t := " " + s;
    assert t[a + 1..a + 1 + |r|] == s[a..a + |r|];
    assert forall k :: 1 <= k < |t| ==> t[k] == s[k - 1];
    assert TrimsTo(t, a + 1, r);
    TrimUnique(t, a + 1, r);
  }

  /** A trimmed field after one separating space. */
  lemma TrimSpaced(s: string)
    requires Trimmed(s)
    ensures Trim(" " + s) == s
  {
    TrimAfterSpace(s);
    TrimOfTrimmed(s);
  }

  /** `sep` occurs in `s` at position `k`. */
  predicate OccursAt(s: string, sep: string, k: nat)
  {
    k + |sep| <= |s| && s[k..k + |sep|] == sep
  }

  /** `String.indexOf(sep)`: the leftmost occurrence, if any. */
  function IndexOf(s: string, sep: string): (r: Option<nat>)
    requires |sep| > 0
    ensures r.Some? ==> OccursAt(s, sep, r.value)
    ensures r.Some? ==> forall k :: 0 <= k < r.value ==> !OccursAt(s, sep, k)
    ensures r.None? ==> forall k :: 0 <= k <= |s| ==> !OccursAt(s, sep, k)
    decreases |s|
  {
    if |s| < |sep| then None
    else if s[..|sep|] == sep then Some(0)
    else
      match IndexOf(s[1..], sep)
      case None =>
        assert forall k :: 1 <= k <= |s| ==> (OccursAt(s, sep, k) <==> OccursAt(s[1..], sep, k - 1));
        None
      case Some(k) =>
        assert forall j :: 1 <= j <= |s| ==> (OccursAt(s, sep, j) <==> OccursAt(s[1..], sep, j - 1));
        Some(k + 1)
  }

  /** Every occurrence of `sep` starts with its first character. */
  lemma NoOccurrence(s: string, sep: string)
    requires |sep| > 0 && sep[0] !in s
    ensures IndexOf(s, sep) == None
  {
    forall k | 0 <= k <= |s| ensures !OccursAt(s, sep, k) {
      if k + |sep| <= |s| {
        assert s[k..k + |sep|][0] == s[k];
      }
    }
  }

  lemma {:induction false} FirstOccurrence(a: string, sep: string, b: string)
    requires |sep| > 0 && sep[0] !in a
    ensures IndexOf(a + sep + b, sep) == Some(|a|)
  {
    var s := a + sep + b;
    assert OccursAt(s, sep, |a|) by { assert s[|a|..|a| + |sep|] == sep; }
    forall k | 0 <= k < |a| ensures !OccursAt(s, sep, k) {
      if k + |sep| <= |s| {
        assert s[k..k + |sep|][0] == s[k] == a[k];
      }
    }
  }

  /** A character `indexOf` does not find is not there. */
  lemma NotFound(s: string, c: char)
    requires IndexOf(s, [c]).None?
    ensures c !in s
  {
    forall k | 0 <= k < |s| ensures s[k] != c {
      assert !OccursAt(s, [c], k);
      assert s[k..k + 1] == [s[k]];
    }
  }

  /** `sep` joined between consecutive parts. */
  function Join(parts: seq<string>, sep: string): string
  {
    if |parts| == 0 then ""
    else if |parts| == 1 then parts[0]
    else parts[0] + sep + Join(parts[1..], sep)
  }

  /** A prefix of `s` holds no occurrence that `s` does not hold within it. */
  lemma PrefixOccurrences(s: string, sep: string, k: nat)
    requires |sep| > 0 && k <= |s| && forall j :: 0 <= j < k ==> !OccursAt(s, sep, j)
    ensures forall j :: 0 <= j <= k ==> !OccursAt(s[..k], sep, j)
  {
    var t := s[..k];
    assert |t| == k;
    forall j | 0 <= j <= k ensures !OccursAt(t, sep, j) {
      if j + |sep| <= k {
        assert !OccursAt(s, sep, j);
        assert t[j..j + |sep|] == s[j..j + |sep|];
      }
    }
  }

  /** The text before the leftmost occurrence of `sep` holds no occurrence of it. */
  lemma BeforeFirstOccurrence(s: string, sep: string, k: nat)
    requires |sep| > 0 && IndexOf(s, sep) == Some(k)
    ensures IndexOf(s[..k], sep).None?
  {
    PrefixOccurrences(s, sep, k);
    NoOccurrenceAtAll(s[..k], sep);
  }

  lemma NoOccurrenceAtAll(t: string, sep: string)
    requires |sep| > 0 && forall j :: 0 <= j <= |t| ==> !OccursAt(t, sep, j)
    ensures IndexOf(t, sep).None?
  {
  }

  /**
   * All the pieces of `s` between occurrences of `sep`, empty ones included
   * (what `split` computes before it drops trailing empty strings): no piece
   * contains the separator, and the pieces joined by it give back `s`.
   */
  function Pieces(s: string, sep: string): (r: seq<string>)
    requires |sep| > 0
    ensures |r| >= 1
    ensures Join(r, sep) == s
    ensures forall k :: 0 <= k < |r| ==> IndexOf(r[k], sep).None?
    decreases |s|
  {
    match IndexOf(s, sep)
    case None => [s]
    case Some(k) =>
      var rest := Pieces(s[k + |sep|..], sep);
      assert s == s[..k] + sep + s[k + |sep|..];
      BeforeFirstOccurrence(s, sep, k);
      [s[..k]] + rest
  }

  function DropTrailingEmpty(parts: seq<string>): (r: seq<string>)
    ensures |r| <= |parts| && r == parts[..|r|]
    ensures r == [] || r[|r| - 1] != ""
    ensures forall k :: |r| <= k < |parts| ==> parts[k] == ""
  {
    if |parts| > 0 && parts[|parts| - 1] == "" then DropTrailingEmpty(parts[..|parts| - 1]) else parts
  }

  /**
   * `s.split(sep)` with limit 0: when `sep` does not occur the result is
   * `[s]` (even for the empty string); otherwise trailing empty pieces are
   * removed, possibly all of them.
   */
  function Split(s: string, sep: string): (r: seq<string>)
    requires |sep| > 0
    ensures IndexOf(s, sep).None? ==> r == [s]
    ensures IndexOf(s, sep).Some? ==>
              |r| <= |Pieces(s, sep)| && r == Pieces(s, sep)[..|r|] && (r == [] || r[|r| - 1] != "") &&
              forall k :: |r| <= k < |Pieces(s, sep)| ==> Pieces(s, sep)[k] == ""
    ensures forall k :: 0 <= k < |r| ==> IndexOf(r[k], sep).None?
  {
    if IndexOf(s, sep).None? then [s] else DropTrailingEmpty(Pieces(s, sep))
  }

  /** Without the separator character, `split` gives back the whole text. */
  lemma SplitWithout(s: string, c: char)
    ensures c !in s ==> Split(s, [c]) == [s]
  {
    if c !in s {
      NoOccurrence(s, [c]);
    }
  }

  /**
   * `s.split(sep, limit)` with a positive limit: at most `limit` pieces, the
   * last one holding the rest of `s`; empty pieces are kept.
   */
  function SplitLimit(s: string, sep: string, limit: nat): (r: seq<string>)
    requires |sep| > 0 && limit >= 1
    ensures 1 <= |r| <= limit
    ensures Join(r, sep) == s
    ensures forall k :: 0 <= k < |r| - 1 ==> IndexOf(r[k], sep).None?
    ensures |r| < limit ==> IndexOf(r[|r| - 1], sep).None?
    decreases limit
  {
    if limit == 1 then [s]
    else
      match IndexOf(s, sep)
      case None => [s]
      case Some(k) =>
        assert s == s[..k] + sep + s[k + |sep|..];
        BeforeFirstOccurrence(s, sep, k);
        [s[..k]] + SplitLimit(s[k + |sep|..], sep, limit - 1)
  }

  /** No part contains the first character of the separator. */
  predicate Separable(parts: seq<string>, sep: string)
    requires |sep| > 0
  {
    forall k :: 0 <= k < |parts| ==> sep[0] !in parts[k]
  }

  lemma {:induction false} PiecesOfJoin(parts: seq<string>, sep: string)
    requires |sep| > 0 && |parts| >= 1 && Separable(parts, sep)
    ensures Pieces(Join(parts, sep), sep) == parts
  {
    if |parts| == 1 {
      NoOccurrence(parts[0], sep);
    } else {
      var rest := Join(parts[1..], sep);
      FirstOccurrence(parts[0], sep, rest);
      var s := parts[0] + sep + rest;
      assert s[..|parts[0]|] == parts[0];
      assert s[|parts[0]| + |sep|..] == rest;
      PiecesOfJoin(parts[1..], sep);
    }
  }

  /**
   * Splitting undoes joining when no part contains the separator's first
   * character and the last part is not empty (or it is the only part).
   */
  lemma SplitOfJoin(parts: seq<string>, sep: string)
    requires |sep| > 0 && |parts| >= 1 && Separable(parts, sep)
    requires |parts| == 1 || parts[|parts| - 1] != ""
    ensures Split(Join(parts, sep), sep) == parts
  {
    PiecesOfJoin(parts, sep);
    if |parts| == 1 {
      NoOccurrence(parts[0], sep);
    } else {
      FirstOccurrence(parts[0], sep, Join(parts[1..], sep));
    }
  }

  /** The first `limit - 1` separators are found after separable leading parts. */
  lemma SplitLimitStep(a: string, sep: string, b: string, limit: nat)
    requires |sep| > 0 && limit >= 2 && sep[0] !in a
    ensures SplitLimit(a + sep + b, sep, limit) == [a] + SplitLimit(b, sep, limit - 1)
  {
    FirstOccurrence(a, sep, b);
    var s := a + sep + b;
    assert s[..|a|] == a;
    assert s[|a| + |sep|..] == b;
  }

  /** Number of occurrences of character `c` in `s`. */
  function Count(s: string, c: char): nat
  {
    multiset(s)[c]
  }

  /** `split(",", limit)` yields at most one piece more than there are commas. */
  lemma {:induction false} SplitLimitPieces(s: string, c: char, limit: nat)
    requires limit >= 1
    ensures |SplitLimit(s, [c], limit)| <= Count(s, c) + 1
    decreases limit
  {
    if limit > 1 && IndexOf(s, [c]).Some? {
      var k := IndexOf(s, [c]).value;
      var rest := s[k + 1..];
      SplitLimitAt(s, [c], limit, k, rest);
      CountAfter(s, c, k, rest);
      SplitLimitPieces(rest, c, limit - 1);
    }
  }

  /** One step of `split(sep, limit)`: the piece before the leftmost separator, then the rest. */
  lemma SplitLimitAt(s: string, sep: string, limit: nat, k: nat, rest: string)
    requires |sep| > 0 && limit >= 2 && IndexOf(s, sep) == Some(k) && rest == s[k + |sep|..]
    ensures |SplitLimit(s, sep, limit)| == 1 + |SplitLimit(rest, sep, limit - 1)|
  {
  }

  /** The text after an occurrence of `c` holds one `c` fewer, at most. */
  lemma CountAfter(s: string, c: char, k: nat, rest: string)
    requires IndexOf(s, [c]) == Some(k) && rest == s[k + 1..]
    ensures Count(rest, c) + 1 <= Count(s, c)
  {
    assert s[k..k + 1] == [c];
    assert s == s[..k] + [c] + rest;
    assert multiset(s)[c] == multiset(s[..k])[c] + 1 + multiset(rest)[c];
  }

  lemma InfixCount(s: string, a: nat, b: nat, c: char)
    requires a <= b <= |s|
    ensures Count(s[a..b], c) <= Count(s, c)
  {
    assert s == s[..a] + s[a..b] + s[b..];
    calc {
      multiset(s);
      multiset(s[..a] + s[a..b] + s[b..]);
      multiset(s[..a]) + multiset(s[a..b]) + multiset(s[b..]);
    }
  }

  /** A piece `split` on `c` returns, once trimmed, holds no `c`. */
  lemma TrimmedPiece(s: string, c: char)
    requires IndexOf(s, [c]).None?
    ensures c !in Trim(s) && Trimmed(Trim(s))
  {
    NotFound(s, c);
    TrimCount(s, c);
  }

  /** Trimming never adds characters. */
  lemma TrimCount(s: string, c: char)
    ensures Count(Trim(s), c) <= Count(s, c)
  {
    var a := TrimStart(s, 0);
    InfixCount(s, a, TrimEnd(s, a, |s|), c);
  }
}
