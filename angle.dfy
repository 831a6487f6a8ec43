/**
  The angle formatter `get_angle`: a leftmost `re.search` for the pattern `\d+.?\d]*`
  that keeps the matched text, or returns the value itself when nothing matches.

  Read literally, the pattern is: one or more digits (greedy), then at most one character
  that is not a newline (`.` without DOTALL, greedy), then one digit, then a run of literal
  `]` characters (greedy). The matcher below follows the backtracking order of Python's
  regular-expression engine step by step; the lemmas relate it to a declarative reading
  of the pattern (`MatchSplit`, `IsMatch`).
*/
module Angle {
  import opened Wrappers

  /** `\d`, restricted to the ASCII digits. */
  predicate IsDigit(c: char) {
    '0' <= c <= '9'
  }

  /** `.`: every character except a newline. */
  predicate IsAnyChar(c: char) {
    c != '\n'
  }

  /** The length of the run of digits that starts at `i`. */
  function DigitRun(s: string, i: nat): (n: nat)
    requires i <= |s|
    ensures i + n <= |s|
    ensures forall j :: i <= j < i + n ==> IsDigit(s[j])
    ensures i + n < |s| ==> !IsDigit(s[i + n])
    decreases |s| - i
  {
    if i < |s| && IsDigit(s[i]) then 1 + DigitRun(s, i + 1) else 0
  }

  /** The length of the run of `]` characters that starts at `i`. */
  function BracketRun(s: string, i: nat): (n: nat)
    requires i <= |s|
    ensures i + n <= |s|
    ensures forall j :: i <= j < i + n ==> s[j] == ']'
    ensures i + n < |s| ==> s[i + n] != ']'
    decreases |s| - i
  {
    if i < |s| && s[i] == ']' then 1 + BracketRun(s, i + 1) else 0
  }

  // ---------------------------------------------------------------------------
  // The pattern, read declaratively
  // ---------------------------------------------------------------------------

  /**
    `s[i..e]` matches `\d+.?\d]*` with `k` characters spent on `\d+` and `o` (0 or 1)
    on `.?`; what follows the single `\d` up to `e` is all `]`.
  */
  ghost predicate MatchSplit(s: string, i: nat, e: nat, k: nat, o: nat) {
    && 1 <= k && o <= 1 && i + k + o < e <= |s|
    && (forall j :: i <= j < i + k ==> IsDigit(s[j]))
    && (o == 1 ==> IsAnyChar(s[i + k]))
    && IsDigit(s[i + k + o])
    && (forall j :: i + k + o < j < e ==> s[j] == ']')
  }

  /** `s[i..e]` is a match of the pattern. */
  ghost predicate IsMatch(s: string, i: nat, e: nat) {
    exists k: nat, o: nat :: MatchSplit(s, i, e, k, o)
  }

  // ---------------------------------------------------------------------------
  // The matcher, in the engine's backtracking order
  // ---------------------------------------------------------------------------

  /** `\d]*` at `q`: one digit, then the longest run of `]` (the pattern ends there, so
      the greedy run is the first choice that succeeds). Gives the end of the match. */
  function MatchDigitTail(s: string, q: nat): (r: Option<nat>)
    requires q <= |s|
    ensures r.Some? ==> q < r.value <= |s|
  {
    if q < |s| && IsDigit(s[q]) then Some(q + 1 + BracketRun(s, q + 1)) else None
  }

  /** `.?\d]*` at `p`: the greedy `?` tries one character before none. */
  function MatchOptional(s: string, p: nat): (r: Option<nat>)
    requires p <= |s|
    ensures r.Some? ==> p < r.value <= |s|
  {
    var taken := if p < |s| && IsAnyChar(s[p]) then MatchDigitTail(s, p + 1) else None;
    if taken.Some? then taken else MatchDigitTail(s, p)
  }

  /** The rest of the pattern after `\d+` has taken `k` digits at `i`; on failure the
      greedy `+` gives back one digit and tries again, down to one digit. */
  function MatchBackingOff(s: string, i: nat, k: nat): (r: Option<nat>)
    requires i + k <= |s|
    ensures r.Some? ==> i < r.value <= |s|
    decreases k
  {
    if k == 0 then None
    else
      var m := MatchOptional(s, i + k);
      if m.Some? then m else MatchBackingOff(s, i, k - 1)
  }

  /** The end of the first match the engine finds starting exactly at `i`. */
  function MatchAt(s: string, i: nat): (r: Option<nat>)
    requires i <= |s|
    ensures r.Some? ==> i < r.value <= |s|
  {
    MatchBackingOff(s, i, DigitRun(s, i))
  }

  /** `re.search` from `start`: try each start position in turn, up to and including `|s|`. */
  function Search(s: string, start: nat): (r: Option<(nat, nat)>)
    requires start <= |s|
    ensures r.Some? ==> start <= r.value.0 < r.value.1 <= |s| && MatchAt(s, r.value.0) == Some(r.value.1)
    ensures r.Some? ==> forall j :: start <= j < r.value.0 ==> MatchAt(s, j).None?
    ensures r.None? ==> forall j :: start <= j <= |s| ==> MatchAt(s, j).None?
    decreases |s| - start
  {
    match MatchAt(s, start)
    case Some(e) => Some((start, e))
    case None => if start == |s| then None else Search(s, start + 1)
  }

  /** `get_angle(val)`: search `val or ''`; on a match return the matched text, otherwise
      `val` itself (so None stays None). */
  function GetAngle(val: Option<string>): Option<string> {
    var s := val.GetOr("");
    match Search(s, 0)
    case Some((i, e)) => Some(s[i..e])
    case None => val
  }

  // ---------------------------------------------------------------------------
  // What the matcher finds
  // ---------------------------------------------------------------------------

  /** The backtracking order settles on one of two splits: all `D` digits of the run plus
      one character when a digit follows that character, or else all but the last digit
      and no optional character. */
  lemma {:induction false} MatchAtUnfolded(s: string, i: nat)
    requires i <= |s|
    ensures var d := DigitRun(s, i);
      MatchAt(s, i) ==
        if 1 <= d && i + d + 1 < |s| && IsAnyChar(s[i + d]) && IsDigit(s[i + d + 1])
        then Some(i + d + 2 + BracketRun(s, i + d + 2))
        else if 2 <= d then Some(i + d + BracketRun(s, i + d))
        else None
  {
    var d := DigitRun(s, i);
    if d >= 1 {
      var first := i + d + 1 < |s| && IsAnyChar(s[i + d]) && IsDigit(s[i + d + 1]);
      assert MatchDigitTail(s, i + d).None?;
      assert MatchOptional(s, i + d) == if first then Some(i + d + 2 + BracketRun(s, i + d + 2)) else None;
      if d >= 2 {
        assert IsDigit(s[i + d - 1]);
        assert MatchDigitTail(s, i + d - 1) == Some(i + d + BracketRun(s, i + d));
        assert MatchOptional(s, i + d - 1) == Some(i + d + BracketRun(s, i + d));
        assert MatchBackingOff(s, i, d - 1) == Some(i + d + BracketRun(s, i + d));
      } else {
        assert MatchBackingOff(s, i, 0).None?;
      }
    }
  }

  /** Every split of a match at `i` spends at most the run of digits on `\d+`, and when it
      spends all of them the optional character is taken. */
  lemma SplitWithinRun(s: string, i: nat, e: nat, k: nat, o: nat)
    requires i <= |s| && MatchSplit(s, i, e, k, o)
    ensures k <= DigitRun(s, i)
    ensures k == DigitRun(s, i) ==> o == 1
  {
  }

  /** What the matcher finds at `i` is a match of the pattern. */
  lemma MatchAtSound(s: string, i: nat)
    requires i <= |s| && MatchAt(s, i).Some?
    ensures IsMatch(s, i, MatchAt(s, i).value)
  {
    var k, o := MatchAtPreferred(s, i);
  }

  /** Whenever the pattern matches at `i`, the matcher finds a match there. */
  lemma MatchAtComplete(s: string, i: nat, e: nat)
    requires i <= |s| && IsMatch(s, i, e)
    ensures MatchAt(s, i).Some?
  {
    var k: nat, o: nat :| MatchSplit(s, i, e, k, o);
    SplitWithinRun(s, i, e, k, o);
    MatchAtUnfolded(s, i);
    var d := DigitRun(s, i);
    if k == d {
      assert IsAnyChar(s[i + d]) && IsDigit(s[i + d + 1]);
    } else {
      assert 2 <= d by {
        if o == 1 {
          assert IsDigit(s[i + k + 1]);
        }
      }
    }
  }

  /**
    The match the matcher returns at `i` is the one the backtracking order prefers: among
    all matches at `i`, it spends the most characters on `\d+`, then prefers taking the
    optional character, then the longest run of `]`.
  */
  lemma MatchAtPreferred(s: string, i: nat) returns (k: nat, o: nat)
    requires i <= |s| && MatchAt(s, i).Some?
    ensures MatchSplit(s, i, MatchAt(s, i).value, k, o)
    ensures forall e': nat, k': nat, o': nat :: MatchSplit(s, i, e', k', o') ==>
      k' < k || (k' == k && o' < o) || (k' == k && o' == o && e' <= MatchAt(s, i).value)
  {
    MatchAtUnfolded(s, i);
    var d := DigitRun(s, i);
    var e := MatchAt(s, i).value;
    if 1 <= d && i + d + 1 < |s| && IsAnyChar(s[i + d]) && IsDigit(s[i + d + 1]) {
      k, o := d, 1;
    } else {
      k, o := d - 1, 0;
    }
    forall e': nat, k': nat, o': nat | MatchSplit(s, i, e', k', o')
      ensures k' < k || (k' == k && o' < o) || (k' == k && o' == o && e' <= e)
    {
      SplitWithinRun(s, i, e', k', o');
    }
  }

  /** The leftmost match: `Search` returns the first start position where the pattern
      matches, with the match the backtracking order prefers there; it returns None
      exactly when the pattern matches nowhere. */
  lemma SearchLeftmost(s: string)
    ensures Search(s, 0).Some? ==>
      var (i, e) := Search(s, 0).value;
      IsMatch(s, i, e) && forall j: nat, e': nat :: j < i ==> !IsMatch(s, j, e')
    ensures Search(s, 0).None? <==> forall j: nat, e': nat :: !IsMatch(s, j, e')
  {
    forall j: nat, e': nat | IsMatch(s, j, e')
      ensures j <= |s| && MatchAt(s, j).Some?
    {
      var k: nat, o: nat :| MatchSplit(s, j, e', k, o);
      MatchAtComplete(s, j, e');
    }
    if Search(s, 0).Some? {
      MatchAtSound(s, Search(s, 0).value.0);
    }
  }

  /** When the pattern matches nowhere in the value, `get_angle` returns it unchanged;
      that covers None, the empty string and text with no two digits. */
  lemma GetAngleNoMatch(val: Option<string>)
    requires forall j: nat, e: nat :: !IsMatch(val.GetOr(""), j, e)
    ensures GetAngle(val) == val
  {
    SearchLeftmost(val.GetOr(""));
  }

  /** When the pattern matches somewhere, `get_angle` returns the leftmost match: a
      contiguous piece of the value that begins with a digit. */
  lemma GetAngleMatch(s: string, j: nat, e: nat) returns (a: nat, b: nat)
    requires IsMatch(s, j, e)
    ensures a < b <= |s| && GetAngle(Some(s)) == Some(s[a..b])
    ensures IsMatch(s, a, b) && IsDigit(s[a])
    ensures forall j': nat, e': nat :: j' < a ==> !IsMatch(s, j', e')
    ensures MatchAt(s, a) == Some(b)
  {
    SearchLeftmost(s);
    a, b := Search(s, 0).value.0, Search(s, 0).value.1;
    var k: nat, o: nat :| MatchSplit(s, a, b, k, o);
  }

  /** A split of a match in a slice of `s` is a split of the same match in `s`, and back. */
  lemma SplitInSlice(s: string, i: nat, e: nat, e': nat, k: nat, o: nat)
    requires i <= e <= |s| && e' <= e - i
    ensures MatchSplit(s[i..e], 0, e', k, o) <==> MatchSplit(s, i, i + e', k, o)
  {
    var t := s[i..e];
    assert forall j :: 0 <= j < |t| ==> t[j] == s[i + j];
    if MatchSplit(s, i, i + e', k, o) {
      assert forall j :: 0 <= j < k ==> IsDigit(t[j]) by {
        forall j | 0 <= j < k ensures IsDigit(t[j]) { assert IsDigit(s[i + j]); }
      }
      assert forall j :: k + o < j < e' ==> t[j] == ']' by {
        forall j | k + o < j < e' ensures t[j] == ']' { assert s[i + j] == ']'; }
      }
    }
    if MatchSplit(t, 0, e', k, o) {
      assert forall j :: i <= j < i + k ==> IsDigit(s[j]) by {
        forall j | i <= j < i + k ensures IsDigit(s[j]) { assert IsDigit(t[j - i]); }
      }
      assert forall j :: i + k + o < j < i + e' ==> s[j] == ']' by {
        forall j | i + k + o < j < i + e' ensures s[j] == ']' { assert t[j - i] == ']'; }
      }
    }
  }

  /** Formatting an angle twice gives what formatting it once gives: the text `get_angle`
      keeps is itself the whole of its own preferred match. */
  lemma GetAngleIdempotent(val: Option<string>)
    ensures GetAngle(GetAngle(val)) == GetAngle(val)
  {
    var s := val.GetOr("");
    if Search(s, 0).Some? {
      var (i, e) := Search(s, 0).value;
      var t := s[i..e];
      var k, o := MatchAtPreferred(s, i);
      SplitInSlice(s, i, e, |t|, k, o);
      MatchAtComplete(t, 0, |t|);
      var k2, o2 := MatchAtPreferred(t, 0);
      var e2 := MatchAt(t, 0).value;
      SplitInSlice(s, i, e, e2, k2, o2);
      assert e2 == |t|;
      assert Search(t, 0) == Some((0, |t|));
      assert t[0..|t|] == t;
    } else {
      assert GetAngle(val) == val;
    }
  }

  /** "34.5 degrees" keeps the decimal angle: two digits, any character, a digit. */
  lemma GetAngleDecimalExample()
    ensures GetAngle(Some("34.5 degrees")) == Some("34.5")
  {
    var s := "34.5 degrees";
    assert DigitRun(s, 2) == 0 && DigitRun(s, 1) == 1 && DigitRun(s, 0) == 2;
    MatchAtUnfolded(s, 0);
    assert BracketRun(s, 4) == 0;
    assert s[0..4] == "34.5";
  }

  /** "34 degrees" keeps the whole number: `\d+` gives back its last digit to the single `\d`. */
  lemma GetAngleWholeExample()
    ensures GetAngle(Some("34 degrees")) == Some("34")
  {
    var s := "34 degrees";
    assert DigitRun(s, 2) == 0 && DigitRun(s, 1) == 1 && DigitRun(s, 0) == 2;
    MatchAtUnfolded(s, 0);
    assert BracketRun(s, 2) == 0;
    assert s[0..2] == "34";
  }

  /** "1a2": the `.` of the pattern is any character, not only a decimal point. */
  lemma GetAngleAnyCharExample()
    ensures GetAngle(Some("1a2")) == Some("1a2")
  {
    var s := "1a2";
    assert DigitRun(s, 1) == 0 && DigitRun(s, 0) == 1;
    MatchAtUnfolded(s, 0);
    assert BracketRun(s, 3) == 0;
    assert s[0..3] == s;
  }

  /** "34.5]] x": the trailing `]*` keeps literal closing brackets. */
  lemma GetAngleBracketExample()
    ensures GetAngle(Some("34.5]] x")) == Some("34.5]]")
  {
    var s := "34.5]] x";
    assert DigitRun(s, 2) == 0 && DigitRun(s, 1) == 1 && DigitRun(s, 0) == 2;
    MatchAtUnfolded(s, 0);
    assert BracketRun(s, 6) == 0 && BracketRun(s, 5) == 1 && BracketRun(s, 4) == 2;
    assert s[0..6] == "34.5]]";
  }

  /** Values with no two digits come back unchanged, and so does None. */
  lemma GetAngleUnchangedExamples()
    ensures GetAngle(Some("N/A")) == Some("N/A")
    ensures GetAngle(Some("")) == Some("")
    ensures GetAngle(Some("5 deg")) == Some("5 deg")
    ensures GetAngle(None) == None
  {
  }
}
