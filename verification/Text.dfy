/** Strings as the repository's Python code uses them, restricted to ASCII case and white space. */
module Text {

  /** The white-space characters below 128 that `str.strip` removes. */
  predicate IsSpace(c: char) {
    c == ' ' || 9 <= c as int <= 13 || 28 <= c as int <= 31
  }

  function LowerChar(c: char): char {
    if 'A' <= c <= 'Z' then (c as int + 32) as char else c
  }

  function Lower(s: string): (r: string)
    ensures |r| == |s|
  {
    seq(|s|, i requires 0 <= i < |s| => LowerChar(s[i]))
  }

  function StripLeft(s: string): string {
    if s != "" && IsSpace(s[0]) then StripLeft(s[1..]) else s
  }

  function StripRight(s: string): string {
    if s != "" && IsSpace(s[|s| - 1]) then StripRight(s[..|s| - 1]) else s
  }

  function Strip(s: string): string {
    StripRight(StripLeft(s))
  }

  predicate StartsWith(s: string, prefix: string) {
    prefix <= s
  }

  predicate EndsWith(s: string, suffix: string) {
    |suffix| <= |s| && s[|s| - |suffix|..] == suffix
  }

  /** Python's `part in whole` on strings. */
  predicate Contains(part: string, whole: string) {
    part <= whole || (whole != "" && Contains(part, whole[1..]))
  }

  /** `s.split(sep)`: always at least one piece, and empty pieces are kept. */
  function Split(s: string, sep: char): (r: seq<string>)
    ensures |r| >= 1
  {
    if s == "" then [""]
    else
      var rest := Split(s[1..], sep);
      if s[0] == sep then [""] + rest else [[s[0]] + rest[0]] + rest[1..]
  }

  /** `sep.join(pieces)` for a non-empty list. */
  function Join(pieces: seq<string>, sep: char): string
    requires |pieces| >= 1
  {
    if |pieces| == 1 then pieces[0] else pieces[0] + [sep] + Join(pieces[1..], sep)
  }

  /** White space is the tab to carriage return, the four separators and the blank. */
  lemma SpaceIff(c: char)
    ensures IsSpace(c) <==> c as int in {9, 10, 11, 12, 13, 28, 29, 30, 31, 32}
  {
  }

  /** Capital letters become the small ones at the same place of the alphabet, and nothing else changes. */
  lemma LowerIs(s: string, i: nat)
    requires i < |s|
    ensures 'A' <= s[i] <= 'Z' ==>
              'a' <= Lower(s)[i] <= 'z' && Lower(s)[i] as int - 'a' as int == s[i] as int - 'A' as int
    ensures !('A' <= s[i] <= 'Z') ==> Lower(s)[i] == s[i]
  {
  }

  /** The part stands in the whole from position `k` on. */
  predicate StandsAt(part: string, whole: string, k: int) {
    0 <= k <= |whole| - |part| && whole[k..k + |part|] == part
  }

  /** A part is contained exactly when it stands somewhere in the whole. */
  lemma {:induction false} ContainsIff(part: string, whole: string)
    ensures Contains(part, whole) <==> exists k :: StandsAt(part, whole, k)
  {
    if part <= whole {
      assert StandsAt(part, whole, 0);
    } else if whole != "" {
      ContainsIff(part, whole[1..]);
      forall k | 1 <= k <= |whole| - |part|
        ensures StandsAt(part, whole, k) <==> StandsAt(part, whole[1..], k - 1)
      {
        assert whole[1..][k - 1..k - 1 + |part|] == whole[k..k + |part|];
      }
      assert !StandsAt(part, whole, 0);
      if Contains(part, whole[1..]) {
        var k :| StandsAt(part, whole[1..], k);
        assert StandsAt(part, whole, k + 1);
      }
    }
  }

  ghost predicate AllSpace(s: string) {
    forall i :: 0 <= i < |s| ==> IsSpace(s[i])
  }

  lemma {:induction false} StripLeftCuts(s: string) returns (left: string)
    ensures s == left + StripLeft(s) && AllSpace(left)
  {
    left := "";
    if s != "" && IsSpace(s[0]) {
      left := StripLeftCuts(s[1..]);
      left := [s[0]] + left;
      assert s == [s[0]] + s[1..];
    }
  }

  lemma {:induction false} StripRightCuts(s: string) returns (right: string)
    ensures s == StripRight(s) + right && AllSpace(right)
  {
    right := "";
    if s != "" && IsSpace(s[|s| - 1]) {
      right := StripRightCuts(s[..|s| - 1]);
      right := right + [s[|s| - 1]];
      assert s == s[..|s| - 1] + [s[|s| - 1]];
    }
  }

  lemma {:induction false} StripBlank(s: string)
    requires AllSpace(s)
    ensures StripLeft(s) == "" && Strip(s) == ""
  {
    if s != "" {
      StripBlank(s[1..]);
    }
  }

  /** What is cut off is white space. */
  lemma StripCuts(s: string) returns (left: string, right: string)
    ensures s == left + Strip(s) + right && AllSpace(left) && AllSpace(right)
  {
    left := StripLeftCuts(s);
    right := StripRightCuts(StripLeft(s));
    assert left + (Strip(s) + right) == left + Strip(s) + right;
  }

  lemma LowerTwice(s: string)
    ensures Lower(Lower(s)) == Lower(s)
  {
  }

  lemma {:induction false} StripLeftEnd(s: string)
    ensures StripLeft(s) != "" ==> !IsSpace(StripLeft(s)[0])
  {
    if s != "" && IsSpace(s[0]) {
      StripLeftEnd(s[1..]);
    }
  }

  lemma {:induction false} StripRightEnds(s: string)
    ensures
      var r := StripRight(s);
      r <= s && (r != "" ==> !IsSpace(r[|r| - 1]))
  {
    if s != "" && IsSpace(s[|s| - 1]) {
      StripRightEnds(s[..|s| - 1]);
    }
  }

  /** White space is left at neither end. */
  lemma StripEnds(s: string)
    ensures
      var r := Strip(s);
      r != "" ==> !IsSpace(r[0]) && !IsSpace(r[|r| - 1])
  {
    StripLeftEnd(s);
    StripRightEnds(StripLeft(s));
  }

  lemma StripLower(s: string)
    ensures Strip(Lower(Strip(s))) == Lower(Strip(s))
  {
    StripEnds(s);
    var t := Strip(s);
    var u := Lower(t);
    if t != "" {
      assert u[0] == LowerChar(t[0]) && u[|u| - 1] == LowerChar(t[|t| - 1]);
    }
  }

  lemma {:induction false} JoinSplit(s: string, sep: char)
    ensures Join(Split(s, sep), sep) == s
  {
    if s != "" {
      JoinSplit(s[1..], sep);
      var rest := Split(s[1..], sep);
      if s[0] == sep {
        assert Split(s, sep)[1..] == rest;
      } else {
        assert Split(s, sep)[1..] == rest[1..];
      }
    }
  }

  /** Splitting `a + sep + b` gives the pieces of `a` followed by the pieces of `b`. */
  lemma {:induction false} SplitConcat(a: string, b: string, sep: char)
    ensures Split(a + [sep] + b, sep) == Split(a, sep) + Split(b, sep)
  {
    var whole := a + [sep] + b;
    if a == "" {
      assert whole[1..] == b;
    } else {
      assert whole[1..] == a[1..] + [sep] + b;
      SplitConcat(a[1..], b, sep);
    }
  }

  /** Joining two non-empty groups of pieces puts one separator between the two joins. */
  lemma {:induction false} JoinConcat(xs: seq<string>, ys: seq<string>, sep: char)
    requires |xs| >= 1 && |ys| >= 1
    ensures Join(xs + ys, sep) == Join(xs, sep) + [sep] + Join(ys, sep)
  {
    if |xs| == 1 {
      assert (xs + ys)[1..] == ys;
    } else {
      assert (xs + ys)[1..] == xs[1..] + ys;
      JoinConcat(xs[1..], ys, sep);
    }
  }
}
