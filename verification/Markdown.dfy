/** Escaping of attacker-controlled text before it is sent as a Discord alert (`events.py`). */
module Markdown {
  import Seqs

  /** The characters `_escape_markdown` neutralizes, in the order it treats them. */
  const SPECIAL_CHARS: seq<char> := ['*', '_', '~', '|', '@']

  /** `text.replace(c, "\\" + c)`: every occurrence of one character, over the whole string. */
  function ReplaceChar(text: string, c: char): string {
    if text == "" then ""
    else (if text[0] == c then ['\\', c] else [text[0]]) + ReplaceChar(text[1..], c)
  }

  /** One whole-string replacement for each character of `order`, first to last. */
  function ReplaceEach(text: string, order: seq<char>): string {
    if order == [] then text
    else ReplaceChar(ReplaceEach(text, order[..|order| - 1]), order[|order| - 1])
  }

  /** A single left-to-right pass that puts a backslash before each special character. */
  function OnePass(text: string, specials: set<char>): string {
    if text == "" then ""
    else (if text[0] in specials then ['\\', text[0]] else [text[0]]) + OnePass(text[1..], specials)
  }

  /** Drops each backslash that stands directly before a special character. */
  function Unescape(text: string, specials: set<char>): string {
    if text == "" then ""
    else if |text| >= 2 && text[0] == '\\' && text[1] in specials then [text[1]] + Unescape(text[2..], specials)
    else [text[0]] + Unescape(text[1..], specials)
  }

  function CharSet(order: seq<char>): set<char> {
    set c | c in order
  }

  /** `_escape_markdown`: five replacements, each rewriting the whole text. */
  method EscapeMarkdown(text: string) returns (escaped: string)
    ensures escaped == OnePass(text, {'*', '_', '~', '|', '@'})
    ensures Unescape(escaped, {'*', '_', '~', '|', '@'}) == text
  {
    escaped := text;
    var k := 0;
    assert SPECIAL_CHARS[..0] == [];
    while k < |SPECIAL_CHARS|
      invariant 0 <= k <= |SPECIAL_CHARS|
      invariant escaped == ReplaceEach(text, SPECIAL_CHARS[..k])
    {
      assert SPECIAL_CHARS[..k + 1][..k] == SPECIAL_CHARS[..k];
      escaped := ReplaceChar(escaped, SPECIAL_CHARS[k]);
      k := k + 1;
    }
    assert SPECIAL_CHARS[..k] == SPECIAL_CHARS;
    AnyOrderIsOnePass(text, SPECIAL_CHARS);
    UnescapeInverts(text, CharSet(SPECIAL_CHARS));
    SpecialChars();
  }

  lemma SpecialChars()
    ensures CharSet(SPECIAL_CHARS) == {'*', '_', '~', '|', '@'}
  {
    assert SPECIAL_CHARS[0] == '*' && SPECIAL_CHARS[1] == '_' && SPECIAL_CHARS[2] == '~';
    assert SPECIAL_CHARS[3] == '|' && SPECIAL_CHARS[4] == '@';
  }

  lemma {:induction false} ReplaceCharConcat(a: string, b: string, c: char)
    ensures ReplaceChar(a + b, c) == ReplaceChar(a, c) + ReplaceChar(b, c)
  {
    if a == "" {
      assert a + b == b;
    } else {
      assert (a + b)[1..] == a[1..] + b;
      ReplaceCharConcat(a[1..], b, c);
    }
  }

  /** Replacing one more character after a pass over `done` widens the pass by that character. */
  lemma {:induction false} ReplaceWidensPass(text: string, done: set<char>, c: char)
    requires c !in done && c != '\\'
    ensures ReplaceChar(OnePass(text, done), c) == OnePass(text, done + {c})
  {
    if text != "" {
      ReplaceWidensPass(text[1..], done, c);
      var head := if text[0] in done then ['\\', text[0]] else [text[0]];
      ReplaceCharConcat(head, OnePass(text[1..], done), c);
      assert ReplaceChar([], c) == [];
      if text[0] in done {
        assert head[1..] == [text[0]] && head[1..][1..] == [];
      } else {
        assert head[1..] == [];
      }
    }
  }

  lemma {:induction false} EmptyPass(text: string)
    ensures OnePass(text, {}) == text
  {
    if text != "" {
      EmptyPass(text[1..]);
    }
  }

  /** Successive replacements equal the single pass, whatever the order of the characters. */
  lemma {:induction false} AnyOrderIsOnePass(text: string, order: seq<char>)
    requires Seqs.Distinct(order) && '\\' !in order
    ensures ReplaceEach(text, order) == OnePass(text, CharSet(order))
  {
    if order == [] {
      EmptyPass(text);
      assert CharSet(order) == {};
    } else {
      var before, c := order[..|order| - 1], order[|order| - 1];
      AnyOrderIsOnePass(text, before);
      ReplaceWidensPass(text, CharSet(before), c);
      assert order == before + [c];
      assert CharSet(order) == CharSet(before) + {c};
    }
  }

  /** The decoder inverts the pass on every text, also on text that already holds backslashes. */
  lemma {:induction false} UnescapeInverts(text: string, specials: set<char>)
    requires '\\' !in specials
    ensures Unescape(OnePass(text, specials), specials) == text
  {
    if text != "" {
      var rest := OnePass(text[1..], specials);
      UnescapeInverts(text[1..], specials);
      var e := OnePass(text, specials);
      if text[0] in specials {
        assert e[2..] == rest;
      } else {
        assert e[1..] == rest;
        assert rest != "" ==> rest[0] !in specials;
      }
    }
  }

  // ----- what a Markdown reader makes of the escaped text -----

  /** A reader that takes a backslash as escaping the next character meets no bare special character;
      `escaped` says that the first character of `text` is itself escaped. */
  predicate Inert(text: string, specials: set<char>, escaped: bool) {
    if text == "" then true
    else if escaped then Inert(text[1..], specials, false)
    else text[0] !in specials && Inert(text[1..], specials, text[0] == '\\')
  }

  /** The number of backslashes that end directly before position `i`. */
  function BackslashesBefore(text: string, i: nat): nat
    requires i <= |text|
  {
    if i == 0 || text[i - 1] != '\\' then 0 else 1 + BackslashesBefore(text, i - 1)
  }

  /** Every special character of the raw text follows an even number of backslashes. */
  predicate EvenRuns(text: string, specials: set<char>) {
    forall i :: 0 <= i < |text| && text[i] in specials ==> BackslashesBefore(text, i) % 2 == 0
  }

  /** The scan that decides `EvenRuns`, `odd` being the parity of the run read so far. */
  predicate EvenRunsFrom(text: string, specials: set<char>, odd: bool) {
    if text == "" then true
    else if text[0] == '\\' then EvenRunsFrom(text[1..], specials, !odd)
    else !(odd && text[0] in specials) && EvenRunsFrom(text[1..], specials, false)
  }

  lemma {:induction false} InertIffScan(text: string, specials: set<char>, odd: bool)
    requires '\\' !in specials
    ensures Inert(OnePass(text, specials), specials, odd) <==> EvenRunsFrom(text, specials, odd)
  {
    if text != "" {
      var e, rest := OnePass(text, specials), OnePass(text[1..], specials);
      if text[0] in specials {
        assert e[0] == '\\' && e[1..][0] == text[0] && e[1..][1..] == rest;
        InertIffScan(text[1..], specials, false);
      } else {
        assert e[1..] == rest;
        InertIffScan(text[1..], specials, text[0] == '\\' && !odd);
      }
    }
  }

  lemma {:induction false} ScanIffRuns(text: string, specials: set<char>, k: nat)
    requires k <= |text| && '\\' !in specials
    ensures EvenRunsFrom(text[k..], specials, BackslashesBefore(text, k) % 2 == 1)
            <==> forall i :: k <= i < |text| && text[i] in specials ==> BackslashesBefore(text, i) % 2 == 0
    decreases |text| - k
  {
    if k < |text| {
      assert text[k..][0] == text[k] && text[k..][1..] == text[k + 1..];
      ScanIffRuns(text, specials, k + 1);
    }
  }

  /** Escaping neutralizes every special character for such a reader exactly when no special character of
      the raw text follows an odd run of backslashes: a backslash already there escapes the added one. */
  lemma EscapedIsInertIff(text: string, specials: set<char>)
    requires '\\' !in specials
    ensures Inert(OnePass(text, specials), specials, false) <==> EvenRuns(text, specials)
  {
    InertIffScan(text, specials, false);
    assert text[0..] == text;
    ScanIffRuns(text, specials, 0);
  }

  /** The smallest text on which the escape leaves a special character live. */
  lemma BackslashStarStaysLive()
    ensures !Inert(OnePass("\\*", CharSet(SPECIAL_CHARS)), CharSet(SPECIAL_CHARS), false)
  {
    var text := "\\*";
    assert BackslashesBefore(text, 0) == 0;
    assert BackslashesBefore(text, 1) == 1;
    assert text[1] in CharSet(SPECIAL_CHARS);
    EscapedIsInertIff(text, CharSet(SPECIAL_CHARS));
  }
}
