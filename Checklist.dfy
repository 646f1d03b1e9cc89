/**
 * The reviewer-mention scan of a pull request body: Ruby's
 * `body.scan(/- \[.\] @(.+)/).flatten`, written out by hand.
 *
 * `scan` tries the pattern at every position from left to right and, after
 * a match, resumes where the match ended, so matches never overlap. `.`
 * matches every character except a line feed, so the box holds exactly one
 * such character and the greedy capture `(.+)` runs to the end of the line.
 */
module Checklist {
  import opened Wrappers

  /** The characters Ruby's `.` matches (without the multi-line flag). */
  predicate IsDot(c: char)
  {
    c != '\n'
  }

  /** The pattern matches at the start of `s`: `- [`, one character, `] @`, and a first capture character. */
  predicate MatchAt(s: string)
  {
    && |s| >= 8
    && s[0] == '-' && s[1] == ' ' && s[2] == '[' && IsDot(s[3])
    && s[4] == ']' && s[5] == ' ' && s[6] == '@' && IsDot(s[7])
  }

  /** The length of the first line of `s`: the index of its first line feed, or |s| if it has none. */
  function LineEnd(s: string): (e: nat)
    ensures e <= |s|
    ensures forall j :: 0 <= j < e ==> s[j] != '\n'
    ensures e < |s| ==> s[e] == '\n'
  {
    if s == [] || s[0] == '\n' then 0 else 1 + LineEnd(s[1..])
  }

  /** A match can only lie on one line, so the line it starts on reaches past its first eight characters. */
  lemma MatchWithinLine(s: string)
    requires MatchAt(s)
    ensures LineEnd(s) >= 8
  {
  }

  /**
   * The logins the scan extracts from `s`, in order. Each is the text from
   * just after `- [.] @` to the end of that line, untrimmed.
   */
  function Scan(s: string): (r: seq<string>)
    ensures forall k :: 0 <= k < |r| ==> r[k] != [] && '\n' !in r[k]
    decreases |s|
  {
    if s == [] then []
    else if MatchAt(s) then
      MatchWithinLine(s);
      var e := LineEnd(s);
      [s[7..e]] + Scan(s[e..])
    else
      Scan(s[1..])
  }

  // ----- A reference definition: one login per line, at its first match -----

  /** The capture of the leftmost match inside one line (a string without line feeds). */
  function FirstInLine(line: string): Option<string>
    decreases |line|
  {
    if line == [] then None
    else if MatchAt(line) then Some(line[7..])
    else FirstInLine(line[1..])
  }

  /** Line by line: each line contributes the capture of its leftmost match, if it has one. */
  function ByLines(s: string): seq<string>
    decreases |s|
  {
    var e := LineEnd(s);
    var here := ToSeq(FirstInLine(s[..e]));
    if e < |s| then here + ByLines(s[e + 1..]) else here
  }

  /** What follows the first line of `s` and its line feed. */
  function AfterLine(s: string): (r: string)
    ensures |r| < |s| || s == []
  {
    var e := LineEnd(s);
    if e < |s| then s[e + 1..] else []
  }

  /** When the pattern matches at the start, the capture is the rest of the first line. */
  lemma ScanAtMatch(s: string)
    requires MatchAt(s)
    ensures Scan(s) == ToSeq(FirstInLine(s[..LineEnd(s)])) + Scan(AfterLine(s))
  {
    MatchWithinLine(s);
    var e := LineEnd(s);
    var line := s[..e];
    assert line[..8] == s[..8];
    assert MatchAt(line);
    assert line[7..] == s[7..e];
    assert FirstInLine(line) == Some(s[7..e]);
    if e < |s| {
      var rest := s[e..];
      assert rest[0] == '\n';
      assert !MatchAt(rest);
      assert rest[1..] == s[e + 1..];
      assert Scan(rest) == Scan(s[e + 1..]);
    }
  }

  /** Off a match and off a line feed, the scan moves one character on within the same line. */
  lemma ScanStep(s: string)
    requires s != [] && s[0] != '\n' && !MatchAt(s)
    ensures var e := LineEnd(s);
      && LineEnd(s[1..]) == e - 1
      && FirstInLine(s[..e]) == FirstInLine(s[1..][..e - 1])
      && AfterLine(s[1..]) == AfterLine(s)
  {
    var e := LineEnd(s);
    assert LineEnd(s[1..]) == e - 1;
    assert s[1..][..e - 1] == s[..e][1..];
    assert !MatchAt(s[..e]);
    if e < |s| {
      assert s[1..][e - 1 + 1..] == s[e + 1..];
    }
  }

  /** The scan of `s` is the first line's leftmost capture followed by the scan of the later lines. */
  lemma {:induction false} ScanFirstLine(s: string)
    ensures Scan(s) == ToSeq(FirstInLine(s[..LineEnd(s)])) + Scan(AfterLine(s))
    decreases |s|
  {
    if s == [] {
    } else if MatchAt(s) {
      ScanAtMatch(s);
    } else if s[0] == '\n' {
      assert s[1..] == AfterLine(s);
    } else {
      ScanFirstLine(s[1..]);
      ScanStep(s);
    }
  }

  /** The scan agrees with the line-by-line reading: at most one login per line, taken at the leftmost match. */
  lemma {:induction false} ScanIsByLines(s: string)
    ensures Scan(s) == ByLines(s)
    decreases |s|
  {
    ScanFirstLine(s);
    var e := LineEnd(s);
    if e < |s| {
      ScanIsByLines(s[e + 1..]);
    }
  }
}

module ChecklistFacts {
  import opened Wrappers
  import opened Checklist

  /** The pattern occurs somewhere in `s`. */
  predicate HasMatch(s: string)
  {
    exists i :: 0 <= i < |s| && MatchAt(s[i..])
  }

  /** The scan finds nothing exactly when the pattern occurs nowhere in the body. */
  lemma {:induction false} ScanEmptyIff(s: string)
    ensures Scan(s) == [] <==> !HasMatch(s)
    decreases |s|
  {
    if s == [] {
    } else if MatchAt(s) {
      assert s[0..] == s;
    } else {
      ScanEmptyIff(s[1..]);
      if HasMatch(s) {
        var i :| 0 <= i < |s| && MatchAt(s[i..]);
        assert i > 0 by { assert s[0..] == s; }
        assert s[1..][i - 1..] == s[i..];
      }
      if HasMatch(s[1..]) {
        var i :| 0 <= i < |s[1..]| && MatchAt(s[1..][i..]);
        assert s[1..][i..] == s[i + 1..];
      }
    }
  }

  /** A line feed at `e` counts once more in `s` than in what follows it. */
  lemma NewlinesAfter(s: string, e: nat)
    requires e < |s| && s[e] == '\n'
    ensures multiset(s)['\n'] >= multiset(s[e + 1..])['\n'] + 1
  {
    assert s == s[..e + 1] + s[e + 1..];
    assert s[..e + 1][e] == '\n';
    assert multiset(s) == multiset(s[..e + 1]) + multiset(s[e + 1..]);
  }

  /** Every login comes from its own line: there are never more logins than lines. */
  lemma {:induction false} AtMostOneLoginPerLine(s: string)
    ensures |Scan(s)| <= multiset(s)['\n'] + 1
    decreases |s|
  {
    ScanFirstLine(s);
    var e := LineEnd(s);
    var here := ToSeq(FirstInLine(s[..e]));
    assert |Scan(s)| == |here| + |Scan(AfterLine(s))|;
    if e < |s| {
      AtMostOneLoginPerLine(s[e + 1..]);
      NewlinesAfter(s, e);
    }
  }

  /** A checklist item `- [box] @login`. */
  function Item(box: char, login: string): string
  {
    "- [" + [box] + "] @" + login
  }

  /** A checklist item followed by the end of its line: its login is extracted, and the scan goes on with the next line. */
  lemma ItemThenLine(box: char, login: string, tail: string)
    requires box != '\n' && login != [] && '\n' !in login
    requires tail == [] || tail[0] == '\n'
    ensures Scan(Item(box, login) + tail) == [login] + Scan(tail)
  {
    var s := Item(box, login) + tail;
    var e := 7 + |login|;
    assert MatchAt(s);
    assert LineEnd(s) == e by {
      forall j | 0 <= j < e ensures s[j] != '\n' {
        if j >= 7 { assert s[j] == login[j - 7]; }
      }
      if e < |s| { assert s[e] == tail[0]; }
    }
    assert s[7..e] == login;
    assert s[e..] == tail;
  }

  /** Whatever the box holds (`x` or a space), the login after it is extracted, up to the end of the text. */
  lemma AnyBoxCharacter(box: char, login: string)
    requires box != '\n' && login != [] && '\n' !in login
    ensures Scan(Item(box, login)) == [login]
  {
    ItemThenLine(box, login, []);
    assert Item(box, login) + [] == Item(box, login);
  }

  /** The capture is greedy: a second checklist item on the same line becomes part of the first login. */
  lemma GreedyCapture()
    ensures Scan("- [ ] @a - [ ] @b") == ["a - [ ] @b"]
  {
    AnyBoxCharacter(' ', "a - [ ] @b");
    assert Item(' ', "a - [ ] @b") == "- [ ] @a - [ ] @b";
  }

  /** Positions where the pattern does not match contribute nothing: the scan simply moves past them. */
  lemma {:induction false} SkipNonMatching(s: string, k: nat)
    requires k <= |s|
    requires forall i :: 0 <= i < k ==> !MatchAt(s[i..])
    ensures Scan(s) == Scan(s[k..])
    decreases k
  {
    if k > 0 {
      assert s[0..] == s;
      forall i | 0 <= i < k - 1 ensures !MatchAt(s[1..][i..]) {
        assert s[1..][i..] == s[i + 1..];
      }
      SkipNonMatching(s[1..], k - 1);
      assert s[1..][k - 1..] == s[k..];
    }
  }

  /**
   * Two checklist lines after unrelated text: the match may start mid-line,
   * each line yields its own login, and a login keeps whatever trails it on
   * its line (spaces, a carriage return).
   */
  lemma TwoChecklistLines(pre: string, box1: char, login1: string, box2: char, login2: string)
    requires '-' !in pre
    requires box1 != '\n' && login1 != [] && '\n' !in login1
    requires box2 != '\n' && login2 != [] && '\n' !in login2
    ensures Scan(pre + Item(box1, login1) + "\n" + Item(box2, login2)) == [login1, login2]
  {
    var s := pre + Item(box1, login1) + "\n" + Item(box2, login2);
    forall i | 0 <= i < |pre| ensures !MatchAt(s[i..]) {
      assert s[i..][0] == pre[i];
    }
    SkipNonMatching(s, |pre|);
    var next := Item(box2, login2);
    assert s[|pre|..] == Item(box1, login1) + ("\n" + next);
    ItemThenLine(box1, login1, "\n" + next);
    assert !MatchAt(("\n" + next)[0..]);
    SkipNonMatching("\n" + next, 1);
    assert ("\n" + next)[1..] == next;
    AnyBoxCharacter(box2, login2);
  }

  /**
   * An empty mention (`@` directly before a line feed or the end of the
   * body) yields nothing, whatever the box holds: the scan resumes on the
   * next line, or ends.
   */
  lemma EmptyMentionIgnored(box: char, rest: string)
    requires box != '\n'
    ensures Scan(Item(box, "") + "\n" + rest) == Scan(rest)
    ensures Scan(Item(box, "")) == []
  {
    var s := Item(box, "") + "\n" + rest;
    assert |Item(box, "")| == 7;
    forall i | 0 <= i < 8 ensures !MatchAt(s[i..]) {
      if i == 0 { assert s[i..][7] == '\n'; }
      else if i == 3 { assert s[i..][1] == ']'; }
      else { assert s[i..][0] == s[i]; }
    }
    SkipNonMatching(s, 8);
    assert s[8..] == rest;
    var e := Item(box, "");
    forall i | 0 <= i < 7 ensures !MatchAt(e[i..]) {
    }
    SkipNonMatching(e, 7);
    assert e[7..] == [];
  }
}
