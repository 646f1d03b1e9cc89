/**
 * Classification of an issue comment into the command it carries: an
 * approval ("lgtm", a thumbs-up), a rule-slot replacement
 * (`cody replace code=login ...`), a request to be replaced
 * (`cody replace me!`), or nothing the bot acts on.
 */
module Commands {
  import opened Wrappers

  /** One `code=login` pair of a replace command: the rule short code and the new reviewer. */
  datatype Pair = Pair(code: string, login: string)

  datatype Intent = Approval | Replace(pairs: seq<Pair>) | ReplaceMe | NoCommand

  /** Whitespace as Ruby's `\s` reads it: space, tab, line feed, vertical tab, form feed, carriage return. */
  predicate IsSpace(c: char)
  {
    c == ' ' || c == '\t' || c == '\n' || c == '\U{000B}' || c == '\U{000C}' || c == '\r'
  }

  /** Characters of a rule code or a login: neither whitespace nor one of the separators `=` and `@`. */
  predicate IsTokenChar(c: char)
  {
    !IsSpace(c) && c != '=' && c != '@'
  }

  function LowerAscii(c: char): char
  {
    if 'A' <= c <= 'Z' then (c as int - 'A' as int + 'a' as int) as char else c
  }

  /** Equality up to the case of ASCII letters. */
  predicate EqualsIgnoringCase(a: string, b: string)
  {
    |a| == |b| && forall i :: 0 <= i < |a| ==> LowerAscii(a[i]) == LowerAscii(b[i])
  }

  /** `s` without its leading whitespace. */
  function SkipSpaces(s: string): (r: string)
    ensures |r| <= |s|
    ensures forall i :: 0 <= i < |s| - |r| ==> IsSpace(s[i])
    ensures r == [] || !IsSpace(r[0])
  {
    if s != [] && IsSpace(s[0]) then SkipSpaces(s[1..]) else s
  }

  /** The longest prefix of `s` made of token characters. */
  function Token(s: string): (r: string)
    ensures |r| <= |s|
    ensures forall i :: 0 <= i < |r| ==> IsTokenChar(r[i])
    ensures |r| == |s| || !IsTokenChar(s[|r|])
  {
    if s != [] && IsTokenChar(s[0]) then [s[0]] + Token(s[1..]) else []
  }

  /** A non-empty code and login made of token characters: what the parser yields, and what it reads back. */
  predicate WellFormed(p: Pair)
  {
    && p.code != [] && p.login != []
    && (forall i :: 0 <= i < |p.code| ==> IsTokenChar(p.code[i]))
    && (forall i :: 0 <= i < |p.login| ==> IsTokenChar(p.login[i]))
  }

  /** `u` without one leading `@`, if it has one. */
  function DropAt(u: string): (r: string)
    ensures |r| <= |u|
  {
    if u != [] && u[0] == '@' then u[1..] else u
  }

  /**
   * Reads one `code=login` pair from the front of `t`, with whitespace and
   * one `@` allowed (and dropped) between `=` and the login. Returns the
   * pair and the text after the login.
   */
  function ReadPair(t: string): (r: Option<(Pair, string)>)
    ensures r.Some? ==> |r.value.1| < |t| && WellFormed(r.value.0)
  {
    var code := Token(t);
    if code == [] || |code| == |t| || t[|code|] != '=' then None
    else
      var v := DropAt(SkipSpaces(t[|code| + 1..]));
      var login := Token(v);
      if login == [] then None
      else Some((Pair(code, login), v[|login|..]))
  }

  /**
   * The `code=login` pairs of a replace command, separated by whitespace.
   * Anything that is not such a pair makes the whole command unreadable
   * (None). The logins returned never keep an `@` or whitespace.
   */
  function ParsePairs(s: string): (r: Option<seq<Pair>>)
    ensures r.Some? ==> forall k :: 0 <= k < |r.value| ==> WellFormed(r.value[k])
    decreases |s|
  {
    var t := SkipSpaces(s);
    if t == [] then Some([])
    else
      match ReadPair(t)
      case None => None
      case Some((p, rest)) =>
        match ParsePairs(rest)
        case None => None
        case Some(more) => Some([p] + more)
  }

  const ReplacePrefix: string := "cody replace "

  const ThumbsUp: char := '\U{1F44D}'

  /** What a comment asks of the bot. The whole comment is the command. */
  function Classify(body: string): Intent
  {
    if EqualsIgnoringCase(body, "lgtm") || body == [ThumbsUp] then Approval
    else if EqualsIgnoringCase(body, "cody replace me") || EqualsIgnoringCase(body, "cody replace me!") then ReplaceMe
    else if |body| >= |ReplacePrefix| && body[..|ReplacePrefix|] == ReplacePrefix then
      match ParsePairs(body[|ReplacePrefix|..])
      case Some(pairs) => if pairs == [] then NoCommand else Replace(pairs)
      case None => NoCommand
    else NoCommand
  }

  // ----- The inverse: writing a replace command -----

  function RenderPair(p: Pair): string
  {
    p.code + "=" + p.login
  }

  /** The pairs written `code=login`, separated by single spaces. */
  function RenderPairs(ps: seq<Pair>): string
  {
    if |ps| == 0 then ""
    else if |ps| == 1 then RenderPair(ps[0])
    else RenderPair(ps[0]) + " " + RenderPairs(ps[1..])
  }

  function RenderReplace(ps: seq<Pair>): string
  {
    ReplacePrefix + RenderPairs(ps)
  }
}

module CommandFacts {
  import opened Wrappers
  import opened Commands

  /** SkipSpaces removes a prefix and nothing else: the result is a suffix of its input. */
  lemma {:induction false} SkipSpacesIsSuffix(s: string)
    ensures SkipSpaces(s) == s[|s| - |SkipSpaces(s)|..]
    decreases |s|
  {
    if s != [] && IsSpace(s[0]) {
      SkipSpacesIsSuffix(s[1..]);
    }
  }

  /** The token is read off the front: it is a prefix of its input. */
  lemma {:induction false} TokenIsPrefix(s: string)
    ensures Token(s) == s[..|Token(s)|]
    decreases |s|
  {
    if s != [] && IsTokenChar(s[0]) {
      TokenIsPrefix(s[1..]);
    }
  }

  lemma {:induction false} TokenOf(a: string, b: string)
    requires forall i :: 0 <= i < |a| ==> IsTokenChar(a[i])
    requires b == [] || !IsTokenChar(b[0])
    ensures Token(a + b) == a
    decreases |a|
  {
    if a != [] {
      assert (a + b)[1..] == a[1..] + b;
      TokenOf(a[1..], b);
    } else {
      assert a + b == b;
    }
  }

  lemma {:induction false} SkipSpacesOf(ws: string, b: string)
    requires forall i :: 0 <= i < |ws| ==> IsSpace(ws[i])
    requires b == [] || !IsSpace(b[0])
    ensures SkipSpaces(ws + b) == b
    decreases |ws|
  {
    if ws != [] {
      assert (ws + b)[1..] == ws[1..] + b;
      SkipSpacesOf(ws[1..], b);
    } else {
      assert ws + b == b;
    }
  }

  /** A code followed by `=` and by text whose login reads as `login` is read as that pair. */
  lemma ReadCodeThenLogin(code: string, rest: string, v: string, login: string, tail: string)
    requires code != [] && forall i :: 0 <= i < |code| ==> IsTokenChar(code[i])
    requires rest != [] && rest[0] == '='
    requires DropAt(SkipSpaces(rest[1..])) == v
    requires Token(v) == login && login != [] && v[|login|..] == tail
    ensures ReadPair(code + rest) == Some((Pair(code, login), tail))
  {
    TokenOf(code, rest);
    assert (code + rest)[|code| + 1..] == rest[1..];
  }

  /** Whitespace and one `@` before a login are dropped. */
  lemma LoginAfterSpaces(ws: string, at: string, v: string)
    requires forall i :: 0 <= i < |ws| ==> IsSpace(ws[i])
    requires at == "" || at == "@"
    requires v != [] && IsTokenChar(v[0])
    ensures DropAt(SkipSpaces(ws + (at + v))) == v
  {
    assert (at + v)[0] == '@' || (at + v)[0] == v[0];
    SkipSpacesOf(ws, at + v);
  }

  /** The written form of a pair, regrouped from the right. */
  lemma WrittenRegrouped(p: Pair, ws: string, at: string, tail: string)
    ensures p.code + "=" + ws + at + p.login + tail == p.code + ("=" + (ws + (at + (p.login + tail))))
  {
  }

  /** One pair is read back from its written form, whatever whitespace and `@` stand after `=`. */
  lemma ReadPairOf(p: Pair, ws: string, at: string, tail: string)
    requires WellFormed(p)
    requires forall i :: 0 <= i < |ws| ==> IsSpace(ws[i])
    requires at == "" || at == "@"
    requires tail == [] || IsSpace(tail[0])
    ensures ReadPair(p.code + "=" + ws + at + p.login + tail) == Some((p, tail))
  {
    var v := p.login + tail;
    var rest := "=" + (ws + (at + v));
    WrittenRegrouped(p, ws, at, tail);
    assert rest[1..] == ws + (at + v);
    LoginAfterSpaces(ws, at, v);
    TokenOf(p.login, tail);
    assert v[|p.login|..] == tail;
    ReadCodeThenLogin(p.code, rest, v, p.login, tail);
  }

  /** One pair is read off the front, and parsing goes on after its login. */
  lemma ParsePairStep(p: Pair, ws: string, at: string, tail: string)
    requires WellFormed(p)
    requires forall i :: 0 <= i < |ws| ==> IsSpace(ws[i])
    requires at == "" || at == "@"
    requires tail == [] || IsSpace(tail[0])
    ensures ParsePairs(p.code + "=" + ws + at + p.login + tail)
         == match ParsePairs(tail)
            case None => None
            case Some(rest) => Some([p] + rest)
  {
    var s := p.code + "=" + ws + at + p.login + tail;
    assert s[0] == p.code[0];
    assert SkipSpaces(s) == s;
    ReadPairOf(p, ws, at, tail);
  }

  /** Leading whitespace is skipped before a pair. */
  lemma ParseAfterSpace(s: string)
    ensures ParsePairs(" " + s) == ParsePairs(s)
  {
    assert (" " + s)[1..] == s;
  }

  /** Parsing reads back every list of well-formed pairs as written. */
  lemma {:induction false} ParseRenderRoundTrip(ps: seq<Pair>)
    requires forall k :: 0 <= k < |ps| ==> WellFormed(ps[k])
    ensures ParsePairs(RenderPairs(ps)) == Some(ps)
    decreases |ps|
  {
    if |ps| == 0 {
      assert RenderPairs(ps) == "";
    } else if |ps| == 1 {
      var p := ps[0];
      assert RenderPairs(ps) == p.code + "=" + "" + "" + p.login + "";
      ParsePairStep(p, "", "", "");
      assert ParsePairs("") == Some([]);
      assert [p] + [] == ps;
    } else {
      var p := ps[0];
      var more := RenderPairs(ps[1..]);
      var tail := " " + more;
      assert RenderPairs(ps) == p.code + "=" + "" + "" + p.login + tail;
      ParsePairStep(p, "", "", tail);
      ParseAfterSpace(more);
      ParseRenderRoundTrip(ps[1..]);
      assert [p] + ps[1..] == ps;
    }
  }

  /** A rendered pair list holds `=` right after its first code, so it never reads as "me" or "me!". */
  lemma RenderedHasEquals(ps: seq<Pair>)
    requires |ps| > 0 && WellFormed(ps[0])
    ensures |RenderPairs(ps)| >= |ps[0].code| + 2
    ensures RenderPairs(ps)[|ps[0].code|] == '='
  {
    if |ps| > 1 {
      assert RenderPairs(ps) == RenderPair(ps[0]) + (" " + RenderPairs(ps[1..]));
    }
  }

  /** A comment with `=` right after a non-empty code is neither "cody replace me" nor "cody replace me!". */
  lemma EqualsSignIsNotReplaceMe(body: string, n: nat)
    requires 1 <= n && 13 + n < |body| && body[13 + n] == '='
    ensures !EqualsIgnoringCase(body, "cody replace me")
    ensures !EqualsIgnoringCase(body, "cody replace me!")
  {
    if n == 1 {
      assert LowerAscii(body[14]) == '=';
    } else if n == 2 {
      assert LowerAscii(body[15]) == '=';
    }
  }

  /** A comment made of the prefix and a non-empty readable pair list is that replace command. */
  lemma ClassifyAsReplace(body: string, n: nat, ps: seq<Pair>)
    requires 1 <= n && 13 + n < |body| && body[13 + n] == '='
    requires body[..|ReplacePrefix|] == ReplacePrefix
    requires ParsePairs(body[|ReplacePrefix|..]) == Some(ps) && ps != []
    ensures Classify(body) == Replace(ps)
  {
    EqualsSignIsNotReplaceMe(body, n);
  }

  /** Every non-empty list of well-formed pairs, written as a replace command, is classified as that command. */
  lemma ClassifyRenderedReplace(ps: seq<Pair>)
    requires |ps| > 0
    requires forall k :: 0 <= k < |ps| ==> WellFormed(ps[k])
    ensures Classify(RenderReplace(ps)) == Replace(ps)
  {
    var body := RenderReplace(ps);
    RenderedHasEquals(ps);
    assert body[13 + |ps[0].code|] == '=';
    assert body[..|ReplacePrefix|] == ReplacePrefix;
    assert body[|ReplacePrefix|..] == RenderPairs(ps);
    ParseRenderRoundTrip(ps);
    ClassifyAsReplace(body, |ps[0].code|, ps);
  }

  /**
   * The replace target is normalised: whitespace and one `@` after `=` are
   * dropped, so `foo=@BrentW` and `foo= @BrentW` name the login `BrentW`.
   */
  lemma ReplaceTargetNormalised(p: Pair, ws: string, at: string)
    requires WellFormed(p)
    requires forall i :: 0 <= i < |ws| ==> IsSpace(ws[i])
    requires at == "" || at == "@"
    ensures Classify(ReplacePrefix + p.code + "=" + ws + at + p.login) == Replace([p])
  {
    var rest := p.code + "=" + ws + at + p.login;
    var body := ReplacePrefix + rest;
    assert body == ReplacePrefix + p.code + "=" + ws + at + p.login;
    assert body[13 + |p.code|] == '=';
    assert body[..|ReplacePrefix|] == ReplacePrefix;
    assert body[|ReplacePrefix|..] == rest;
    ParsePairStep(p, ws, at, "");
    assert rest + "" == rest;
    assert [p] + [] == [p];
    ClassifyAsReplace(body, |p.code|, [p]);
  }

  // ----- The comments exercised by the handler's tests -----

  lemma ApprovalComments()
    ensures Classify("lgtm") == Approval
    ensures Classify("Lgtm") == Approval
    ensures Classify([ThumbsUp]) == Approval
    ensures Classify("cody replace me!") == ReplaceMe
  {
  }
}
