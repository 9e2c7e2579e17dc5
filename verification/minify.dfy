/** Minifying a stylesheet (src/blogin/assets.cpp, minify_css): one pass over the text with
    a look back at what was written, against two plain passes over its tokens. */
module Minify {
  import opened Strings

  predicate IsCssSpace(c: char) { c == ' ' || c == '\t' || c == '\n' || c == '\r' || c == 12 as char }

  predicate IsStructural(c: char) { c in "{}:;,>" }

  predicate IsQuote(c: char) { c == '"' || c == '\'' }

  datatype Token =
    | Blank(space: char)
    | Comment(remark: string)
    | Quote(text: string, closed: bool)
    | Mark(mark: char)
    | Plain(letter: char)
  {
    function Text(): string {
      match this
      case Blank(c) => [c]
      case Comment(remark) => remark
      case Quote(text, _) => text
      case Mark(c) => [c]
      case Plain(c) => [c]
    }

    predicate IsGap() { Blank? || Comment? }
  }

  function One(c: char): Token {
    if IsCssSpace(c) then Blank(c) else if IsStructural(c) then Mark(c) else Plain(c)
  }

  predicate OpensComment(s: string) { |s| >= 2 && s[0] == '/' && s[1] == '*' }

  /** Past the first `*` `/` from `i` on, or the end. */
  function CommentEnd(s: string, i: nat): (end: nat)
    requires i <= |s|
    ensures i <= end <= |s|
    decreases |s| - i
  {
    if i + 2 > |s| then |s| else if s[i] == '*' && s[i + 1] == '/' then i + 2 else CommentEnd(s, i + 1)
  }

  /** Past the quote that closes the string, or the end; an escaped character is passed over. */
  function StringEnd(s: string, i: nat): (end: nat)
    requires 0 < i <= |s|
    ensures i <= end <= |s|
    decreases |s| - i
  {
    if i == |s| then i
    else if s[i] == s[0] then i + 1
    else if s[i] == '\\' && i + 1 < |s| then StringEnd(s, i + 2)
    else StringEnd(s, i + 1)
  }

  predicate Closes(s: string, i: nat)
    requires 0 < i <= |s|
    decreases |s| - i
  {
    if i == |s| then false
    else if s[i] == s[0] then true
    else if s[i] == '\\' && i + 1 < |s| then Closes(s, i + 2)
    else Closes(s, i + 1)
  }

  /** The tokens of a stylesheet; their texts are all of it. */
  function Tokens(s: string): seq<Token>
    decreases |s|
  {
    if s == "" then []
    else if OpensComment(s) then
      var end := CommentEnd(s, 2);
      [Comment(s[..end])] + Tokens(s[end..])
    else if IsQuote(s[0]) then
      var end := StringEnd(s, 1);
      [Quote(s[..end], Closes(s, 1))] + Tokens(s[end..])
    else [One(s[0])] + Tokens(s[1..])
  }

  function Written(tokens: seq<Token>): string {
    if tokens == [] then "" else tokens[0].Text() + Written(tokens[1..])
  }

  // ------------------------------------------------------------- what a stylesheet is made of

  lemma ClosesHere(s: string, i: nat)
    requires i + 2 <= |s|
    ensures StandsAt(s, "*/", i) <==> s[i] == '*' && s[i + 1] == '/'
  {
    assert s[i..i + 2] == [s[i], s[i + 1]];
  }

  lemma {:induction false} CommentPassed(s: string, i: nat, end: nat)
    requires i <= end && StandsAt(s, "*/", end) && forall k | i <= k < end :: !StandsAt(s, "*/", k)
    ensures end + 2 <= |s| && CommentEnd(s, i) == end + 2
    decreases end - i
  {
    ClosesHere(s, i);
    if i < end { CommentPassed(s, i + 1, end); }
  }

  lemma {:induction false} CommentOpen(s: string, i: nat)
    requires i <= |s| && forall k | i <= k :: !StandsAt(s, "*/", k)
    ensures CommentEnd(s, i) == |s|
    decreases |s| - i
  {
    if i + 2 <= |s| {
      ClosesHere(s, i);
      CommentOpen(s, i + 1);
    }
  }

  lemma StandsBehind(before: string, s: string, what: string, k: nat)
    ensures StandsAt(before + s, what, |before| + k) <==> StandsAt(s, what, k)
  {
    if k + |what| <= |s| { assert (before + s)[|before| + k..|before| + k + |what|] == s[k..k + |what|]; }
  }

  lemma ClosedComment(body: string, rest: string)
    requires forall k | 0 <= k < |body| :: !StandsAt(body + ("*/" + rest), "*/", k)
    ensures Tokens("/*" + (body + ("*/" + rest))) == [Comment("/*" + body + "*/")] + Tokens(rest)
  {
    hide CommentEnd, StandsAt, Tokens;
    var after, n := body + ("*/" + rest), 2 + |body|;
    var s := "/*" + after;
    CommentShape(body, rest);
    forall k | 2 <= k < n ensures !StandsAt(s, "*/", k) { StandsBehind("/*", after, "*/", k - 2); }
    ClosesAt(body, rest);
    StandsBehind("/*", after, "*/", |body|);
    CommentPassed(s, 2, n);
    CommentFirst(s, n + 2);
  }

  lemma CommentShape(body: string, rest: string)
    ensures var s, end := "/*" + (body + ("*/" + rest)), |body| + 4;
            OpensComment(s) && end <= |s| && s[..end] == "/*" + body + "*/" && s[end..] == rest
  {
  }

  lemma CommentFirst(s: string, end: nat)
    requires OpensComment(s) && CommentEnd(s, 2) == end
    ensures Tokens(s) == [Comment(s[..end])] + Tokens(s[end..])
  {
    hide CommentEnd;
  }

  lemma OpenComment(body: string)
    requires forall k | 0 <= k :: !StandsAt(body, "*/", k)
    ensures Tokens("/*" + body) == [Comment("/*" + body)]
  {
    hide CommentEnd, StandsAt;
    var s := "/*" + body;
    forall k | 2 <= k ensures !StandsAt(s, "*/", k) { StandsBehind("/*", body, "*/", k - 2); }
    CommentOpen(s, 2);
    assert s[..|s|] == s && s[|s|..] == "";
  }

  /** A comment goes from its sign through the first sign that closes it, or to the end. */
  lemma CommentsTaken(body: string, rest: string)
    ensures (forall k | 0 <= k < |body| :: !StandsAt(body + ("*/" + rest), "*/", k)) ==>
              Tokens("/*" + (body + ("*/" + rest))) == [Comment("/*" + body + "*/")] + Tokens(rest)
    ensures (forall k | 0 <= k :: !StandsAt(body, "*/", k)) ==> Tokens("/*" + body) == [Comment("/*" + body)]
  {
    hide Tokens, StandsAt;
    if forall k | 0 <= k < |body| :: !StandsAt(body + ("*/" + rest), "*/", k) { ClosedComment(body, rest); }
    if forall k | 0 <= k :: !StandsAt(body, "*/", k) { OpenComment(body); }
  }

  lemma ClosesAt(body: string, rest: string)
    ensures StandsAt(body + ("*/" + rest), "*/", |body|)
  {
    StandsBehind(body, "*/" + rest, "*/", 0);
    assert ("*/" + rest)[0..2] == "*/";
  }

  lemma {:induction false} UnitsPassed(s: string, scan: nat, units: seq<Unit>, more: string)
    requires 0 < scan <= |s| && s[scan..] == UnitsText(units) + more && UnitsOf(s[0], units) && s[0] != '\\'
    ensures scan + |UnitsText(units)| <= |s| && s[scan + |UnitsText(units)|..] == more
    ensures StringEnd(s, scan) == StringEnd(s, scan + |UnitsText(units)|)
    ensures Closes(s, scan) == Closes(s, scan + |UnitsText(units)|)
    decreases units
  {
    hide StringEnd, Closes, UnitsText, UnitsOf;
    NoUnits();
    if units == [] {
      assert s[scan..] == more;
    } else {
      var u, after := units[0], UnitsText(units[1..]) + more;
      FirstUnit(s[0], units, more);
      OneUnit(s, scan, u, after);
      UnitsPassed(s, scan + if u.Escaped? then 2 else 1, units[1..], more);
    }
  }

  lemma OneUnit(s: string, scan: nat, u: Unit, after: string)
    requires 0 < scan <= |s| && s[0] != '\\' && (u.Ordinary? ==> u.c != s[0] && u.c != '\\')
    requires s[scan..] == (if u.Escaped? then ['\\', u.c] else [u.c]) + after
    ensures var next := scan + if u.Escaped? then 2 else 1;
            && next <= |s| && s[next..] == after
            && StringEnd(s, scan) == StringEnd(s, next) && Closes(s, scan) == Closes(s, next)
  {
    var head := if u.Escaped? then ['\\', u.c] else [u.c];
    assert s[scan] == s[scan..][0] == head[0] && s[scan + |head|..] == s[scan..][|head|..] == after;
  }

  /** A string goes from its quote through the next that is not escaped, or to the end. */
  lemma StringsTaken(quote: char, units: seq<Unit>, rest: string, escapes: bool)
    requires IsQuote(quote) && UnitsOf(quote, units)
    ensures Tokens([quote] + (UnitsText(units) + ([quote] + rest)))
         == [Quote([quote] + UnitsText(units) + [quote], true)] + Tokens(rest)
    ensures var text := [quote] + (UnitsText(units) + if escapes then "\\" else ""); Tokens(text) == [Quote(text, false)]
  {
    StringClosed(quote, units, rest);
    StringOpen(quote, units, escapes);
  }

  lemma StringClosed(quote: char, units: seq<Unit>, rest: string)
    requires IsQuote(quote) && UnitsOf(quote, units)
    ensures Tokens([quote] + (UnitsText(units) + ([quote] + rest)))
         == [Quote([quote] + UnitsText(units) + [quote], true)] + Tokens(rest)
  {
    var text := UnitsText(units);
    var s, end := [quote] + (text + ([quote] + rest)), 1 + |text|;
    assert s[1..] == text + ([quote] + rest);
    UnitsPassed(s, 1, units, [quote] + rest);
    assert s[end] == s[end..][0] == quote;
    assert StringEnd(s, end) == end + 1 && Closes(s, end);
    hide StringEnd, Closes, UnitsText;
    assert s[..end + 1] == [quote] + text + [quote] && s[end + 1..] == rest;
    assert s[0] == quote && !OpensComment(s);
  }

  lemma StringOpen(quote: char, units: seq<Unit>, escapes: bool)
    requires IsQuote(quote) && UnitsOf(quote, units)
    ensures var text := [quote] + (UnitsText(units) + if escapes then "\\" else ""); Tokens(text) == [Quote(text, false)]
  {
    var more := if escapes then "\\" else "";
    var s, end := [quote] + (UnitsText(units) + more), 1 + |UnitsText(units)|;
    assert s[1..] == UnitsText(units) + more;
    UnitsPassed(s, 1, units, more);
    if escapes { assert s[end] == s[end..][0] == '\\' && StringEnd(s, end) == StringEnd(s, end + 1) && Closes(s, end) == Closes(s, end + 1); }
    assert StringEnd(s, 1) == |s| && !Closes(s, 1);
    hide StringEnd, Closes, UnitsText;
    assert s[..|s|] == s && s[|s|..] == "" && s[0] == quote && !OpensComment(s);
  }

  /** Anything else is a token of its own: space, one of the marks around which space says
      nothing, or a character. */
  lemma OthersTaken(c: char, rest: string)
    requires c != '"' && c != '\'' && !(c == '/' && rest != "" && rest[0] == '*')
    ensures Tokens([c] + rest)
         == [if c in " \t\r\n" || c as int == 12 then Blank(c) else if c in "{}:;,>" then Mark(c) else Plain(c)] + Tokens(rest)
  {
    var s := [c] + rest;
    assert s[1..] == rest && !OpensComment(s);
  }

  // ------------------------------------------------------------- what minifying keeps

  /** A token that is content, and whether space or a comment came before it. */
  datatype Spaced = Spaced(token: Token, gap: bool)

  /** The content, with the gaps only noted. */
  function Content(tokens: seq<Token>, gap: bool): seq<Spaced>
    decreases tokens
  {
    if tokens == [] then []
    else if tokens[0].IsGap() then Content(tokens[1..], true)
    else [Spaced(tokens[0], gap)] + Content(tokens[1..], false)
  }

  predicate EndsNothing(content: seq<Spaced>) {
    |content| >= 2 && content[0].token == Mark(';') && content[1].token == Mark('}')
  }

  /** Without each semicolon that comes directly before a closing brace. */
  function Needed(content: seq<Spaced>): seq<Spaced> {
    if content == [] then []
    else if EndsNothing(content) then Needed(content[1..])
    else [content[0]] + Needed(content[1..])
  }

  /** Whether the gap between two tokens separates anything. */
  predicate Separates(prev: Option<Token>, next: Spaced) {
    next.gap && prev.Some? && !prev.value.Mark? && !next.token.Mark?
  }

  /** The content laid out, one space for each gap that separates. */
  function Laid(prev: Option<Token>, content: seq<Spaced>): seq<Token>
    decreases content
  {
    if content == [] then []
    else
      (if Separates(prev, content[0]) then [Blank(' ')] else [])
        + [content[0].token] + Laid(Some(content[0].token), content[1..])
  }

  /** What a minified stylesheet is to be. */
  function Minified(tokens: seq<Token>): seq<Token> { Laid(None, Needed(Content(tokens, false))) }

  // ------------------------------------------------------------- the single pass

  function Last(out: seq<Token>): Option<Token> { if out == [] then None else Some(out[|out| - 1]) }

  /** The pass as the code makes it, token by token, dropping a semicolon already written. */
  function Pass(out: seq<Token>, pending: bool, tokens: seq<Token>): seq<Token>
    decreases tokens
  {
    if tokens == [] then out
    else if tokens[0].IsGap() then Pass(out, true, tokens[1..])
    else if tokens[0].Mark? then Pass(Marked(out, tokens[0]), false, tokens[1..])
    else Pass(Emitted(out, pending, tokens[0]), false, tokens[1..])
  }

  function Marked(out: seq<Token>, t: Token): seq<Token> {
    (if t == Mark('}') && Last(out) == Some(Mark(';')) then out[..|out| - 1] else out) + [t]
  }

  function Emitted(out: seq<Token>, pending: bool, t: Token): seq<Token> {
    (if Separates(Last(out), Spaced(t, pending)) then out + [Blank(' ')] else out) + [t]
  }

  /** What is written once the semicolon that the next token makes idle is gone. */
  function Settled(out: seq<Token>, content: seq<Spaced>): seq<Token> {
    if content != [] && content[0].token == Mark('}') && Last(out) == Some(Mark(';')) then out[..|out| - 1] else out
  }

  lemma {:induction false} PassLays(out: seq<Token>, pending: bool, tokens: seq<Token>)
    ensures var content := Content(tokens, pending);
            var kept := Settled(out, content);
            Pass(out, pending, tokens) == kept + Laid(Last(kept), Needed(content))
    decreases tokens
  {
    var content := Content(tokens, pending);
    if tokens == [] {
      assert out + [] == out;
    } else if tokens[0].IsGap() {
      PassLays(out, true, tokens[1..]);
    } else {
      var rest := Content(tokens[1..], false);
      var t := tokens[0];
      assert content == [Spaced(t, pending)] + rest && content[1..] == rest;
      var next := if t.Mark? then Marked(out, t) else Emitted(out, pending, t);
      PassLays(next, false, tokens[1..]);
      if t.Mark? {
        MarkLays(out, t, pending, rest);
      } else {
        EmitLays(out, t, pending, rest);
      }
    }
  }

  lemma Regroup(a: seq<Token>, b: seq<Token>, c: seq<Token>)
    ensures a + (b + c) == (a + b) + c
  {
  }

  lemma MarkLays(out: seq<Token>, t: Token, pending: bool, rest: seq<Spaced>)
    requires t.Mark?
    ensures var content := [Spaced(t, pending)] + rest;
            var kept, next := Settled(out, content), Settled(Marked(out, t), rest);
            next + Laid(Last(next), Needed(rest)) == kept + Laid(Last(kept), Needed(content))
  {
    hide Needed, Laid;
    var content := [Spaced(t, pending)] + rest;
    var kept := Settled(out, content);
    assert content[1..] == rest && Marked(out, t) == kept + [t];
    NeededStep(content);
    if EndsNothing(content) {
      assert Settled(Marked(out, t), rest) == kept by { assert (kept + [t])[..|kept|] == kept; }
    } else {
      LayFirst(Last(kept), Spaced(t, pending), Needed(rest));
      Regroup(kept, [t], Laid(Some(t), Needed(rest)));
    }
  }

  lemma EmitLays(out: seq<Token>, t: Token, pending: bool, rest: seq<Spaced>)
    requires !t.Mark? && !t.IsGap()
    ensures var content := [Spaced(t, pending)] + rest;
            var kept, next := Settled(out, content), Settled(Emitted(out, pending, t), rest);
            next + Laid(Last(next), Needed(rest)) == kept + Laid(Last(kept), Needed(content))
  {
    hide Needed, Laid, Separates;
    var content := [Spaced(t, pending)] + rest;
    assert content[1..] == rest;
    NeededStep(content);
    LayFirst(Last(out), Spaced(t, pending), Needed(rest));
    if Separates(Last(out), Spaced(t, pending)) {
      Regroup(out, [Blank(' ')], [t]);
      Regroup(out, [Blank(' ')] + [t], Laid(Some(t), Needed(rest)));
    } else {
      Regroup(out, [t], Laid(Some(t), Needed(rest)));
    }
  }

  lemma LayFirst(prev: Option<Token>, first: Spaced, rest: seq<Spaced>)
    ensures Laid(prev, [first] + rest) ==
              (if Separates(prev, first) then [Blank(' ')] + [first.token] else [first.token]) + Laid(Some(first.token), rest)
  {
    hide Separates;
    LaidStep(prev, [first] + rest);
    assert ([first] + rest)[1..] == rest && [] + [first.token] == [first.token];
  }

  lemma NeededStep(content: seq<Spaced>)
    requires content != []
    ensures Needed(content) == if EndsNothing(content) then Needed(content[1..]) else [content[0]] + Needed(content[1..])
  {
  }

  lemma LaidStep(prev: Option<Token>, content: seq<Spaced>)
    requires content != []
    ensures Laid(prev, content) ==
              (if Separates(prev, content[0]) then [Blank(' ')] else [])
                + [content[0].token] + Laid(Some(content[0].token), content[1..])
  {
  }

  /** One pass with a look back is the two plain passes. */
  lemma PassIsMinified(tokens: seq<Token>)
    ensures Pass([], false, tokens) == Minified(tokens)
  {
    PassLays([], false, tokens);
    assert Settled([], Content(tokens, false)) == [];
    assert [] + Minified(tokens) == Minified(tokens);
  }

  // ------------------------------------------------------------- reading it back

  /** A token as the reader makes it. */
  predicate Sound(t: Token) {
    match t
    case Blank(c) => IsCssSpace(c)
    case Comment(_) => true
    case Mark(c) => IsStructural(c)
    case Plain(c) => !IsCssSpace(c) && !IsStructural(c) && !IsQuote(c)
    case Quote(text, closed) =>
      text != "" && IsQuote(text[0]) && StringEnd(text, 1) == |text| && Closes(text, 1) == closed
  }

  predicate Unclosed(t: Token) { t.Quote? && !t.closed }

  /** Tokens side by side that would be read as they are: only the last string may lack its
      closing quote, and no comment opens between two of them. */
  predicate Follows(t: Token, next: Token) { !Unclosed(t) && !(t == Plain('/') && next == Plain('*')) }

  predicate Readable(tokens: seq<Token>) {
    tokens == [] ||
    (Sound(tokens[0]) && (|tokens| > 1 ==> Follows(tokens[0], tokens[1])) && Readable(tokens[1..]))
  }

  predicate NoComments(tokens: seq<Token>) { forall t | t in tokens :: !t.Comment? }

  lemma {:induction false} ClosedAlone(s: string, i: nat, rest: string)
    requires 0 < i <= |s| && Closes(s, i) && StringEnd(s, i) == |s|
    ensures StringEnd(s + rest, i) == |s| && Closes(s + rest, i)
    decreases |s| - i
  {
    var t := s + rest;
    assert t[0] == s[0] && t[i] == s[i];
    if s[i] != s[0] {
      if s[i] == '\\' && i + 1 < |s| {
        ClosedAlone(s, i + 2, rest);
      } else {
        ClosedAlone(s, i + 1, rest);
      }
    }
  }

  lemma {:induction false} ReadsBack(tokens: seq<Token>)
    requires Readable(tokens) && NoComments(tokens)
    ensures Tokens(Written(tokens)) == tokens
    decreases tokens
  {
    hide Tokens, StringEnd, Closes;
    if tokens == [] {
      NoTokens();
    } else {
      var t, rest := tokens[0], tokens[1..];
      assert t in tokens && tokens == [t] + rest;
      forall u | u in rest ensures !u.Comment? { assert u in tokens; }
      ReadsBack(rest);
      if t.Quote? {
        if rest == [] {
          assert Written(rest) == "" && t.text + "" == t.text;
        } else {
          ClosedAlone(t.text, 1, Written(rest));
        }
        QuoteReads(t, Written(rest));
      } else {
        FirstWritten(rest);
        OneReads(t, rest);
      }
    }
  }

  lemma QuoteReads(t: Token, rest: string)
    requires t.Quote? && Sound(t)
    requires StringEnd(t.text + rest, 1) == |t.text| && Closes(t.text + rest, 1) == t.closed
    ensures Tokens(t.text + rest) == [t] + Tokens(rest)
  {
    hide StringEnd, Closes;
    var s := t.text + rest;
    assert s[0] == t.text[0] && !OpensComment(s);
    assert s[..|t.text|] == t.text && s[|t.text|..] == rest;
  }

  /** What the text of some tokens begins with. */
  lemma FirstWritten(tokens: seq<Token>)
    requires Readable(tokens) && NoComments(tokens)
    ensures Written(tokens) != "" && Written(tokens)[0] == '*' ==> tokens != [] && tokens[0] == Plain('*')
  {
    if tokens != [] {
      assert tokens[0] in tokens;
      assert Written(tokens)[0] == tokens[0].Text()[0];
    }
  }

  lemma OneReads(t: Token, rest: seq<Token>)
    requires Sound(t) && !t.Quote? && !t.Comment?
    requires Written(rest) != "" && Written(rest)[0] == '*' ==> rest != [] && rest[0] == Plain('*')
    requires rest != [] ==> Follows(t, rest[0])
    ensures Tokens(t.Text() + Written(rest)) == [t] + Tokens(Written(rest))
  {
    hide Written, StringEnd, Closes, CommentEnd;
    var s := t.Text() + Written(rest);
    assert |t.Text()| == 1 && s[0] == t.Text()[0] && s[1..] == Written(rest);
    if |s| > 1 && s[0] == '/' { assert s[1] == Written(rest)[0]; }
    assert One(s[0]) == t;
  }

  // ------------------------------------------------------------- what the reader makes

  lemma {:induction false} PrefixString(s: string, i: nat, end: nat)
    requires 0 < i <= end <= |s| && StringEnd(s, i) == end
    ensures StringEnd(s[..end], i) == end && Closes(s[..end], i) == Closes(s, i)
    decreases |s| - i
  {
    var t := s[..end];
    if i < |s| && s[i] != s[0] {
      if s[i] == '\\' && i + 1 < |s| {
        PrefixString(s, i + 2, end);
      } else {
        PrefixString(s, i + 1, end);
      }
    }
  }

  lemma {:induction false} UnclosedReachesEnd(s: string, i: nat)
    requires 0 < i <= |s| && !Closes(s, i)
    ensures StringEnd(s, i) == |s|
    decreases |s| - i
  {
    if i < |s| {
      if s[i] == '\\' && i + 1 < |s| {
        UnclosedReachesEnd(s, i + 2);
      } else {
        UnclosedReachesEnd(s, i + 1);
      }
    }
  }

  /** The first token of a stylesheet, and where it ends. */
  function First(s: string): (Token, nat)
    requires s != ""
  {
    if OpensComment(s) then (Comment(s[..CommentEnd(s, 2)]), CommentEnd(s, 2))
    else if IsQuote(s[0]) then (Quote(s[..StringEnd(s, 1)], Closes(s, 1)), StringEnd(s, 1))
    else (One(s[0]), 1)
  }

  lemma FirstSound(s: string)
    requires s != ""
    ensures var (t, end) := First(s);
            0 < end <= |s| && t.Text() == s[..end] && Sound(t) && (Unclosed(t) ==> end == |s|)
  {
    hide StringEnd, Closes, CommentEnd, Tokens;
    if !OpensComment(s) && IsQuote(s[0]) {
      PrefixString(s, 1, StringEnd(s, 1));
      if !Closes(s, 1) { UnclosedReachesEnd(s, 1); }
    }
  }

  lemma FirstRead(s: string)
    requires s != "" && First(s).1 <= |s|
    ensures Tokens(s) == [First(s).0] + Tokens(s[First(s).1..])
  {
    hide StringEnd, Closes, CommentEnd;
  }

  /** The tokens of a stylesheet are all of it, and could be read no other way. */
  lemma {:induction false} TokensReadable(s: string)
    ensures Written(Tokens(s)) == s && Readable(Tokens(s))
    decreases |s|
  {
    hide Tokens, First, Sound;
    if s == "" {
      NoTokens();
    } else {
      FirstSound(s);
      FirstRead(s);
      var (t, end) := First(s);
      TokensReadable(s[end..]);
      FirstToken([t], Tokens(s[end..]));
      FirstApart(s);
      assert s[..end] + s[end..] == s;
      if end == |s| {
        assert s[end..] == "";
        NoTokens();
      }
    }
  }

  lemma NoTokens()
    ensures Tokens("") == []
  {
  }

  lemma FirstApart(s: string)
    requires s != ""
    ensures var (t, end) := First(s);
            end <= |s| && (end < |s| ==> Tokens(s[end..]) != [])
            && (Tokens(s[end..]) != [] ==> !(t == Plain('/') && Tokens(s[end..])[0] == Plain('*')))
  {
    hide StringEnd, Closes, CommentEnd, Tokens;
    FirstSound(s);
    var (t, end) := First(s);
    if end < |s| {
      FirstSound(s[end..]);
      FirstRead(s[end..]);
    } else {
      assert s[end..] == "";
      NoTokens();
    }
    if !OpensComment(s) && !IsQuote(s[0]) { NotAComment(s); }
  }

  lemma FirstToken(t: seq<Token>, rest: seq<Token>)
    requires |t| == 1
    ensures (t + rest)[0] == t[0] && (t + rest)[1..] == rest && Written(t + rest) == t[0].Text() + Written(rest)
    ensures Readable(t + rest) == (Sound(t[0]) && (rest != [] ==> Follows(t[0], rest[0])) && Readable(rest))
  {
    assert (t + rest)[1..] == rest;
  }

  lemma NotAComment(s: string)
    requires |s| >= 1 && !OpensComment(s)
    ensures Tokens(s[1..]) != [] ==> !(One(s[0]) == Plain('/') && Tokens(s[1..])[0] == Plain('*'))
  {
    if |s| > 1 && s[0] == '/' {
      assert s[1..][0] == s[1];
    }
  }

  // ------------------------------------------------------------- what is laid out is readable

  /** Content that could be laid out: strings closed but for the last, and a star straight
      after a slash only across a gap. */
  predicate Layable(content: seq<Spaced>) {
    content == [] ||
    (Sound(content[0].token) && !content[0].token.IsGap()
     && (|content| > 1 ==> Beside(content[0].token, content[1])) && Layable(content[1..]))
  }

  predicate Beside(t: Token, next: Spaced) {
    !Unclosed(t) && !(t == Plain('/') && next.token == Plain('*') && !next.gap)
  }

  lemma {:induction false} ContentLayable(tokens: seq<Token>, gap: bool)
    requires Readable(tokens)
    ensures Layable(Content(tokens, gap))
    ensures Content(tokens, gap) != [] ==>
              tokens != [] && (Content(tokens, gap)[0] == Spaced(tokens[0], gap) || Content(tokens, gap)[0].gap)
    decreases tokens
  {
    if tokens != [] {
      if tokens[0].IsGap() {
        ContentLayable(tokens[1..], true);
      } else {
        ContentLayable(tokens[1..], false);
        var rest := Content(tokens[1..], false);
        assert ([Spaced(tokens[0], gap)] + rest)[1..] == rest;
      }
    }
  }

  lemma {:induction false} NeededLayable(content: seq<Spaced>)
    requires Layable(content)
    ensures Layable(Needed(content))
    ensures content != [] ==> Needed(content) != []
                              && (Needed(content)[0] == content[0] || Needed(content)[0].token == Mark('}'))
    decreases content
  {
    if content != [] {
      NeededLayable(content[1..]);
      if !EndsNothing(content) {
        var rest := Needed(content[1..]);
        assert ([content[0]] + rest)[1..] == rest;
        if rest != [] { assert Beside(content[0].token, content[1]); }
      }
    }
  }

  lemma {:induction false} LaidReadable(prev: Option<Token>, content: seq<Spaced>)
    requires Layable(content)
    requires content != [] && prev.Some? ==> Beside(prev.value, content[0])
    ensures Readable(Laid(prev, content)) && NoComments(Laid(prev, content))
    ensures Laid(prev, content) != [] ==>
              content != [] && (if Separates(prev, content[0]) then Laid(prev, content)[0] == Blank(' ')
                                else Laid(prev, content)[0] == content[0].token)
    decreases content
  {
    hide Laid, Sound;
    if content == [] {
      LaidNothing(prev);
    } else {
      var t := content[0].token;
      LaidReadable(Some(t), content[1..]);
      LaidStep(prev, content);
      var rest := Laid(Some(t), content[1..]);
      FirstToken([t], rest);
      if Separates(prev, content[0]) {
        SpaceSound();
        FirstToken([Blank(' ')], [t] + rest);
        assert [Blank(' ')] + [t] + rest == [Blank(' ')] + ([t] + rest);
      } else {
        assert [] + [t] + rest == [t] + rest;
      }
    }
  }

  lemma LaidNothing(prev: Option<Token>)
    ensures Laid(prev, []) == [] && Readable([])
  {
  }

  /** The minified stylesheet, read again, is just the tokens it was made of: strings word
      for word, everything else in order, no comment, and no two things joined that were
      apart. */
  lemma MinifiedReadsBack(css: string)
    ensures Tokens(Written(Minified(Tokens(css)))) == Minified(Tokens(css))
  {
    TokensReadable(css);
    ContentLayable(Tokens(css), false);
    NeededLayable(Content(Tokens(css), false));
    LaidReadable(None, Needed(Content(Tokens(css), false)));
    ReadsBack(Minified(Tokens(css)));
  }

  // ------------------------------------------------------------- what it holds

  function Bare(content: seq<Spaced>): seq<Token> {
    seq(|content|, i requires 0 <= i < |content| => content[i].token)
  }

  /** The content of what is laid out is the content it was laid out from. */
  lemma {:induction false} LaidContent(prev: Option<Token>, content: seq<Spaced>, gap: bool)
    requires forall c | c in content :: !c.token.IsGap()
    ensures Bare(Content(Laid(prev, content), gap)) == Bare(content)
    decreases content
  {
    hide Content, Laid, Bare;
    if content == [] {
      NothingLaid(prev, gap);
    } else {
      var t := content[0].token;
      assert content[0] in content;
      forall c | c in content[1..] ensures !c.token.IsGap() { assert c in content; }
      var rest := Laid(Some(t), content[1..]);
      LaidContent(Some(t), content[1..], false);
      LaidStep(prev, content);
      BareFirst(content);
      ContentFirst(t, rest, gap);
      ContentFirst(t, rest, true);
      if Separates(prev, content[0]) {
        assert Laid(prev, content) == [Blank(' ')] + ([t] + rest);
        ContentGap(Blank(' '), [t] + rest, gap);
      } else {
        assert Laid(prev, content) == [t] + rest;
      }
    }
  }

  lemma NothingLaid(prev: Option<Token>, gap: bool)
    ensures Content(Laid(prev, []), gap) == []
  {
  }

  lemma BareFirst(content: seq<Spaced>)
    requires content != []
    ensures Bare(content) == [content[0].token] + Bare(content[1..])
  {
  }

  lemma ContentGap(t: Token, rest: seq<Token>, gap: bool)
    requires t.IsGap()
    ensures Content([t] + rest, gap) == Content(rest, true)
  {
    assert ([t] + rest)[1..] == rest;
  }

  lemma ContentFirst(t: Token, rest: seq<Token>, gap: bool)
    requires !t.IsGap()
    ensures Bare(Content([t] + rest, gap)) == [t] + Bare(Content(rest, false))
  {
    assert ([t] + rest)[1..] == rest;
  }

  /** No space at either end, none doubled and none beside structural punctuation. */
  predicate Tight(prev: Option<Token>, tokens: seq<Token>)
    decreases tokens
  {
    tokens == [] ||
    (Tight(Some(tokens[0]), tokens[1..])
     && (tokens[0].Blank? ==>
           && prev.Some? && !prev.value.Blank? && !prev.value.Mark?
           && |tokens| > 1 && !tokens[1].Blank? && !tokens[1].Mark?))
  }

  lemma {:induction false} LaidTight(prev: Option<Token>, content: seq<Spaced>)
    requires forall c | c in content :: !c.token.IsGap()
    requires prev.Some? ==> !prev.value.IsGap()
    ensures Tight(prev, Laid(prev, content))
    decreases content
  {
    if content != [] {
      var t := content[0].token;
      assert content[0] in content;
      forall c | c in content[1..] ensures !c.token.IsGap() { assert c in content; }
      var rest := Laid(Some(t), content[1..]);
      LaidTight(Some(t), content[1..]);
      assert ([t] + rest)[1..] == rest && ([t] + rest)[0] == t;
      if Separates(prev, content[0]) {
        assert Laid(prev, content) == [Blank(' ')] + ([t] + rest);
        assert ([Blank(' ')] + ([t] + rest))[1..] == [t] + rest;
      } else {
        assert Laid(prev, content) == [t] + rest;
      }
    }
  }

  lemma {:induction false} NoGaps(tokens: seq<Token>, gap: bool)
    ensures forall c | c in Content(tokens, gap) :: !c.token.IsGap()
    ensures forall c | c in Needed(Content(tokens, gap)) :: !c.token.IsGap()
    decreases tokens
  {
    if tokens != [] {
      NoGaps(tokens[1..], if tokens[0].IsGap() then true else false);
      var rest := Content(tokens[1..], false);
      assert ([Spaced(tokens[0], gap)] + rest)[1..] == rest;
    }
  }

  /** Minifying keeps the content, in order, but for semicolons before a closing brace, and
      leaves no comment and no space that separates nothing. */
  lemma MinifiedKeepsContent(css: string)
    ensures Bare(Content(Minified(Tokens(css)), false)) == Bare(Needed(Content(Tokens(css), false)))
    ensures Tight(None, Minified(Tokens(css))) && NoComments(Minified(Tokens(css)))
  {
    NoGaps(Tokens(css), false);
    LaidContent(None, Needed(Content(Tokens(css), false)), false);
    LaidTight(None, Needed(Content(Tokens(css), false)));
    TokensReadable(css);
    ContentLayable(Tokens(css), false);
    NeededLayable(Content(Tokens(css), false));
    LaidReadable(None, Needed(Content(Tokens(css), false)));
  }

  function MinifiedText(css: string): string { Written(Minified(Tokens(css))) }

  // ------------------------------------------------------------- words and signs

  /** What a stylesheet says: its signs, and its words, which are the tokens between signs and
      gaps. */
  datatype Item = Sign(sign: char) | Chunk(tokens: seq<Token>)

  function Flush(word: seq<Token>): seq<Item> { if word == [] then [] else [Chunk(word)] }

  function Items(tokens: seq<Token>, word: seq<Token>): seq<Item>
    decreases tokens
  {
    if tokens == [] then Flush(word)
    else if tokens[0].Blank? || tokens[0].Comment? then Flush(word) + Items(tokens[1..], [])
    else if tokens[0].Mark? then Flush(word) + ([Sign(tokens[0].mark)] + Items(tokens[1..], []))
    else Items(tokens[1..], word + [tokens[0]])
  }

  /** The items without each semicolon that comes directly before a closing brace. */
  function Ended(items: seq<Item>): seq<Item> {
    if items == [] then []
    else if |items| > 1 && items[0] == Sign(';') && items[1] == Sign('}') then Ended(items[1..])
    else [items[0]] + Ended(items[1..])
  }

  function ItemsOf(content: seq<Spaced>, word: seq<Token>): seq<Item>
    decreases content
  {
    if content == [] then Flush(word)
    else
      var t, rest := content[0].token, content[1..];
      if t.Mark? then Flush(word) + ([Sign(t.mark)] + ItemsOf(rest, []))
      else if content[0].gap then Flush(word) + ItemsOf(rest, [t])
      else ItemsOf(rest, word + [t])
  }

  lemma {:induction false} ContentItems(tokens: seq<Token>, gap: bool, word: seq<Token>)
    ensures ItemsOf(Content(tokens, gap), word) == if gap then Flush(word) + Items(tokens, []) else Items(tokens, word)
    decreases tokens
  {
    if tokens == [] {
      assert Flush(word) + [] == Flush(word);
    } else {
      var t, rest := tokens[0], tokens[1..];
      if t.IsGap() {
        ContentItems(rest, true, word);
        assert Flush(word) + ([] + Items(rest, [])) == Flush(word) + Items(rest, []);
      } else {
        assert Content(tokens, gap)[1..] == Content(rest, false);
        ContentItems(rest, false, []);
        ContentItems(rest, false, [t]);
        ContentItems(rest, false, word + [t]);
        assert [] + [t] == [t] && [] + ([Sign(if t.Mark? then t.mark else ' ')] + Items(rest, []))
            == [Sign(if t.Mark? then t.mark else ' ')] + Items(rest, []);
      }
    }
  }

  /** A word is there after a token that is no mark, and only then. */
  predicate Standing(prev: Option<Token>, word: seq<Token>) { word != [] <==> prev.Some? && !prev.value.Mark? }

  lemma {:induction false} LaidItems(prev: Option<Token>, content: seq<Spaced>, word: seq<Token>)
    requires Standing(prev, word) && forall c | c in content :: !c.token.IsGap()
    ensures ItemsOf(Content(Laid(prev, content), false), word) == ItemsOf(content, word)
    decreases content
  {
    hide ItemsOf;
    if content == [] {
    } else {
      var first, rest := content[0], content[1..];
      var t := first.token;
      assert first in content && forall c | c in rest :: c in content;
      assert content == [first] + rest;
      LayFirst(prev, first, rest);
      var gap, after := Separates(prev, first), Content(Laid(Some(t), rest), false);
      FirstContent(gap, t, Laid(Some(t), rest));
      ItemsFirst(Spaced(t, gap), after, word);
      ItemsFirst(first, rest, word);
      LaidItems(Some(t), rest, if t.Mark? then [] else if first.gap && word != [] then [t] else word + [t]);
      if !t.Mark? && word == [] { assert word + [t] == [t]; }
    }
  }

  lemma FirstContent(gap: bool, t: Token, rest: seq<Token>)
    requires !t.IsGap()
    ensures Content((if gap then [Blank(' ')] + [t] else [t]) + rest, false) == [Spaced(t, gap)] + Content(rest, false)
  {
    assert ([t] + rest)[1..] == rest;
    if gap { assert ([Blank(' ')] + [t] + rest)[1..] == [t] + rest; }
  }

  lemma ItemsFirst(first: Spaced, rest: seq<Spaced>, word: seq<Token>)
    ensures ItemsOf([first] + rest, word) ==
              if first.token.Mark? then Flush(word) + ([Sign(first.token.mark)] + ItemsOf(rest, []))
              else if first.gap && word != [] then Flush(word) + ItemsOf(rest, [first.token])
              else ItemsOf(rest, word + [first.token])
  {
    assert ([first] + rest)[1..] == rest;
    if first.gap && word == [] { assert Flush(word) + ItemsOf(rest, [first.token]) == ItemsOf(rest, word + [first.token]) by {
      assert word + [first.token] == [first.token] && [] + ItemsOf(rest, [first.token]) == ItemsOf(rest, [first.token]);
    } }
  }

  /** What comes first of what a stylesheet says from here on. */
  lemma ItemsStart(content: seq<Spaced>, word: seq<Token>)
    requires content != [] && word == []
    ensures ItemsOf(content, word) != []
    ensures content[0].token.Mark? <==> ItemsOf(content, word)[0].Sign?
    ensures content[0].token.Mark? ==> ItemsOf(content, word)[0] == Sign(content[0].token.mark)
  {
    assert content == [content[0]] + content[1..];
    ItemsFirst(content[0], content[1..], word);
    if !content[0].token.Mark? {
      assert word + [content[0].token] == [content[0].token];
      StartsWithWord(content[1..], [content[0].token]);
    }
  }

  lemma {:induction false} StartsWithWord(content: seq<Spaced>, word: seq<Token>)
    requires word != []
    ensures ItemsOf(content, word) != [] && ItemsOf(content, word)[0].Chunk?
    decreases content
  {
    if content != [] && !content[0].token.Mark? && !content[0].gap { StartsWithWord(content[1..], word + [content[0].token]); }
  }

  lemma EndedBehind(word: seq<Token>, items: seq<Item>)
    ensures Ended(Flush(word) + items) == Flush(word) + Ended(items)
  {
    if word == [] {
      assert Flush(word) + items == items && Flush(word) + Ended(items) == Ended(items);
    } else {
      assert (Flush(word) + items)[1..] == items;
    }
  }

  lemma {:induction false} NeededItems(content: seq<Spaced>, word: seq<Token>)
    ensures ItemsOf(Needed(content), word) == Ended(ItemsOf(content, word))
    decreases content
  {
    if content == [] {
      EndedBehind(word, []);
      assert Flush(word) + [] == Flush(word);
    } else {
      var first, rest := content[0], content[1..];
      hide ItemsOf, Ended;
      assert content == [first] + rest;
      ItemsFirst(first, rest, word);
      ItemsFirst(first, Needed(rest), word);
      if first.token.Mark? {
        NeededItems(rest, []);
        MarkEnded(first, rest, word);
      } else if first.gap && word != [] {
        NeededItems(rest, [first.token]);
        EndedBehind(word, ItemsOf(rest, [first.token]));
      } else {
        NeededItems(rest, word + [first.token]);
      }
    }
  }

  lemma MarkEnded(first: Spaced, rest: seq<Spaced>, word: seq<Token>)
    requires first.token.Mark? && ItemsOf(Needed(rest), []) == Ended(ItemsOf(rest, []))
    ensures ItemsOf(Needed([first] + rest), word) == Ended(ItemsOf([first] + rest, word))
  {
    hide ItemsOf;
    var content, sign, items := [first] + rest, Sign(first.token.mark), ItemsOf(rest, []);
    assert content[1..] == rest;
    ItemsFirst(first, rest, word);
    ItemsFirst(first, Needed(rest), word);
    EndedBehind(word, [sign] + items);
    assert ([sign] + items)[1..] == items;
    if rest != [] {
      ItemsStart(rest, []);
    } else {
      NothingSaid();
    }
    if EndsNothing(content) {
      BraceFirst(rest, word);
    }
  }

  lemma NothingSaid()
    ensures ItemsOf([], []) == []
  {
  }

  /** A closing brace ends whatever word there is. */
  lemma BraceFirst(rest: seq<Spaced>, word: seq<Token>)
    requires rest != [] && rest[0].token == Mark('}')
    ensures ItemsOf(Needed(rest), word) == Flush(word) + ItemsOf(Needed(rest), [])
  {
    NeededStep(rest);
    hide Needed;
    assert !EndsNothing(rest);
    ItemsFirst(rest[0], Needed(rest[1..]), word);
    ItemsFirst(rest[0], Needed(rest[1..]), []);
    hide ItemsOf;
    assert Flush([]) == [] && [] + ([Sign('}')] + ItemsOf(Needed(rest[1..]), [])) == [Sign('}')] + ItemsOf(Needed(rest[1..]), []);
  }

  /** A minified stylesheet says what the stylesheet does, sign by sign and word by word, but for
      the semicolons directly before a closing brace. */
  lemma MinifiedSaysTheSame(css: string)
    ensures Items(Tokens(MinifiedText(css)), []) == Ended(Items(Tokens(css), []))
  {
    hide Tokens, Items, ItemsOf, Ended, Content, Needed, Laid, Written;
    var tokens := Tokens(css);
    MinifiedReadsBack(css);
    ContentItems(Minified(tokens), false, []);
    NoGaps(tokens, false);
    LaidItems(None, Needed(Content(tokens, false)), []);
    NeededItems(Content(tokens, false), []);
    ContentItems(tokens, false, []);
  }

  // ------------------------------------------------------------- minifying again

  /** Somewhere two semicolons stand directly before a closing brace. */
  predicate DoublyIdle(content: seq<Spaced>) { exists i | 0 <= i < |content| - 2 :: DoubleAt(content, i) }

  predicate DoubleAt(content: seq<Spaced>, i: nat)
    requires i + 2 < |content|
  {
    content[i].token == Mark(';') && content[i + 1].token == Mark(';') && content[i + 2].token == Mark('}')
  }

  /** A semicolon is left directly before a closing brace. */
  predicate IdleLeft(content: seq<Spaced>) {
    content != [] && (EndsNothing(content) || IdleLeft(content[1..]))
  }

  lemma DoublyIdleStep(content: seq<Spaced>)
    requires content != []
    ensures DoublyIdle(content) <==>
            DoublyIdle(content[1..]) || (content[0].token == Mark(';') && EndsNothing(content[1..]))
  {
    var rest := content[1..];
    assert |content| > 2 ==> (DoubleAt(content, 0) <==> content[0].token == Mark(';') && EndsNothing(rest));
    forall i | 0 < i < |content| - 2 ensures DoubleAt(content, i) <==> DoubleAt(rest, i - 1) {
      assert rest[i - 1] == content[i] && rest[i] == content[i + 1] && rest[i + 1] == content[i + 2];
    }
    hide DoubleAt;
    if i :| 0 <= i < |rest| - 2 && DoubleAt(rest, i) { assert DoubleAt(content, i + 1); }
  }

  /** One pass leaves an idle semicolon just where there were two. */
  lemma {:induction false} IdleLeftExactly(content: seq<Spaced>)
    ensures IdleLeft(Needed(content)) <==> DoublyIdle(content)
    ensures Needed(content) != [] ==>
              (Needed(content)[0].token == Mark('}') <==> content[0].token == Mark('}') || EndsNothing(content))
    ensures Needed(content) == [] <==> content == []
    decreases content
  {
    if content != [] {
      var rest := content[1..];
      IdleLeftExactly(rest);
      DoublyIdleStep(content);
      if !EndsNothing(content) {
        var kept := [content[0]] + Needed(rest);
        assert kept[1..] == Needed(rest) && Needed(content) == kept;
      }
    }
  }

  lemma {:induction false} NeededAgain(content: seq<Spaced>)
    ensures |Needed(content)| <= |content|
    ensures IdleLeft(content) ==> |Needed(content)| < |content|
    ensures !IdleLeft(content) ==> Needed(content) == content
    decreases content
  {
    if content != [] { NeededAgain(content[1..]); }
  }

  lemma {:induction false} IdleByTokens(a: seq<Spaced>, b: seq<Spaced>)
    requires Bare(a) == Bare(b)
    ensures IdleLeft(a) == IdleLeft(b)
    decreases a
  {
    assert |Bare(a)| == |a| && |Bare(b)| == |b|;
    assert forall i | 0 <= i < |a| :: a[i].token == Bare(a)[i] == Bare(b)[i] == b[i].token;
    if a != [] {
      assert Bare(a[1..]) == Bare(a)[1..] == Bare(b)[1..] == Bare(b[1..]);
      IdleByTokens(a[1..], b[1..]);
    }
  }

  /** Content read back from what was laid out is laid out the same. */
  lemma {:induction false} LaidAgain(prev: Option<Token>, content: seq<Spaced>)
    requires forall c | c in content :: !c.token.IsGap()
    ensures Laid(prev, Content(Laid(prev, content), false)) == Laid(prev, content)
    decreases content
  {
    hide Content, Laid;
    if content == [] {
      NothingLaid(prev, false);
    } else {
      var t := content[0].token;
      assert content[0] in content;
      forall c | c in content[1..] ensures !c.token.IsGap() { assert c in content; }
      var rest := Laid(Some(t), content[1..]);
      LaidAgain(Some(t), content[1..]);
      LaidStep(prev, content);
      var gap := Separates(prev, content[0]);
      var again := [Spaced(t, gap)] + Content(rest, false);
      ContentOf(t, rest, gap);
      if gap {
        assert Laid(prev, content) == [Blank(' ')] + ([t] + rest);
        ContentGap(Blank(' '), [t] + rest, false);
      } else {
        assert Laid(prev, content) == [t] + rest;
      }
      LaidStep(prev, again);
      assert again[1..] == Content(rest, false);
    }
  }

  lemma ContentOf(t: Token, rest: seq<Token>, gap: bool)
    requires !t.IsGap()
    ensures Content([t] + rest, gap) == [Spaced(t, gap)] + Content(rest, false)
  {
    assert ([t] + rest)[1..] == rest;
  }

  /** A minified stylesheet minifies to itself if and only if nowhere in the original two
      semicolons stood directly before a closing brace. */
  lemma MinifiedAgainExactly(css: string)
    ensures MinifiedText(MinifiedText(css)) == MinifiedText(css) <==> !DoublyIdle(Content(Tokens(css), false))
  {
    hide Tokens, Content, Needed, Laid, Written, Bare, DoublyIdle, IdleLeft;
    var content := Content(Tokens(css), false);
    var once := Minified(Tokens(css));
    var again := Content(once, false);
    MinifiedReadsBack(css);
    MinifiedReadsBack(MinifiedText(css));
    NoGaps(Tokens(css), false);
    NoGaps(once, false);
    LaidContent(None, Needed(content), false);
    IdleLeftExactly(content);
    IdleByTokens(again, Needed(content));
    NeededAgain(again);
    LaidAgain(None, Needed(content));
    LaidContent(None, Needed(again), false);
    if IdleLeft(again) {
      BareLength(again);
      BareLength(Needed(again));
      assert Minified(once) != once;
    }
  }

  lemma BareLength(content: seq<Spaced>)
    ensures |Bare(content)| == |content|
  {
  }

  /** Of `;;}` one semicolon goes in each pass. */
  lemma TwoSemicolonsTwoPasses()
    ensures MinifiedText(";;}") == ";}" && MinifiedText(MinifiedText(";;}")) == "}"
  {
    hide Tokens, Minified, Written;
    OnePass(";;}");
    OnePass(";}");
    TwoWritten(Mark(';'), Mark('}'));
    WrittenOne(Mark('}'));
  }

  /** One pass over one of the two texts. */
  lemma OnePass(s: string)
    requires s == ";;}" || s == ";}"
    ensures Minified(Tokens(s)) == if s == ";;}" then [Mark(';'), Mark('}')] else [Mark('}')]
  {
    ReadMarks(s);
    var a, b := Spaced(Mark(';'), false), Spaced(Mark('}'), false);
    MarksContent(Tokens(s));
    TwoNeeded(a, b);
    TwoLaid(a, b);
    hide Tokens, Content, Needed, Laid;
    assert Content(Tokens(s), false) == if s == ";;}" then [a, a, b] else [a, b];
  }

  lemma TwoNeeded(a: Spaced, b: Spaced)
    requires a.token == Mark(';') && b.token == Mark('}')
    ensures Needed([a, b]) == [b] && Needed([a, a, b]) == [a, b]
  {
    hide Needed;
    assert [a, a, b][1..] == [a, b] && [a, b][1..] == [b] && [b][1..] == [];
    NeededStep([b]);
    NeededStep([a, b]);
    NeededStep([a, a, b]);
    NeededNothing();
    assert [a] + [b] == [a, b] && [b] + [] == [b];
  }

  lemma NeededNothing()
    ensures Needed([]) == []
  {
  }

  lemma TwoLaid(a: Spaced, b: Spaced)
    requires a.token.Mark? && b.token.Mark?
    ensures Laid(None, [b]) == [b.token] && Laid(None, [a, b]) == [a.token, b.token]
  {
    hide Laid;
    assert [a, b][1..] == [b] && [b][1..] == [];
    LaidStep(None, [b]);
    LaidStep(None, [a, b]);
    LaidStep(Some(a.token), [b]);
    LaidNothing(Some(b.token));
    assert [] + [b.token] + [] == [b.token] && [] + [a.token] + [b.token] == [a.token, b.token];
  }

  lemma TwoWritten(a: Token, b: Token)
    ensures Written([a, b]) == a.Text() + b.Text()
  {
    hide Written;
    assert [a] + [b] == [a, b];
    WrittenConcat([a], [b]);
    WrittenOne(a);
    WrittenOne(b);
  }

  /** Punctuation alone is read mark by mark. */
  lemma {:induction false} ReadMarks(s: string)
    requires forall c | c in s :: IsStructural(c)
    ensures Tokens(s) == seq(|s|, i requires 0 <= i < |s| => Mark(s[i]))
    decreases |s|
  {
    if s != "" {
      assert s[0] in s;
      forall c | c in s[1..] ensures IsStructural(c) { assert c in s; }
      ReadMarks(s[1..]);
    }
  }

  lemma {:induction false} MarksContent(tokens: seq<Token>)
    requires forall t | t in tokens :: t.Mark?
    ensures Content(tokens, false) == seq(|tokens|, i requires 0 <= i < |tokens| => Spaced(tokens[i], false))
    decreases tokens
  {
    if tokens != [] {
      assert tokens[0] in tokens;
      forall t | t in tokens[1..] ensures t.Mark? { assert t in tokens; }
      MarksContent(tokens[1..]);
    }
  }

  // ------------------------------------------------------------- the text itself

  lemma {:induction false} WrittenConcat(a: seq<Token>, b: seq<Token>)
    ensures Written(a + b) == Written(a) + Written(b)
    decreases a
  {
    if a == [] {
      assert a + b == b;
    } else {
      assert (a + b)[1..] == a[1..] + b;
      WrittenConcat(a[1..], b);
    }
  }

  lemma WrittenOne(t: Token)
    ensures Written([t]) == t.Text()
  {
    assert [t][1..] == [] && t.Text() + "" == t.Text();
  }

  /** The text written so far stands for its tokens: looking at its last character tells
      what its last token is. */
  ghost predicate Stands(out: string, done: seq<Token>) {
    && out == Written(done)
    && (forall t | t in done :: Sound(t) && !t.Comment? && !Unclosed(t))
    && (done != [] ==> !done[|done| - 1].Blank?)
  }

  lemma {:induction false} ClosedEnd(s: string, i: nat)
    requires 0 < i <= |s| && Closes(s, i)
    ensures s[StringEnd(s, i) - 1] == s[0]
    decreases |s| - i
  {
    if s[i] != s[0] {
      if s[i] == '\\' && i + 1 < |s| {
        ClosedEnd(s, i + 2);
      } else {
        ClosedEnd(s, i + 1);
      }
    }
  }

  lemma LastOf(t: Token)
    requires Sound(t) && !t.IsGap() && !Unclosed(t)
    ensures var text := t.Text();
            && text != "" && (IsStructural(text[|text| - 1]) <==> t.Mark?) && (text[|text| - 1] == ';' <==> t == Mark(';'))
            && (t.Mark? ==> |text| == 1)
  {
    hide StringEnd, Closes;
    if t.Quote? { ClosedEnd(t.text, 1); }
  }

  lemma LastCharacter(out: string, done: seq<Token>)
    requires Stands(out, done)
    ensures out == "" <==> done == []
    ensures done != [] ==> (IsStructural(out[|out| - 1]) <==> done[|done| - 1].Mark?)
    ensures done != [] ==> (out[|out| - 1] == ';' <==> done[|done| - 1] == Mark(';'))
    ensures done != [] && done[|done| - 1].Mark? ==> out[..|out| - 1] == Written(done[..|done| - 1])
  {
    hide Written, Sound, IsStructural;
    if done != [] {
      var last, front := done[|done| - 1], done[..|done| - 1];
      assert done == front + [last] && last in done;
      WrittenConcat(front, [last]);
      WrittenOne(last);
      LastOf(last);
      assert out == Written(front) + last.Text();
    } else {
      WrittenNothing();
    }
  }

  lemma WrittenNothing()
    ensures Written([]) == ""
  {
  }

  lemma StandsMore(out: string, done: seq<Token>, t: Token)
    requires Stands(out, done) && Sound(t) && !t.IsGap() && !Unclosed(t)
    ensures Stands(out + t.Text(), done + [t])
    ensures Stands(out + " " + t.Text(), done + [Blank(' ')] + [t])
  {
    hide Sound, Written;
    WrittenConcat(done, [t]);
    WrittenOne(t);
    WrittenOne(Blank(' '));
    WrittenConcat(done, [Blank(' ')]);
    WrittenConcat(done + [Blank(' ')], [t]);
    SpaceSound();
  }

  lemma SpaceSound()
    ensures Sound(Blank(' '))
  {
  }

  lemma StandsLess(out: string, done: seq<Token>, t: Token)
    requires Stands(out, done) && done != [] && done[|done| - 1].Mark? && t.Mark? && Sound(t)
    ensures out != "" && Stands(out[..|out| - 1] + t.Text(), done[..|done| - 1] + [t])
  {
    hide Sound;
    LastCharacter(out, done);
    WrittenConcat(done[..|done| - 1], [t]);
    WrittenOne(t);
  }

  method FindCommentEnd(css: string, from: nat) returns (end: nat)
    requires from <= |css|
    ensures end == CommentEnd(css, from)
  {
    end := from;
    while end + 2 <= |css|
      invariant from <= end <= |css| && CommentEnd(css, end) == CommentEnd(css, from)
    {
      if css[end] == '*' && css[end + 1] == '/' { return end + 2; }
      end := end + 1;
    }
    end := |css|;
  }

  lemma {:induction false} CommentEndLater(css: string, index: nat, i: nat)
    requires index + i <= |css|
    ensures CommentEnd(css, index + i) == index + CommentEnd(css[index..], i)
    decreases |css| - index - i
  {
    var s := css[index..];
    if index + i + 2 <= |css| {
      assert s[i] == css[index + i] && s[i + 1] == css[index + i + 1];
      CommentEndLater(css, index, i + 1);
    }
  }

  /** A string copied as it stands, escapes and all, and where it ended. */
  lemma OneMore(s: string, start: nat, index: nat)
    requires start <= index < |s|
    ensures s[start..index + 1] == s[start..index] + [s[index]]
  {
  }

  method CopyString(css: string, start: nat) returns (text: string, index: nat)
    requires start < |css| && IsQuote(css[start])
    ensures index == start + StringEnd(css[start..], 1) && text == css[start..index]
  {
    var opening := css[start];
    ghost var s := css[start..];
    text := [opening];
    index := start + 1;
    while index < |css| && css[index] != opening
      invariant start < index <= |css| && text == css[start..index]
      invariant StringEnd(s, index - start) == StringEnd(s, 1)
    {
      assert s[index - start] == css[index] && s[0] == opening;
      if css[index] == '\\' && index + 1 < |css| {
        OneMore(css, start, index);
        text := text + [css[index]];
        index := index + 1;
      }
      OneMore(css, start, index);
      text := text + [css[index]];
      index := index + 1;
    }
    if index < |css| {
      OneMore(css, start, index);
      text := text + [opening];
      index := index + 1;
    }
  }

  /** The stylesheet, minified in one pass over its characters. */
  method MinifyCss(css: string) returns (out: string)
    ensures out == Written(Minified(Tokens(css)))
  {
    hide Tokens, Written, Minified, Pass, Sound, CommentEnd, StringEnd, Closes, Stands;
    out := "";
    var pendingSpace := false;
    var index := 0;
    ghost var done: seq<Token> := [];
    PassIsMinified(Tokens(css));
    assert css[0..] == css;
    NothingStands();
    while index < |css|
      invariant 0 <= index <= |css|
      invariant Pass(done, pendingSpace, Tokens(css[index..])) == Minified(Tokens(css))
      invariant out == Written(done) && (index < |css| ==> Stands(out, done))
    {
      var character := css[index];
      ghost var rest := css[index..];
      NextToken(css, index, done, pendingSpace);
      LastCharacter(out, done);
      if character == '/' && index + 1 < |css| && css[index + 1] == '*' {
        CommentEndLater(css, index, 2);
        index := FindCommentEnd(css, index + 2);
        pendingSpace := true;
        continue;
      }
      if IsQuote(character) {
        ghost var token := Quote(rest[..StringEnd(rest, 1)], Closes(rest, 1));
        var text, next := CopyString(css, index);
        QuoteWritten(out, done, token, rest, pendingSpace);
        if pendingSpace && out != "" && !IsStructural(out[|out| - 1]) { out := out + " "; }
        out := out + text;
        done := Emitted(done, pendingSpace, token);
        pendingSpace := false;
        index := next;
        assert index < |css| ==> StringEnd(rest, 1) < |rest|;
        continue;
      }
      if IsCssSpace(character) {
        pendingSpace := true;
        index := index + 1;
        continue;
      }
      if IsStructural(character) {
        StandsMore(out, done, Mark(character));
        if character == '}' && out != "" && out[|out| - 1] == ';' {
          StandsLess(out, done, Mark(character));
          out := out[..|out| - 1];
        }
        out := out + [character];
        done := Marked(done, Mark(character));
        pendingSpace := false;
        index := index + 1;
        StandsWritten(out, done);
        continue;
      }
      StandsMore(out, done, Plain(character));
      if pendingSpace && out != "" && !IsStructural(out[|out| - 1]) { out := out + " "; }
      out := out + [character];
      done := Emitted(done, pendingSpace, Plain(character));
      pendingSpace := false;
      index := index + 1;
      StandsWritten(out, done);
    }
    assert css[index..] == "";
    PassEnds(done, pendingSpace);
  }

  lemma NothingStands()
    ensures Stands("", [])
  {
  }

  lemma StandsWritten(out: string, done: seq<Token>)
    requires Stands(out, done)
    ensures out == Written(done)
  {
  }

  lemma PassEnds(done: seq<Token>, pending: bool)
    ensures Pass(done, pending, Tokens("")) == done
  {
  }

  /** What the next character makes of the pass. */
  lemma NextToken(css: string, index: nat, done: seq<Token>, pending: bool)
    requires index < |css|
    ensures var rest, c := css[index..], css[index];
            var whole := Pass(done, pending, Tokens(rest));
            if OpensComment(rest) then whole == Pass(done, true, Tokens(css[index + CommentEnd(rest, 2)..]))
            else if IsQuote(c) then
              whole == Pass(Emitted(done, pending, Quote(rest[..StringEnd(rest, 1)], Closes(rest, 1))), false,
                            Tokens(css[index + StringEnd(rest, 1)..]))
            else if IsCssSpace(c) then whole == Pass(done, true, Tokens(css[index + 1..]))
            else if IsStructural(c) then Sound(Mark(c)) && whole == Pass(Marked(done, Mark(c)), false, Tokens(css[index + 1..]))
            else Sound(Plain(c)) && whole == Pass(Emitted(done, pending, Plain(c)), false, Tokens(css[index + 1..]))
  {
    hide CommentEnd, StringEnd, Closes, Tokens, Pass, Marked, Emitted;
    var rest := css[index..];
    FirstSound(rest);
    FirstRead(rest);
    var (t, end) := First(rest);
    assert rest[end..] == css[index + end..] && rest[0] == css[index];
    PassStep(done, pending, t, Tokens(css[index + end..]));
  }

  lemma PassStep(done: seq<Token>, pending: bool, t: Token, tokens: seq<Token>)
    ensures Pass(done, pending, [t] + tokens) ==
              if t.IsGap() then Pass(done, true, tokens)
              else if t.Mark? then Pass(Marked(done, t), false, tokens)
              else Pass(Emitted(done, pending, t), false, tokens)
  {
    assert ([t] + tokens)[1..] == tokens;
  }

  /** Writing a string's text writes its token, and if it was closed the text still stands. */
  lemma QuoteWritten(out: string, done: seq<Token>, token: Token, rest: string, pending: bool)
    requires Stands(out, done) && rest != "" && IsQuote(rest[0])
    requires token == Quote(rest[..StringEnd(rest, 1)], Closes(rest, 1))
    ensures var spaced := if pending && out != "" && !IsStructural(out[|out| - 1]) then out + " " else out;
            && spaced + token.text == Written(Emitted(done, pending, token))
            && (StringEnd(rest, 1) < |rest| ==> Stands(spaced + token.text, Emitted(done, pending, token)))
  {
    hide StringEnd, Closes, Written, Sound;
    LastCharacter(out, done);
    PrefixString(rest, 1, StringEnd(rest, 1));
    QuoteSound(rest);
    if Closes(rest, 1) {
      StandsMore(out, done, token);
      StandsWritten(out + token.Text(), done + [token]);
    } else {
      UnclosedReachesEnd(rest, 1);
      WrittenConcat(done, [token]);
      WrittenOne(token);
      WrittenOne(Blank(' '));
      WrittenConcat(done, [Blank(' ')]);
      WrittenConcat(done + [Blank(' ')], [token]);
    }
  }

  lemma QuoteSound(rest: string)
    requires rest != "" && IsQuote(rest[0])
    ensures Sound(Quote(rest[..StringEnd(rest, 1)], Closes(rest, 1)))
  {
    PrefixString(rest, 1, StringEnd(rest, 1));
  }
}
