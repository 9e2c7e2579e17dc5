/** Syntax highlighting (src/blogin/highlight.cpp): whatever the language, taking the spans
    out of the output and undoing its entities gives back the code. */
module Highlight {
  import opened Strings
  import opened Compiling

  datatype Language = Language(comment: string, keywords: set<string>)
  {
    /** The comment markers the table of languages has: none, or one of these. */
    predicate Known() { comment in {"", "#", "//"} }
  }

  /** A stretch of the code: escaped as it is, or inside a span of its kind. */
  datatype Piece = Bare(text: string) | Span(kind: string, text: string)

  function PieceMarkup(p: Piece): string {
    match p
    case Bare(text) => Escape(text)
    case Span(kind, text) => "<span class=\"hl-" + kind + "\">" + Escape(text) + "</span>"
  }

  function Markup(pieces: seq<Piece>): string {
    if pieces == [] then "" else PieceMarkup(pieces[0]) + Markup(pieces[1..])
  }

  function Source(pieces: seq<Piece>): string {
    if pieces == [] then "" else pieces[0].text + Source(pieces[1..])
  }

  // ------------------------------------------------------------- undoing the markup

  function NotBracket(): char -> bool { c => c != '>' }

  /** The text of some markup: without its tags, and with its entities as characters. */
  function Undo(s: string): string
    decreases |s|
  {
    if s == "" then ""
    else if s[0] == '<' then
      var end := RunEnd(s, 1, NotBracket());
      if end == |s| then "" else Undo(s[end + 1..])
    else if "&amp;" <= s then "&" + Undo(s[5..])
    else if "&lt;" <= s then "<" + Undo(s[4..])
    else if "&gt;" <= s then ">" + Undo(s[4..])
    else if "&quot;" <= s then "\"" + Undo(s[6..])
    else [s[0]] + Undo(s[1..])
  }

  lemma UndoCharacter(c: char, rest: string)
    ensures Undo(EscapeChar(c) + rest) == [c] + Undo(rest)
  {
    var s := EscapeChar(c) + rest;
    assert s[|EscapeChar(c)|..] == rest;
    if c == '&' {
      assert s[..5] == "&amp;";
    } else if c == '<' {
      assert s[..4] == "&lt;" && s[1] == 'l';
    } else if c == '>' {
      assert s[..4] == "&gt;" && s[1] == 'g';
    } else if c == '"' {
      assert s[..6] == "&quot;" && s[1] == 'q';
    } else {
      assert s[0] == c;
    }
  }

  lemma {:induction false} UndoEscape(text: string, rest: string)
    ensures Undo(Escape(text) + rest) == text + Undo(rest)
    decreases |text|
  {
    hide Undo, EscapeChar;
    if text == "" {
      assert Escape(text) + rest == rest && text + Undo(rest) == Undo(rest);
    } else {
      var c, more := text[0], text[1..];
      UndoCharacter(c, Escape(more) + rest);
      UndoEscape(more, rest);
      assert Escape(text) + rest == EscapeChar(c) + (Escape(more) + rest);
      assert [c] + (more + Undo(rest)) == text + Undo(rest);
    }
  }

  lemma {:induction false} TagRun(s: string, i: nat, end: nat)
    requires i <= end < |s| && s[end] == '>' && forall k | i <= k < end :: s[k] != '>'
    ensures RunEnd(s, i, NotBracket()) == end
    decreases end - i
  {
    if i < end { TagRun(s, i + 1, end); }
  }

  lemma UndoTag(tag: string, rest: string)
    requires '>' !in tag
    ensures Undo("<" + tag + ">" + rest) == Undo(rest)
  {
    var s := "<" + tag + ">" + rest;
    var end := |tag| + 1;
    forall k | 1 <= k < end ensures s[k] != '>' { assert s[k] == tag[k - 1]; }
    assert s[end] == '>';
    TagRun(s, 1, end);
    assert s[end + 1..] == rest;
  }

  predicate Tagged(p: Piece) { p.Span? ==> '>' !in p.kind }

  lemma UndoPiece(p: Piece, rest: string)
    requires Tagged(p)
    ensures Undo(PieceMarkup(p) + rest) == p.text + Undo(rest)
  {
    hide Undo, Escape;
    if p.Bare? {
      UndoEscape(p.text, rest);
    } else {
      var open_, close := "span class=\"hl-" + p.kind + "\"", "/span";
      var body := Escape(p.text);
      SpanParts(p.kind, body, rest);
      KindTag(p.kind);
      UndoTag(open_, body + ("<" + close + ">" + rest));
      UndoEscape(p.text, "<" + close + ">" + rest);
      UndoTag(close, rest);
    }
  }

  lemma KindTag(kind: string)
    requires '>' !in kind
    ensures '>' !in "span class=\"hl-" + kind + "\""
  {
  }

  lemma SpanParts(kind: string, body: string, rest: string)
    ensures "<span class=\"hl-" + kind + "\">" + body + "</span>" + rest
         == "<" + ("span class=\"hl-" + kind + "\"") + ">" + (body + ("<" + "/span" + ">" + rest))
  {
    assert "<span class=\"hl-" == "<" + "span class=\"hl-";
    assert "\">" == "\"" + ">";
    assert "</span>" == "<" + "/span" + ">";
  }

  lemma {:induction false} UndoMarkup(pieces: seq<Piece>)
    requires forall p | p in pieces :: Tagged(p)
    ensures Undo(Markup(pieces)) == Source(pieces)
    decreases pieces
  {
    hide Tagged, PieceMarkup;
    if pieces != [] {
      assert pieces[0] in pieces;
      forall p | p in pieces[1..] ensures Tagged(p) { assert p in pieces; }
      UndoPiece(pieces[0], Markup(pieces[1..]));
      UndoMarkup(pieces[1..]);
    }
  }

  // ------------------------------------------------------------- finding the pieces

  predicate IsWordCharacter(c: char) { IsLetter(c) || IsDigit(c) || c == '_' }

  predicate IsNumeric(c: char) { IsDigit(c) || c == '.' }

  function NotNewline(): char -> bool { c => c != '\n' }

  /** Where the quote that `rest` begins with is closed, an escaped character passed over. */
  function ClosingQuote(rest: string, scan: nat): (end: nat)
    requires 0 < scan <= |rest|
    ensures scan <= end <= |rest| && (end < |rest| ==> rest[end] == rest[0])
    decreases |rest| - scan
  {
    if scan == |rest| || rest[scan] == rest[0] then scan
    else ClosingQuote(rest, if rest[scan] == '\\' && scan + 1 < |rest| then scan + 2 else scan + 1)
  }

  /** The piece that the rest of the code begins with. */
  function NextPiece(rest: string, language: Language): (p: Piece)
    requires rest != "" && language.Known()
    ensures p.text != "" && p.text <= rest && Tagged(p)
  {
    var c := rest[0];
    if language.comment != "" && language.comment <= rest then
      Span("comment", rest[..RunEnd(rest, 0, NotNewline())])
    else if (c == '"' || c == '\'') && ClosingQuote(rest, 1) < |rest| then
      Span("string", rest[..ClosingQuote(rest, 1) + 1])
    else if IsDigit(c) then Span("number", rest[..RunEnd(rest, 0, IsNumeric)])
    else if IsWordCharacter(c) then
      var word := rest[..RunEnd(rest, 0, IsWordCharacter)];
      if word in language.keywords then Span("keyword", word) else Bare(word)
    else Bare(rest[..1])
  }

  /** What each kind of span holds. */
  lemma PieceKinds(rest: string, language: Language)
    requires rest != "" && language.Known()
    ensures var p := NextPiece(rest, language);
            p.Span? ==>
              || (p.kind == "comment" && language.comment != "" && language.comment <= p.text && '\n' !in p.text)
              || (p.kind == "string" && |p.text| > 1 && p.text[0] in "\"'" && p.text[|p.text| - 1] == p.text[0])
              || (p.kind == "number" && IsDigit(p.text[0]) && forall c | c in p.text :: IsNumeric(c))
              || (p.kind == "keyword" && p.text in language.keywords)
  {
    var p := NextPiece(rest, language);
    RunHolds(rest, 0, NotNewline());
    RunHolds(rest, 0, IsNumeric);
    assert rest[0..|p.text|] == p.text;
    if p.Span? && p.kind == "comment" {
      assert RunEnd(rest, 0, NotNewline()) >= |language.comment|;
      assert p.text[..|language.comment|] == rest[..|language.comment|];
    }
  }

  lemma {:induction false} RunHolds(s: string, i: nat, p: char -> bool)
    requires i <= |s|
    ensures forall c | c in s[i..RunEnd(s, i, p)] :: p(c)
    decreases |s| - i
  {
    if i < |s| && p(s[i]) {
      RunHolds(s, i + 1, p);
      assert s[i..RunEnd(s, i, p)] == [s[i]] + s[i + 1..RunEnd(s, i + 1, p)];
    }
  }

  /** Whether a comment begins here, which goes before anything else. */
  predicate CommentsHere(rest: string, language: Language) { language.comment != "" && language.comment <= rest }

  lemma {:induction false} RunsTo(s: string, i: nat, end: nat, p: char -> bool)
    requires i <= end <= |s| && (forall k | i <= k < end :: p(s[k])) && (end < |s| ==> !p(s[end]))
    ensures RunEnd(s, i, p) == end
    decreases end - i
  {
    if i < end { RunsTo(s, i + 1, end, p); }
  }

  lemma RunThen(run: string, more: string, p: char -> bool)
    requires (forall c | c in run :: p(c)) && (more == "" || !p(more[0]))
    ensures RunEnd(run + more, 0, p) == |run| && (run + more)[..|run|] == run
  {
    var s := run + more;
    forall k | 0 <= k < |run| ensures p(s[k]) { assert s[k] == run[k] && run[k] in run; }
    RunsTo(s, 0, |run|, p);
  }

  /** A comment is marked from its sign to the end of the line. */
  lemma CommentsMarked(comment: string, more: string, language: Language)
    requires language.Known() && CommentsHere(comment, language) && '\n' !in comment && (more == "" || more[0] == '\n')
    ensures NextPiece(comment + more, language) == Span("comment", comment)
  {
    RunThen(comment, more, NotNewline());
    hide RunEnd, ClosingQuote;
    assert language.comment <= comment + more;
  }

  lemma {:induction false} UnitsPassed(rest: string, scan: nat, units: seq<Unit>, more: string)
    requires 0 < scan <= |rest| && rest[scan..] == UnitsText(units) + more && UnitsOf(rest[0], units)
    requires rest[0] != '\\'
    ensures scan + |UnitsText(units)| <= |rest| && rest[scan + |UnitsText(units)|..] == more
    ensures ClosingQuote(rest, scan) == ClosingQuote(rest, scan + |UnitsText(units)|)
    decreases units
  {
    hide ClosingQuote, UnitsText, UnitsOf;
    NoUnits();
    if units == [] {
      assert rest[scan..] == more;
    } else {
      var u, after := units[0], UnitsText(units[1..]) + more;
      FirstUnit(rest[0], units, more);
      OneUnit(rest, scan, u, after);
      UnitsPassed(rest, scan + if u.Escaped? then 2 else 1, units[1..], more);
    }
  }

  lemma OneUnit(rest: string, scan: nat, u: Unit, after: string)
    requires 0 < scan <= |rest| && rest[0] != '\\' && (u.Ordinary? ==> u.c != rest[0] && u.c != '\\')
    requires rest[scan..] == (if u.Escaped? then ['\\', u.c] else [u.c]) + after
    ensures var next := scan + if u.Escaped? then 2 else 1;
            next <= |rest| && rest[next..] == after && ClosingQuote(rest, scan) == ClosingQuote(rest, next)
  {
    var head := if u.Escaped? then ['\\', u.c] else [u.c];
    assert rest[scan] == rest[scan..][0] == head[0] && rest[scan + |head|..] == rest[scan..][|head|..] == after;
  }

  /** A string is marked from its quote to the next that is not escaped. */
  lemma StringsMarked(quote: char, units: seq<Unit>, more: string, language: Language)
    requires (quote == '"' || quote == '\'') && UnitsOf(quote, units) && language.Known()
    requires var text := [quote] + UnitsText(units) + [quote]; !CommentsHere(text + more, language)
    ensures var text := [quote] + UnitsText(units) + [quote];
            NextPiece(text + more, language) == Span("string", text)
  {
    var text := [quote] + UnitsText(units) + [quote];
    var rest, end := text + more, 1 + |UnitsText(units)|;
    assert rest[1..] == UnitsText(units) + ([quote] + more);
    UnitsPassed(rest, 1, units, [quote] + more);
    assert rest[end] == rest[end..][0] == quote && rest[..end + 1] == text;
    assert ClosingQuote(rest, end) == end;
    hide *;
    StringFirst(rest, end, language);
  }

  lemma StringFirst(rest: string, end: nat, language: Language)
    requires rest != "" && (rest[0] == '"' || rest[0] == '\'') && language.Known() && !CommentsHere(rest, language)
    requires ClosingQuote(rest, 1) == end < |rest|
    ensures NextPiece(rest, language) == Span("string", rest[..end + 1])
  {
    hide ClosingQuote, RunEnd;
  }

  /** A quote that nothing closes is a character like any other. */
  lemma UnclosedBare(quote: char, units: seq<Unit>, escapes: bool, language: Language)
    requires (quote == '"' || quote == '\'') && UnitsOf(quote, units) && language.Known()
    requires !CommentsHere([quote] + (UnitsText(units) + if escapes then "\\" else ""), language)
    ensures NextPiece([quote] + (UnitsText(units) + if escapes then "\\" else ""), language) == Bare([quote])
  {
    var more := if escapes then "\\" else "";
    var rest, end := [quote] + (UnitsText(units) + more), 1 + |UnitsText(units)|;
    assert rest[1..] == UnitsText(units) + more;
    UnitsPassed(rest, 1, units, more);
    if escapes { assert rest[end] == rest[end..][0] == '\\' && ClosingQuote(rest, end) == ClosingQuote(rest, end + 1); }
    assert ClosingQuote(rest, 1) == |rest|;
    hide ClosingQuote, RunEnd, UnitsText;
    assert rest[..1] == [quote];
  }

  /** Numbers, keywords and other words are marked or not as wholes, and whatever is none of
      these stands bare. */
  lemma WordsMarked(word: string, more: string, language: Language)
    requires language.Known() && word != "" && !CommentsHere(word + more, language)
    ensures IsDigit(word[0]) && (forall c | c in word :: IsNumeric(c)) && (more == "" || !IsNumeric(more[0])) ==>
              NextPiece(word + more, language) == Span("number", word)
    ensures !IsDigit(word[0]) && (forall c | c in word :: IsWordCharacter(c)) && (more == "" || !IsWordCharacter(more[0])) ==>
              NextPiece(word + more, language) == if word in language.keywords then Span("keyword", word) else Bare(word)
    ensures |word| == 1 && !IsWordCharacter(word[0]) && word[0] != '"' && word[0] != '\'' ==>
              NextPiece(word + more, language) == Bare(word)
  {
    var rest := word + more;
    assert rest[0] == word[0] && rest[..|word|] == word && word[0] in word;
    if (forall c | c in word :: IsNumeric(c)) && (more == "" || !IsNumeric(more[0])) { RunThen(word, more, IsNumeric); }
    if (forall c | c in word :: IsWordCharacter(c)) && (more == "" || !IsWordCharacter(more[0])) {
      RunThen(word, more, IsWordCharacter);
    }
    hide RunEnd, ClosingQuote;
    assert rest[..1] == [word[0]];
    if |word| == 1 { assert word == [word[0]]; }
  }

  function PiecesFrom(code: string, position: nat, language: Language): seq<Piece>
    requires position <= |code| && language.Known()
    decreases |code| - position
  {
    if position == |code| then []
    else
      var p := NextPiece(code[position..], language);
      [p] + PiecesFrom(code, position + |p.text|, language)
  }

  lemma {:induction false} PiecesAreCode(code: string, position: nat, language: Language)
    requires position <= |code| && language.Known()
    ensures Source(PiecesFrom(code, position, language)) == code[position..]
    ensures forall p | p in PiecesFrom(code, position, language) :: Tagged(p)
    decreases |code| - position
  {
    hide NextPiece, Tagged;
    if position < |code| {
      var p := NextPiece(code[position..], language);
      var next := position + |p.text|;
      PiecesAreCode(code, next, language);
      assert code[position..] == p.text + code[next..];
      assert ([p] + PiecesFrom(code, next, language))[1..] == PiecesFrom(code, next, language);
    }
  }

  /** The first word of an info string, in lower case. */
  function FirstWord(info: string): string { LowerAll(WordFrom(info)) }

  function WordFrom(info: string): string {
    if info == "" then ""
    else if IsSpace(info[0]) then WordFrom(info[1..])
    else info[..RunEnd(info, 0, NotSpace())]
  }

  function NotSpace(): char -> bool { c => !IsSpace(c) }

  /** What highlighting writes. */
  function Highlighted(code: string, languages: map<string, Language>, info: string): string
    requires forall name | name in languages :: languages[name].Known()
  {
    var name := FirstWord(info);
    if name in languages then Markup(PiecesFrom(code, 0, languages[name])) else Escape(code)
  }

  lemma {:induction false} WordFound(before: string, word: string, after: string)
    requires Spaces(before) && word != "" && (forall c | c in word :: !IsSpace(c)) && (after == "" || IsSpace(after[0]))
    ensures WordFrom(before + (word + after)) == word
    decreases before
  {
    var info := before + (word + after);
    if before == "" {
      assert info == word + after && info[0] == word[0] && word[0] in word;
      RunThen(word, after, NotSpace());
    } else {
      assert info[0] == before[0] && before[0] in before && info[1..] == before[1..] + (word + after);
      assert Spaces(before[1..]);
      WordFound(before[1..], word, after);
    }
  }

  /** The language is the one named by the first word of the info string, in small letters,
      and code in a language that is not known is left as it is. */
  lemma LanguagesNamed(code: string, languages: map<string, Language>, before: string, word: string, after: string)
    requires forall name | name in languages :: languages[name].Known()
    requires Spaces(before) && word != "" && (forall c | c in word :: !IsSpace(c)) && (after == "" || IsSpace(after[0]))
    ensures var name := LowerAll(word);
            Highlighted(code, languages, before + (word + after))
              == if name in languages then Markup(PiecesFrom(code, 0, languages[name])) else Escape(code)
  {
    hide PiecesFrom, Markup, Escape, WordFrom;
    WordFound(before, word, after);
  }

  /** Highlighting loses nothing, whatever the code and whatever the language. */
  lemma HighlightingIsLossless(code: string, languages: map<string, Language>, info: string)
    requires forall name | name in languages :: languages[name].Known()
    ensures Undo(Highlighted(code, languages, info)) == code
  {
    var name := FirstWord(info);
    if name in languages {
      PiecesAreCode(code, 0, languages[name]);
      UndoMarkup(PiecesFrom(code, 0, languages[name]));
      assert code[0..] == code;
    } else {
      UndoEscape(code, "");
      assert Escape(code) + "" == Escape(code) && code + "" == code;
    }
  }

  // ------------------------------------------------------------- the scanner

  method FindClosingQuote(rest: string) returns (scan: nat)
    requires rest != ""
    ensures scan == ClosingQuote(rest, 1)
  {
    scan := 1;
    while scan < |rest| && rest[scan] != rest[0]
      invariant 0 < scan <= |rest| && ClosingQuote(rest, scan) == ClosingQuote(rest, 1)
    {
      scan := scan + if rest[scan] == '\\' && scan + 1 < |rest| then 2 else 1;
    }
  }

  method ReadPiece(rest: string, language: Language) returns (p: Piece)
    requires rest != "" && language.Known()
    ensures p == NextPiece(rest, language)
  {
    hide RunEnd, ClosingQuote;
    var character := rest[0];
    if language.comment != "" && language.comment <= rest {
      var newline := Scan(rest, 0, NotNewline());
      return Span("comment", rest[..newline]);
    }
    if character == '"' || character == '\'' {
      var scan := FindClosingQuote(rest);
      if scan < |rest| { return Span("string", rest[..scan + 1]); }
    }
    if IsDigit(character) {
      var scan := Scan(rest, 0, IsNumeric);
      return Span("number", rest[..scan]);
    }
    if IsWordCharacter(character) && !IsDigit(character) {
      var scan := Scan(rest, 0, IsWordCharacter);
      var token := rest[..scan];
      return if token in language.keywords then Span("keyword", token) else Bare(token);
    }
    return Bare(rest[..1]);
  }

  lemma {:induction false} MarkupConcat(a: seq<Piece>, p: Piece)
    ensures Markup(a + [p]) == Markup(a) + PieceMarkup(p)
    decreases a
  {
    hide PieceMarkup, Markup;
    NoMarkup();
    MarkupFirst(a + [p]);
    if a == [] {
      assert a + [p] == [p] && [p][1..] == [] && PieceMarkup(p) + "" == PieceMarkup(p);
      assert Markup(a) + PieceMarkup(p) == PieceMarkup(p);
    } else {
      MarkupFirst(a);
      assert (a + [p])[1..] == a[1..] + [p];
      MarkupConcat(a[1..], p);
      assert PieceMarkup(a[0]) + (Markup(a[1..]) + PieceMarkup(p)) == (PieceMarkup(a[0]) + Markup(a[1..])) + PieceMarkup(p);
    }
  }

  lemma MarkupFirst(pieces: seq<Piece>)
    requires pieces != []
    ensures Markup(pieces) == PieceMarkup(pieces[0]) + Markup(pieces[1..])
  {
  }

  method Render(code: string, languages: map<string, Language>, info: string) returns (out: string)
    requires forall name | name in languages :: languages[name].Known()
    ensures out == Highlighted(code, languages, info)
  {
    hide NextPiece, PieceMarkup, Markup, Escape;
    var name := FirstWord(info);
    if name !in languages { return Escape(code); }
    var language := languages[name];
    out := "";
    var position := 0;
    ghost var done: seq<Piece> := [];
    ghost var all := PiecesFrom(code, 0, language);
    NoMarkup();
    assert [] + all == all;
    while position < |code|
      invariant 0 <= position <= |code| && out == Markup(done)
      invariant done + PiecesFrom(code, position, language) == all
    {
      var p := ReadPiece(code[position..], language);
      MarkupConcat(done, p);
      ghost var next := PiecesFrom(code, position + |p.text|, language);
      assert done + ([p] + next) == (done + [p]) + next;
      out := out + PieceMarkup(p);
      done := done + [p];
      position := position + |p.text|;
    }
    assert done + [] == done;
  }

  lemma NoMarkup()
    ensures Markup([]) == ""
  {
  }
}
