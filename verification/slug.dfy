/** Slugs (src/blogin/slug.cpp): the words of a title, joined by hyphens. */
module Slug {
  import opened Strings
  import opened Compiling

  predicate IsSlugCharacter(c: char) { 'a' <= c <= 'z' || IsDigit(c) }

  /** A character that carries the meaning of a name, as the word for it. */
  function SpelledOut(c: char): string {
    if c == '+' then "plus" else if c == '#' then "sharp" else if c == '&' then "and" else ""
  }

  /** The words of a text: runs of letters and digits, and symbols spelled out. A run right
      after a symbol is a word of its own. */
  function Words(s: string): seq<string>
    decreases |s|
  {
    if s == "" then []
    else if SpelledOut(s[0]) != "" then [SpelledOut(s[0])] + Words(s[1..])
    else if IsSlugCharacter(s[0]) then
      var end := RunEnd(s, 0, IsSlugCharacter);
      [s[..end]] + Words(s[end..])
    else Words(s[1..])
  }

  /** Each word behind a hyphen. */
  function Behind(words: seq<string>): string {
    if words == [] then "" else "-" + (words[0] + Behind(words[1..]))
  }

  function Hyphenated(words: seq<string>): string {
    if words == [] then "" else words[0] + Behind(words[1..])
  }

  function SlugOf(text: string): string { Hyphenated(Words(LowerAll(text))) }

  // ------------------------------------------------------------- the single pass

  /** What the pass still writes, knowing only whether anything is written and whether a
      hyphen is due. */
  function Pass(empty: bool, pending: bool, s: string): string
    decreases |s|
  {
    if s == "" then ""
    else
      var word := SpelledOut(s[0]);
      if word != "" then (if empty then "" else "-") + word + Pass(false, true, s[1..])
      else if IsSlugCharacter(s[0]) then (if pending && !empty then "-" else "") + [s[0]] + Pass(false, false, s[1..])
      else Pass(empty, true, s[1..])
  }

  /** Whether the text goes on with the run just written. */
  predicate GoesOn(empty: bool, pending: bool, s: string) {
    !empty && !pending && s != "" && IsSlugCharacter(s[0])
  }

  lemma {:induction false} PassWords(empty: bool, pending: bool, s: string)
    ensures Pass(empty, pending, s) ==
              if GoesOn(empty, pending, s) then
                var end := RunEnd(s, 0, IsSlugCharacter); s[..end] + Behind(Words(s[end..]))
              else if empty then Hyphenated(Words(s))
              else Behind(Words(s))
    decreases |s|
  {
    hide RunEnd, Words, Behind, Hyphenated, IsSlugCharacter;
    WordsStep(s);
    if s == "" {
      NothingBehind();
    } else {
      var c, rest := s[0], s[1..];
      var word := SpelledOut(c);
      if word != "" {
        PassWords(false, true, rest);
        FirstWord(word, Words(rest), empty);
        SymbolsAreNot(c);
      } else if IsSlugCharacter(c) {
        PassWords(false, false, rest);
        RunRest(s);
        var end := RunEnd(s, 0, IsSlugCharacter);
        var run, behind := s[..end], Behind(Words(s[end..]));
        FirstWord(run, Words(s[end..]), empty);
        assert run == [c] + s[1..end];
        Grouping(pending && !empty, c, s[1..end], behind);
      } else {
        PassWords(empty, true, rest);
      }
    }
  }

  lemma WordsStep(s: string)
    ensures Words(s) ==
              if s == "" then []
              else if SpelledOut(s[0]) != "" then [SpelledOut(s[0])] + Words(s[1..])
              else if IsSlugCharacter(s[0]) then
                var end := RunEnd(s, 0, IsSlugCharacter); [s[..end]] + Words(s[end..])
              else Words(s[1..])
  {
  }

  lemma NothingBehind()
    ensures Behind([]) == "" && Hyphenated([]) == ""
  {
  }

  lemma SymbolsAreNot(c: char)
    requires SpelledOut(c) != ""
    ensures !IsSlugCharacter(c)
  {
  }

  /** What the pass makes of the rest of a run, and of what follows it. */
  lemma RunRest(s: string)
    requires s != "" && IsSlugCharacter(s[0])
    requires var rest := s[1..];
             Pass(false, false, rest) ==
               if GoesOn(false, false, rest) then
                 var end := RunEnd(rest, 0, IsSlugCharacter); rest[..end] + Behind(Words(rest[end..]))
               else Behind(Words(rest))
    ensures var end := RunEnd(s, 0, IsSlugCharacter);
            0 < end <= |s| && Pass(false, false, s[1..]) == s[1..end] + Behind(Words(s[end..]))
  {
    hide RunEnd, Words, Behind, Pass, IsSlugCharacter, SpelledOut;
    RunGrows(s);
    var end := RunEnd(s, 0, IsSlugCharacter);
    PartsBehind(s, end);
    if end == 1 { NothingFirst(Behind(Words(s[1..]))); }
  }

  lemma PartsBehind(s: string, end: nat)
    requires 1 <= end <= |s|
    ensures s[1..][..end - 1] == s[1..end] && s[1..][end - 1..] == s[end..]
  {
  }

  lemma NothingFirst(s: string)
    ensures "" + s == s
  {
  }

  lemma FirstWord(word: string, words: seq<string>, empty: bool)
    ensures Hyphenated([word] + words) == word + Behind(words)
    ensures Behind([word] + words) == "-" + word + Behind(words)
    ensures (if empty then "" else "-") + word + Behind(words) == if empty then word + Behind(words) else "-" + word + Behind(words)
  {
    assert ([word] + words)[1..] == words;
    assert "-" + (word + Behind(words)) == "-" + word + Behind(words);
    assert "" + word == word;
  }

  lemma Grouping(hyphen: bool, c: char, run: string, rest: string)
    ensures (if hyphen then "-" else "") + [c] + (run + rest)
         == if hyphen then "-" + ([c] + run) + rest else ([c] + run) + rest
  {
    assert "" + [c] == [c];
    assert [c] + (run + rest) == ([c] + run) + rest;
    if hyphen { assert "-" + [c] + (run + rest) == "-" + ([c] + run) + rest; }
  }

  /** A run is one character longer than the run after its first. */
  lemma RunGrows(s: string)
    requires s != "" && IsSlugCharacter(s[0])
    ensures var end := RunEnd(s, 0, IsSlugCharacter);
            && 0 < end <= |s|
            && end == 1 + (if |s| > 1 && IsSlugCharacter(s[1]) then RunEnd(s[1..], 0, IsSlugCharacter) else 0)
            && (|s| > 1 && !IsSlugCharacter(s[1]) ==> end == 1)
  {
    RunShifts(s, 0);
  }

  lemma {:induction false} RunShifts(s: string, i: nat)
    requires i + 1 <= |s|
    ensures RunEnd(s, i + 1, IsSlugCharacter) == 1 + RunEnd(s[1..], i, IsSlugCharacter)
    decreases |s| - i
  {
    if i + 1 < |s| {
      assert s[1..][i] == s[i + 1];
      RunShifts(s, i + 1);
    }
  }

  /** The text made a slug, in one pass. */
  method Slugify(text: string) returns (out: string)
    ensures out == SlugOf(text)
  {
    hide Pass, SlugOf, SpelledOut, IsSlugCharacter;
    var lowered := LowerAll(text);
    out := "";
    var pendingHyphen := false;
    PassStarts(text);
    assert lowered[0..] == lowered && "" + Pass(true, false, lowered) == Pass(true, false, lowered);
    for i := 0 to |lowered|
      invariant out + Pass(out == "", pendingHyphen, lowered[i..]) == SlugOf(text)
    {
      var character := lowered[i];
      ghost var rest := lowered[i..];
      assert rest[0] == character && rest[1..] == lowered[i + 1..];
      PassStep(out == "", pendingHyphen, rest);
      var word := SpelledOut(character);
      if word != "" {
        Written(out, if out == "" then "" else "-", word, Pass(false, true, lowered[i + 1..]));
        if out != "" { out := out + "-"; }
        out := out + word;
        pendingHyphen := true;
      } else if IsSlugCharacter(character) {
        Written(out, if pendingHyphen && out != "" then "-" else "", [character], Pass(false, false, lowered[i + 1..]));
        if pendingHyphen && out != "" { out := out + "-"; }
        pendingHyphen := false;
        out := out + [character];
      } else {
        pendingHyphen := true;
      }
    }
    assert lowered[|lowered|..] == "";
    PassEnds(out == "", pendingHyphen);
    assert out + "" == out;
  }

  lemma PassStarts(text: string)
    ensures Pass(true, false, LowerAll(text)) == SlugOf(text)
  {
    PassWords(true, false, LowerAll(text));
  }

  lemma PassEnds(empty: bool, pending: bool)
    ensures Pass(empty, pending, "") == ""
  {
  }

  lemma PassStep(empty: bool, pending: bool, s: string)
    requires s != ""
    ensures var word := SpelledOut(s[0]);
            Pass(empty, pending, s) ==
              if word != "" then (if empty then "" else "-") + word + Pass(false, true, s[1..])
              else if IsSlugCharacter(s[0]) then (if pending && !empty then "-" else "") + [s[0]] + Pass(false, false, s[1..])
              else Pass(empty, true, s[1..])
  {
  }

  lemma Written(out: string, hyphen: string, word: string, next: string)
    requires hyphen == "" || hyphen == "-"
    ensures out + (hyphen + word + next) == (if hyphen == "" then out else out + "-") + word + next
  {
  }

  // ------------------------------------------------------------- what a slug is

  predicate IsWord(word: string) { word != "" && forall c | c in word :: IsSlugCharacter(c) }

  predicate AllWords(words: seq<string>) { forall w | w in words :: IsWord(w) }

  lemma {:induction false} RunIsSlug(s: string, i: nat)
    requires i <= |s|
    ensures var end := RunEnd(s, i, IsSlugCharacter); forall c | c in s[i..end] :: IsSlugCharacter(c)
    decreases |s| - i
  {
    if i < |s| && IsSlugCharacter(s[i]) {
      RunIsSlug(s, i + 1);
      assert s[i..RunEnd(s, i, IsSlugCharacter)] == [s[i]] + s[i + 1..RunEnd(s, i + 1, IsSlugCharacter)];
    }
  }

  lemma {:induction false} WordsAreWords(s: string)
    ensures AllWords(Words(s))
    decreases |s|
  {
    if s != "" {
      if SpelledOut(s[0]) != "" {
        WordsAreWords(s[1..]);
      } else if IsSlugCharacter(s[0]) {
        var end := RunEnd(s, 0, IsSlugCharacter);
        RunGrows(s);
        RunIsSlug(s, 0);
        assert s[0..end] == s[..end];
        WordsAreWords(s[end..]);
      } else {
        WordsAreWords(s[1..]);
      }
    }
  }

  lemma {:induction false} RunOver(s: string, i: nat, end: nat)
    requires i <= end <= |s| && (forall k | i <= k < end :: IsSlugCharacter(s[k])) && (end < |s| ==> !IsSlugCharacter(s[end]))
    ensures RunEnd(s, i, IsSlugCharacter) == end
    decreases end - i
  {
    if i < end { RunOver(s, i + 1, end); }
  }

  lemma WordFirst(word: string, rest: string)
    requires IsWord(word) && (rest != "" ==> rest[0] == '-')
    ensures Words(word + rest) == [word] + Words(rest)
  {
    var s := word + rest;
    assert s[0] == word[0] && word[0] in word;
    forall k | 0 <= k < |word| ensures IsSlugCharacter(s[k]) { assert s[k] == word[k] && word[k] in word; }
    RunOver(s, 0, |word|);
    assert s[..|word|] == word && s[|word|..] == rest;
  }

  lemma {:induction false} BehindReadsBack(words: seq<string>)
    requires AllWords(words)
    ensures Words(Behind(words)) == words
    ensures Behind(words) != "" ==> Behind(words)[0] == '-'
    decreases words
  {
    if words != [] {
      var rest := words[1..];
      assert words[0] in words;
      forall w | w in rest ensures IsWord(w) { assert w in words; }
      BehindReadsBack(rest);
      WordFirst(words[0], Behind(rest));
      assert Behind(words)[1..] == words[0] + Behind(rest);
      assert words == [words[0]] + rest;
    }
  }

  lemma ReadsBack(words: seq<string>)
    requires AllWords(words)
    ensures Words(Hyphenated(words)) == words
  {
    if words != [] {
      var rest := words[1..];
      assert words[0] in words;
      forall w | w in rest ensures IsWord(w) { assert w in words; }
      BehindReadsBack(rest);
      WordFirst(words[0], Behind(rest));
      assert words == [words[0]] + rest;
    }
  }

  /** Slug characters and hyphens, no hyphen last and none after another. */
  predicate Tidy(s: string, afterHyphen: bool)
    decreases s
  {
    if s == "" then !afterHyphen
    else if s[0] == '-' then !afterHyphen && Tidy(s[1..], true)
    else IsSlugCharacter(s[0]) && Tidy(s[1..], false)
  }

  lemma {:induction false} WordTidy(word: string, rest: string, afterHyphen: bool)
    requires IsWord(word) && Tidy(rest, false)
    ensures Tidy(word + rest, afterHyphen)
    decreases word
  {
    var s := word + rest;
    assert s[0] == word[0] && word[0] in word && s[1..] == word[1..] + rest;
    if |word| == 1 {
      assert s[1..] == rest;
    } else {
      forall c | c in word[1..] ensures IsSlugCharacter(c) { assert c in word; }
      WordTidy(word[1..], rest, false);
    }
  }

  lemma {:induction false} BehindTidy(words: seq<string>)
    requires AllWords(words)
    ensures Tidy(Behind(words), false)
    decreases words
  {
    if words != [] {
      assert words[0] in words;
      forall w | w in words[1..] ensures IsWord(w) { assert w in words; }
      BehindTidy(words[1..]);
      WordTidy(words[0], Behind(words[1..]), true);
      assert Behind(words)[1..] == words[0] + Behind(words[1..]);
    }
  }

  lemma {:induction false} TidyLowers(s: string, afterHyphen: bool)
    requires Tidy(s, afterHyphen)
    ensures LowerAll(s) == s
    decreases s
  {
    if s != "" {
      TidyLowers(s[1..], s[0] == '-');
      assert forall i | 0 < i < |s| :: LowerAll(s[1..])[i - 1] == Lower(s[i]);
    }
  }

  /** A slug has no hyphen at either end and none doubled, and making a slug of it changes
      nothing. */
  lemma SlugIsTidy(text: string)
    ensures var slug := SlugOf(text); (slug == "" || Tidy(slug, true)) && SlugOf(slug) == slug
  {
    var words := Words(LowerAll(text));
    WordsAreWords(LowerAll(text));
    ReadsBack(words);
    if words != [] {
      assert words[0] in words;
      forall w | w in words[1..] ensures IsWord(w) { assert w in words; }
      BehindTidy(words[1..]);
      WordTidy(words[0], Behind(words[1..]), true);
      TidyLowers(SlugOf(text), true);
    } else {
      TidyLowers("", false);
    }
  }

  // ------------------------------------------------------------- titles by their words

  /** A stretch of a title: letters and digits, a sign that is spelled out, or what only
      separates. */
  datatype Part = Run(word: string) | Sign(sign: char) | Break(c: char)

  function PartText(p: Part): string {
    match p
    case Run(word) => word
    case Sign(c) => [c]
    case Break(c) => [c]
  }

  function PartsText(parts: seq<Part>): string { if parts == [] then "" else PartText(parts[0]) + PartsText(parts[1..]) }

  /** The word a stretch is in a slug. */
  function PartWords(p: Part): seq<string> {
    match p
    case Run(word) => [LowerAll(word)]
    case Sign(c) => [if c == '+' then "plus" else if c == '#' then "sharp" else "and"]
    case Break(_) => []
  }

  function AllPartWords(parts: seq<Part>): seq<string> {
    if parts == [] then [] else PartWords(parts[0]) + AllPartWords(parts[1..])
  }

  predicate IsWordLetter(c: char) { IsLetter(c) || IsDigit(c) }

  /** Runs that do not touch, and the rest told apart. */
  predicate WellParted(parts: seq<Part>) {
    parts == [] ||
    ((match parts[0]
      case Run(word) => word != "" && (forall c | c in word :: IsWordLetter(c)) && (|parts| > 1 ==> !parts[1].Run?)
      case Sign(c) => c in "+#&"
      case Break(c) => c !in "+#&" && !IsWordLetter(c))
     && WellParted(parts[1..]))
  }

  function WithHyphens(words: seq<string>): string {
    if words == [] then "" else if |words| == 1 then words[0] else words[0] + "-" + WithHyphens(words[1..])
  }

  lemma {:induction false} HyphensBetween(words: seq<string>)
    ensures Hyphenated(words) == WithHyphens(words)
    ensures words != [] ==> Behind(words) == "-" + WithHyphens(words)
    decreases words
  {
    if words != [] {
      HyphensBetween(words[1..]);
      if |words| == 1 {
        assert words[0] + "" == words[0];
      } else {
        assert words[0] + ("-" + WithHyphens(words[1..])) == words[0] + "-" + WithHyphens(words[1..]);
      }
    }
  }

  lemma LowerConcat(a: string, b: string)
    ensures LowerAll(a + b) == LowerAll(a) + LowerAll(b)
  {
  }

  lemma {:induction false} PartsRead(parts: seq<Part>)
    requires WellParted(parts)
    ensures Words(LowerAll(PartsText(parts))) == AllPartWords(parts)
    decreases parts
  {
    hide Words, LowerAll, IsWordLetter;
    if parts == [] {
      NoWords();
    } else {
      var p, more := parts[0], LowerAll(PartsText(parts[1..]));
      LowerConcat(PartText(p), PartsText(parts[1..]));
      PartsRead(parts[1..]);
      if p.Run? {
        NextSeparates(parts[1..]);
        RunIsWord(p.word, more);
      } else {
        OthersRead(p, more);
      }
    }
  }

  lemma NoWords()
    ensures Words(LowerAll("")) == []
  {
    assert LowerAll("") == "";
  }

  lemma NextSeparates(parts: seq<Part>)
    requires WellParted(parts) && (parts != [] ==> !parts[0].Run?)
    ensures var more := LowerAll(PartsText(parts)); more == "" || !IsSlugCharacter(more[0])
  {
    if parts != [] {
      var c := PartsText(parts)[0];
      assert c == if parts[0].Sign? then parts[0].sign else parts[0].c;
    }
  }

  lemma RunIsWord(word: string, more: string)
    requires word != "" && (forall c | c in word :: IsWordLetter(c)) && (more == "" || !IsSlugCharacter(more[0]))
    ensures Words(LowerAll(word) + more) == [LowerAll(word)] + Words(more)
  {
    var low := LowerAll(word);
    var s := low + more;
    forall k | 0 <= k < |low| ensures IsSlugCharacter(s[k]) { assert s[k] == Lower(word[k]) && word[k] in word; }
    RunOver(s, 0, |low|);
    assert s[..|low|] == low && s[|low|..] == more;
    SlugIsNoSymbol(s[0]);
  }

  lemma SlugIsNoSymbol(c: char)
    requires IsSlugCharacter(c)
    ensures SpelledOut(c) == ""
  {
  }

  lemma OthersRead(p: Part, more: string)
    requires !p.Run? && (p.Sign? ==> p.sign in "+#&") && (p.Break? ==> p.c !in "+#&" && !IsWordLetter(p.c))
    ensures Words(LowerAll(PartText(p)) + more) == PartWords(p) + Words(more)
  {
    var c := if p.Sign? then p.sign else p.c;
    assert LowerAll([c]) == [Lower(c)] && Lower(c) == c;
    assert ([c] + more)[1..] == more;
    if p.Break? {
      assert SpelledOut(c) == "" && !IsSlugCharacter(c);
      assert [] + Words(more) == Words(more);
    }
  }

  /** A title's slug is its words in lower case, with `+`, `#` and `&` among them spelled out,
      and a hyphen between each two: `C++ & C#` is c-plus-plus-and-c-sharp. */
  lemma SlugExactly(parts: seq<Part>)
    requires WellParted(parts)
    ensures SlugOf(PartsText(parts)) == WithHyphens(AllPartWords(parts))
  {
    PartsRead(parts);
    HyphensBetween(AllPartWords(parts));
  }
}
