/** Rewriting references to renamed files (src/blogin/assets.cpp, rewrite_refs), and when
    rewriting them back gives the text there was. */
module References {
  import opened Strings
  import opened Compiling
  import opened Minify

  type Manifest = map<string, string>

  predicate IsDelimiter(c: char) {
    c == '"' || c == '\'' || c == '(' || c == ')' || c == ',' || IsCssSpace(c)
  }

  function NotDelimiter(): char -> bool { c => !IsDelimiter(c) }

  /** A text is delimiters and the words between them. */
  datatype Part = Delimiter(mark: char) | Word(word: string)

  function Parts(s: string, i: nat): seq<Part>
    requires i <= |s|
    decreases |s| - i
  {
    if i == |s| then []
    else if IsDelimiter(s[i]) then [Delimiter(s[i])] + Parts(s, i + 1)
    else
      var end := RunEnd(s, i, NotDelimiter());
      [Word(s[i..end])] + Parts(s, end)
  }

  function PartText(p: Part): string { if p.Delimiter? then [p.mark] else p.word }

  function Joined(parts: seq<Part>): string {
    if parts == [] then "" else PartText(parts[0]) + Joined(parts[1..])
  }

  /** A delimited absolute path, the only thing that can be a reference. */
  predicate IsReference(delimited: bool, p: Part) { delimited && p.Word? && "/" <= p.word }

  function Renamed(delimited: bool, p: Part, manifest: Manifest): Part {
    if IsReference(delimited, p) && p.word in manifest then Word(manifest[p.word]) else p
  }

  /** Every reference the manifest knows under its new name. `delimited` tells whether a
      delimiter comes right before. */
  function RenameAll(delimited: bool, parts: seq<Part>, manifest: Manifest): seq<Part>
    decreases parts
  {
    if parts == [] then []
    else [Renamed(delimited, parts[0], manifest)] + RenameAll(parts[0].Delimiter?, parts[1..], manifest)
  }

  function Rewritten(s: string, manifest: Manifest): string { Joined(RenameAll(false, Parts(s, 0), manifest)) }

  // ------------------------------------------------------------- the single pass

  lemma {:induction false} PartsFromWord(s: string, i: nat, delimited: bool, manifest: Manifest)
    requires i < |s| && !IsDelimiter(s[i])
    requires delimited && s[i] == '/' ==> s[i..RunEnd(s, i, NotDelimiter())] !in manifest
    ensures Joined(RenameAll(delimited, Parts(s, i), manifest)) == [s[i]] + Joined(RenameAll(false, Parts(s, i + 1), manifest))
  {
    hide RunEnd, Parts, RenameAll, Joined;
    var end := RunEnd(s, i, NotDelimiter());
    NextRun(s, i);
    var word := s[i..end];
    var tail := Joined(RenameAll(false, Parts(s, end), manifest));
    assert word[0] == s[i];
    assert Renamed(delimited, Word(word), manifest) == Word(word);
    WordKept(s, i, delimited, manifest);
    if i + 1 < end {
      WordKept(s, i + 1, false, manifest);
      assert word == [s[i]] + s[i + 1..end];
      Regrouped([s[i]], s[i + 1..end], tail);
    } else {
      assert word == [s[i]];
    }
  }

  /** A word that is not renamed. */
  lemma WordKept(s: string, i: nat, delimited: bool, manifest: Manifest)
    requires i < |s| && !IsDelimiter(s[i])
    requires var word := Word(s[i..RunEnd(s, i, NotDelimiter())]); Renamed(delimited, word, manifest) == word
    ensures var end := RunEnd(s, i, NotDelimiter());
            Joined(RenameAll(delimited, Parts(s, i), manifest))
              == s[i..end] + Joined(RenameAll(false, Parts(s, end), manifest))
  {
    hide RunEnd, Joined;
    var end := RunEnd(s, i, NotDelimiter());
    NextRun(s, i);
    var word := Word(s[i..end]);
    assert ([word] + Parts(s, end))[1..] == Parts(s, end);
    JoinFirst(word, RenameAll(false, Parts(s, end), manifest));
  }

  lemma NextRun(s: string, i: nat)
    requires i < |s| && !IsDelimiter(s[i])
    ensures var end := RunEnd(s, i, NotDelimiter());
            && i < end <= |s| && (end < |s| ==> IsDelimiter(s[end]))
            && (i + 1 < end ==> !IsDelimiter(s[i + 1]) && RunEnd(s, i + 1, NotDelimiter()) == end)
  {
    RunStops(s, i);
  }

  lemma {:induction false} RunStops(s: string, i: nat)
    requires i <= |s|
    ensures var end := RunEnd(s, i, NotDelimiter()); end < |s| ==> IsDelimiter(s[end])
    decreases |s| - i
  {
    if i < |s| && !IsDelimiter(s[i]) { RunStops(s, i + 1); }
  }

  /** A delimiter is not renamed, whatever comes before it. */
  lemma AfterDelimiter(s: string, i: nat, manifest: Manifest)
    requires i < |s| && IsDelimiter(s[i])
    ensures forall delimited ::
              Joined(RenameAll(delimited, Parts(s, i), manifest)) == [s[i]] + Joined(RenameAll(true, Parts(s, i + 1), manifest))
  {
    var mark := Delimiter(s[i]);
    assert Parts(s, i)[1..] == Parts(s, i + 1);
    forall delimited
      ensures Joined(RenameAll(delimited, Parts(s, i), manifest)) == [s[i]] + Joined(RenameAll(true, Parts(s, i + 1), manifest))
    {
      JoinFirst(mark, RenameAll(true, Parts(s, i + 1), manifest));
    }
  }

  lemma JoinFirst(p: Part, rest: seq<Part>)
    ensures Joined([p] + rest) == PartText(p) + Joined(rest)
  {
    assert ([p] + rest)[1..] == rest;
  }

  /** A reference the manifest knows. */
  lemma RenamedWord(s: string, i: nat, manifest: Manifest)
    requires i < |s| && s[i] == '/' && s[i..RunEnd(s, i, NotDelimiter())] in manifest
    ensures var end := RunEnd(s, i, NotDelimiter());
            Joined(RenameAll(true, Parts(s, i), manifest))
              == manifest[s[i..end]] + Joined(RenameAll(false, Parts(s, end), manifest))
  {
    hide RunEnd;
    NextRun(s, i);
    var end := RunEnd(s, i, NotDelimiter());
    var word := Word(s[i..end]);
    assert "/" <= word.word;
    assert ([word] + Parts(s, end))[1..] == Parts(s, end);
    JoinFirst(Word(manifest[word.word]), RenameAll(false, Parts(s, end), manifest));
  }

  /** The text with its references renamed, in one pass. */
  method RewriteRefs(text: string, manifest: Manifest) returns (out: string)
    ensures out == Rewritten(text, manifest)
  {
    hide RenameAll, Parts, Joined, RunEnd;
    if manifest == map[] {
      NothingRenamed(text);
      return text;
    }
    out := "";
    var index := 0;
    ghost var delimited := false;
    assert "" + Rewritten(text, manifest) == Rewritten(text, manifest);
    while index < |text|
      invariant 0 <= index <= |text|
      invariant out + Joined(RenameAll(delimited, Parts(text, index), manifest)) == Rewritten(text, manifest)
      invariant index < |text| && delimited && text[index] == '/' ==>
                  text[index..RunEnd(text, index, NotDelimiter())] !in manifest
    {
      var character := text[index];
      if IsDelimiter(character) {
        AfterDelimiter(text, index, manifest);
      } else {
        PartsFromWord(text, index, delimited, manifest);
      }
      Regrouped(out, [character], Joined(RenameAll(IsDelimiter(character), Parts(text, index + 1), manifest)));
      out := out + [character];
      index := index + 1;
      delimited := IsDelimiter(character);
      if !IsDelimiter(character) || index >= |text| || text[index] != '/' { continue; }
      var end := Scan(text, index, NotDelimiter());
      var candidate := text[index..end];
      if candidate !in manifest { continue; }
      RenamedWord(text, index, manifest);
      Regrouped(out, manifest[candidate], Joined(RenameAll(false, Parts(text, end), manifest)));
      out := out + manifest[candidate];
      index := end;
      delimited := false;
    }
    NothingLeft(text, delimited, manifest);
    assert out + "" == out;
  }

  lemma Regrouped(a: string, b: string, c: string)
    ensures a + (b + c) == (a + b) + c
  {
  }

  lemma NothingLeft(s: string, delimited: bool, manifest: Manifest)
    ensures Joined(RenameAll(delimited, Parts(s, |s|), manifest)) == ""
  {
  }

  lemma NothingRenamed(s: string)
    ensures Rewritten(s, map[]) == s
  {
    PartsAreText(s, 0);
    SameParts(false, Parts(s, 0));
    assert s[0..] == s;
  }

  lemma {:induction false} SameParts(delimited: bool, parts: seq<Part>)
    ensures RenameAll(delimited, parts, map[]) == parts
    decreases parts
  {
    if parts != [] { SameParts(parts[0].Delimiter?, parts[1..]); }
  }

  lemma {:induction false} PartsAreText(s: string, i: nat)
    requires i <= |s|
    ensures Joined(Parts(s, i)) == s[i..] && Separate(Parts(s, i))
    ensures i < |s| && IsDelimiter(s[i]) ==> Parts(s, i)[0].Delimiter?
    decreases |s| - i
  {
    hide RunEnd;
    if i < |s| {
      if IsDelimiter(s[i]) {
        PartsAreText(s, i + 1);
        JoinFirst(Delimiter(s[i]), Parts(s, i + 1));
        assert Parts(s, i)[1..] == Parts(s, i + 1);
        assert s[i..] == [s[i]] + s[i + 1..];
      } else {
        var end := RunEnd(s, i, NotDelimiter());
        NextRun(s, i);
        PartsAreText(s, end);
        JoinFirst(Word(s[i..end]), Parts(s, end));
        assert Parts(s, i)[1..] == Parts(s, end);
        assert s[i..] == s[i..end] + s[end..];
        WordIsBare(s, i);
      }
    }
  }

  // ------------------------------------------------------------- rewriting back

  predicate IsBare(word: string) { word != "" && forall c | c in word :: !IsDelimiter(c) }

  /** Parts as a text has them: words that are not empty, hold no delimiter and do not touch. */
  predicate Separate(parts: seq<Part>) {
    parts == [] ||
    ((if parts[0].Delimiter? then IsDelimiter(parts[0].mark)
      else IsBare(parts[0].word) && (|parts| > 1 ==> parts[1].Delimiter?))
     && Separate(parts[1..]))
  }

  lemma WordIsBare(s: string, i: nat)
    requires i < |s| && !IsDelimiter(s[i])
    ensures IsBare(s[i..RunEnd(s, i, NotDelimiter())])
  {
    NextRun(s, i);
    RunBare(s, i);
  }

  lemma {:induction false} RunBare(s: string, i: nat)
    requires i <= |s|
    ensures forall c | c in s[i..RunEnd(s, i, NotDelimiter())] :: !IsDelimiter(c)
    decreases |s| - i
  {
    if i < |s| && !IsDelimiter(s[i]) {
      RunBare(s, i + 1);
      var end := RunEnd(s, i + 1, NotDelimiter());
      assert s[i..end] == [s[i]] + s[i + 1..end];
    }
  }

  lemma {:induction false} RunOver(s: string, i: nat, end: nat)
    requires i <= end <= |s| && (forall k | i <= k < end :: !IsDelimiter(s[k])) && (end < |s| ==> IsDelimiter(s[end]))
    ensures RunEnd(s, i, NotDelimiter()) == end
    decreases end - i
  {
    if i < end { RunOver(s, i + 1, end); }
  }

  lemma {:induction false} PartsReadBack(before: string, parts: seq<Part>)
    requires Separate(parts)
    ensures Parts(before + Joined(parts), |before|) == parts
    decreases parts
  {
    hide RunEnd;
    var s, i := before + Joined(parts), |before|;
    if parts != [] {
      var p, rest := parts[0], parts[1..];
      PartsReadBack(before + PartText(p), rest);
      assert s == (before + PartText(p)) + Joined(rest);
      if p.Delimiter? {
        assert s[i] == p.mark && |before + PartText(p)| == i + 1;
      } else {
        WordReads(before, p.word, rest);
      }
      assert parts == [p] + rest;
    }
  }

  lemma JoinedStart(parts: seq<Part>)
    requires Separate(parts) && (parts != [] ==> parts[0].Delimiter?)
    ensures Joined(parts) == "" || IsDelimiter(Joined(parts)[0])
  {
    if parts != [] { assert Joined(parts)[0] == parts[0].mark; }
  }

  lemma WordReads(before: string, word: string, rest: seq<Part>)
    requires IsBare(word) && Separate(rest) && (rest != [] ==> rest[0].Delimiter?)
    ensures var s := before + (word + Joined(rest));
            && RunEnd(s, |before|, NotDelimiter()) == |before| + |word|
            && s[|before|..|before| + |word|] == word && !IsDelimiter(s[|before|])
  {
    hide Joined, Separate, IsDelimiter, RunEnd, IsBare;
    JoinedStart(rest);
    var after := Joined(rest);
    var s := before + (word + after);
    var i, end := |before|, |before| + |word|;
    assert s[i..end] == word;
    if after != "" { assert s[end] == after[0]; }
    WordRuns(s, i, end);
  }

  lemma WordRuns(s: string, i: nat, end: nat)
    requires i <= end <= |s| && IsBare(s[i..end]) && (end < |s| ==> IsDelimiter(s[end]))
    ensures i < |s| && RunEnd(s, i, NotDelimiter()) == end && !IsDelimiter(s[i])
  {
    hide IsDelimiter, RunEnd;
    var word := s[i..end];
    forall k | i <= k < end ensures !IsDelimiter(s[k]) { assert s[k] == word[k - i] && word[k - i] in word; }
    RunOver(s, i, end);
    assert i < end;
  }

  /** Absolute paths that hold no delimiter, no two of them renamed alike. */
  ghost predicate Orderly(manifest: Manifest) {
    && (forall k | k in manifest :: IsBare(k) && "/" <= k && IsBare(manifest[k]) && "/" <= manifest[k])
    && (forall j, k | j in manifest && k in manifest && manifest[j] == manifest[k] :: j == k)
  }

  function Inverse(manifest: Manifest): Manifest
    requires Orderly(manifest)
  {
    map k | k in manifest :: manifest[k] := k
  }

  /** A new name that the text already refers to, and that is not itself renamed. */
  predicate Clashes(delimited: bool, p: Part, manifest: Manifest) {
    IsReference(delimited, p) && p.word !in manifest && p.word in manifest.Values
  }

  predicate NoClash(delimited: bool, parts: seq<Part>, manifest: Manifest)
    decreases parts
  {
    parts == [] || (!Clashes(delimited, parts[0], manifest) && NoClash(parts[0].Delimiter?, parts[1..], manifest))
  }

  lemma OneBack(delimited: bool, p: Part, manifest: Manifest)
    requires Orderly(manifest)
    ensures Renamed(delimited, Renamed(delimited, p, manifest), Inverse(manifest)) == p <==> !Clashes(delimited, p, manifest)
  {
    var inverse := Inverse(manifest);
    if IsReference(delimited, p) {
      if p.word in manifest {
        assert manifest[p.word] in inverse && inverse[manifest[p.word]] == p.word;
      } else if p.word in manifest.Values {
        var k :| k in manifest && manifest[k] == p.word;
        assert inverse[p.word] == k && k != p.word;
      }
    }
  }

  lemma {:induction false} AllBack(delimited: bool, parts: seq<Part>, manifest: Manifest)
    requires Orderly(manifest) && Separate(parts)
    ensures var there := RenameAll(delimited, parts, manifest);
            var back := RenameAll(delimited, there, Inverse(manifest));
            && Separate(there) && Separate(back)
            && (back == parts <==> NoClash(delimited, parts, manifest))
    decreases parts
  {
    if parts != [] {
      var p, rest := parts[0], parts[1..];
      var q := Renamed(delimited, p, manifest);
      OneBack(delimited, p, manifest);
      AllBack(p.Delimiter?, rest, manifest);
      var there := RenameAll(delimited, parts, manifest);
      assert there[1..] == RenameAll(p.Delimiter?, rest, manifest) && q.Delimiter? == p.Delimiter?;
      var back := RenameAll(delimited, there, Inverse(manifest));
      assert back[1..] == RenameAll(p.Delimiter?, there[1..], Inverse(manifest));
      assert parts == [p] + rest && back == [back[0]] + back[1..];
      RenamedKind(delimited, p, manifest);
      RenamedKind(delimited, q, Inverse(manifest));
      FirstKinds(p.Delimiter?, rest, manifest);
    }
  }

  /** Renaming leaves delimiters as they are and words bare. */
  lemma RenamedKind(delimited: bool, p: Part, manifest: Manifest)
    requires forall k | k in manifest :: IsBare(manifest[k])
    requires p.Word? ==> IsBare(p.word)
    ensures var q := Renamed(delimited, p, manifest); q.Delimiter? == p.Delimiter? && (p.Delimiter? ==> q == p)
    ensures var q := Renamed(delimited, p, manifest); q.Word? ==> IsBare(q.word)
  {
  }

  lemma FirstKinds(delimited: bool, parts: seq<Part>, manifest: Manifest)
    requires Orderly(manifest)
    ensures var there := RenameAll(delimited, parts, manifest);
            var back := RenameAll(delimited, there, Inverse(manifest));
            && |there| == |parts| == |back|
            && (parts != [] ==> there[0].Delimiter? == parts[0].Delimiter? == back[0].Delimiter?)
  {
    SameLength(delimited, parts, manifest);
    SameLength(delimited, RenameAll(delimited, parts, manifest), Inverse(manifest));
  }

  lemma {:induction false} SameLength(delimited: bool, parts: seq<Part>, manifest: Manifest)
    ensures |RenameAll(delimited, parts, manifest)| == |parts|
    decreases parts
  {
    if parts != [] { SameLength(parts[0].Delimiter?, parts[1..], manifest); }
  }

  /** Rewriting with the inverse manifest gives the text back exactly when the text referred
      to no new name beforehand. */
  lemma RewritingBack(s: string, manifest: Manifest)
    requires Orderly(manifest)
    ensures Rewritten(Rewritten(s, manifest), Inverse(manifest)) == s <==> NoClash(false, Parts(s, 0), manifest)
  {
    hide Parts, RenameAll, Joined, NoClash, Separate, Inverse;
    var parts := Parts(s, 0);
    PartsAreText(s, 0);
    AllBack(false, parts, manifest);
    var there := RenameAll(false, parts, manifest);
    var back := RenameAll(false, there, Inverse(manifest));
    PartsReadBack("", there);
    PartsReadBack("", back);
    PartsReadBack("", parts);
    assert s[0..] == s && "" + Joined(there) == Joined(there) && "" + Joined(back) == Joined(back) && "" + s == s;
  }

  // ------------------------------------------------------------- what is renamed

  /** A character that can come right before or after a reference. */
  predicate Breaks(c: char) { c in "\"'(), \t\n\r" || c == 12 as char }

  lemma BreaksDelimit(c: char)
    ensures Breaks(c) <==> IsDelimiter(c)
  {
  }

  lemma {:induction false} RenameJoined(delimited: bool, front: seq<Part>, back: seq<Part>, manifest: Manifest)
    ensures var between := if front == [] then delimited else front[|front| - 1].Delimiter?;
            RenameAll(delimited, front + back, manifest)
              == RenameAll(delimited, front, manifest) + RenameAll(between, back, manifest)
    decreases front
  {
    hide Renamed;
    if front == [] {
      assert front + back == back;
    } else {
      RenameJoined(front[0].Delimiter?, front[1..], back, manifest);
      assert (front + back)[1..] == front[1..] + back;
    }
  }

  lemma {:induction false} JoinedTwice(front: seq<Part>, back: seq<Part>)
    ensures Joined(front + back) == Joined(front) + Joined(back)
    decreases front
  {
    hide PartText;
    if front == [] {
      assert front + back == back;
    } else {
      JoinedTwice(front[1..], back);
      assert (front + back)[1..] == front[1..] + back;
    }
  }

  /** The parts on both sides of a delimiter. */
  lemma {:induction false} SeparateJoined(front: seq<Part>, back: seq<Part>)
    requires Separate(front) && Separate(back)
    requires front != [] && back != [] ==> front[|front| - 1].Delimiter? || back[0].Delimiter?
    ensures Separate(front + back)
    decreases front
  {
    if front == [] {
      assert front + back == back;
    } else {
      SeparateJoined(front[1..], back);
      assert (front + back)[1..] == front[1..] + back;
    }
  }

  lemma {:induction false} LastPart(parts: seq<Part>)
    requires Separate(parts)
    ensures Joined(parts) == "" <==> parts == []
    ensures parts != [] ==>
              (IsDelimiter(Joined(parts)[|Joined(parts)| - 1]) <==> parts[|parts| - 1].Delimiter?)
    decreases parts
  {
    hide IsDelimiter;
    if |parts| == 1 {
      assert Joined(parts) == PartText(parts[0]) + "" == PartText(parts[0]);
      if parts[0].Word? { assert parts[0].word[|parts[0].word| - 1] in parts[0].word; }
    } else if parts != [] {
      LastPart(parts[1..]);
      assert parts[1..][|parts| - 2] == parts[|parts| - 1];
    }
  }

  lemma FirstPart(parts: seq<Part>)
    requires Separate(parts) && parts != []
    ensures Joined(parts) != "" && (IsDelimiter(Joined(parts)[0]) <==> parts[0].Delimiter?)
  {
    hide IsDelimiter;
    if parts[0].Word? { assert parts[0].word[0] in parts[0].word; }
  }

  /** What comes before the first delimiter is not looked at. */
  lemma FirstFlag(delimited: bool, parts: seq<Part>, manifest: Manifest)
    requires parts != [] ==> parts[0].Delimiter?
    ensures RenameAll(delimited, parts, manifest) == RenameAll(false, parts, manifest)
  {
  }

  /** A word of the text between two delimiters, or the ends of the text, is renamed when it
      starts with a slash, has a delimiter before it and the manifest knows all of it; it is
      kept otherwise. What comes before it and after it is rewritten on its own. */
  lemma WordsRenamed(before: string, word: string, after: string, manifest: Manifest)
    requires word != "" && forall c | c in word :: !Breaks(c)
    requires (before == "" || Breaks(before[|before| - 1])) && (after == "" || Breaks(after[0]))
    ensures Rewritten(before + (word + after), manifest)
         == Rewritten(before, manifest)
            + ((if before != "" && word[0] == '/' && word in manifest then manifest[word] else word)
               + Rewritten(after, manifest))
  {
    forall c ensures Breaks(c) <==> IsDelimiter(c) { BreaksDelimit(c); }
    var front, middle, back := Parts(before, 0), [Word(word)], Parts(after, 0);
    assert before[0..] == before && after[0..] == after;
    PartsAreText(before, 0);
    PartsAreText(after, 0);
    assert Joined(middle) == word + "" == word;
    hide Parts, RenameAll, Joined, IsDelimiter, Breaks;
    LastPart(front);
    if back != [] { FirstPart(back); }
    assert Separate(middle) && Separate(middle[1..]);
    SeparateJoined(middle, back);
    SeparateJoined(front, middle + back);
    JoinedTwice(middle, back);
    JoinedTwice(front, middle + back);
    var parts := front + (middle + back);
    PartsReadBack("", parts);
    assert "" + Joined(parts) == Joined(parts);
    RenameJoined(false, front, middle + back, manifest);
    RenameJoined(before != "", middle, back, manifest);
    FirstFlag(false, back, manifest);
    OneRenamed(before != "", word, manifest);
    JoinedTwice(RenameAll(before != "", middle, manifest), RenameAll(false, back, manifest));
    JoinedTwice(RenameAll(false, front, manifest),
                RenameAll(before != "", middle, manifest) + RenameAll(false, back, manifest));
  }

  lemma OneRenamed(delimited: bool, word: string, manifest: Manifest)
    requires word != ""
    ensures Joined(RenameAll(delimited, [Word(word)], manifest))
         == if delimited && word[0] == '/' && word in manifest then manifest[word] else word
  {
    var p := Word(word);
    assert "/" <= word <==> word[0] == '/';
    assert RenameAll(delimited, [p], manifest) == [Renamed(delimited, p, manifest)];
    assert forall s: string :: s + "" == s;
  }

  /** Delimiters are kept. */
  lemma {:induction false} BreaksKept(s: string, manifest: Manifest)
    requires forall c | c in s :: Breaks(c)
    ensures Rewritten(s, manifest) == s
    decreases s
  {
    BreaksFrom(s, 0, false, manifest);
    assert s[0..] == s;
  }

  lemma {:induction false} BreaksFrom(s: string, i: nat, delimited: bool, manifest: Manifest)
    requires i <= |s| && forall c | c in s :: Breaks(c)
    ensures Joined(RenameAll(delimited, Parts(s, i), manifest)) == s[i..]
    decreases |s| - i
  {
    if i < |s| {
      assert s[i] in s;
      BreaksDelimit(s[i]);
      BreaksFrom(s, i + 1, true, manifest);
      AfterDelimiter(s, i, manifest);
      assert s[i..] == [s[i]] + s[i + 1..];
    }
  }
}
