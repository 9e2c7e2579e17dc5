/** Suggesting a configuration key (src/blogin/config.cpp): the two-row table computes the
    least number of edits between two texts, and the hint is the first closest key. */
module EditDistance {
  import opened Strings

  /** One step along a text, from its first character to its last. */
  datatype Edit = Keep | Replace(with_: char) | Insert(new_: char) | Delete

  /** What a script makes of the text it is written for; none when it does not fit it. */
  function Apply(script: seq<Edit>, s: string): Option<string>
    decreases |script|
  {
    if script == [] then if s == "" then Some("") else None
    else
      var last, front := script[|script| - 1], script[..|script| - 1];
      if last.Insert? then Append(Apply(front, s), [last.new_])
      else if s == "" then None
      else
        var rest := Apply(front, s[..|s| - 1]);
        if last.Delete? then rest
        else Append(rest, if last.Keep? then [s[|s| - 1]] else [last.with_])
  }

  function Append(s: Option<string>, tail: string): Option<string> {
    if s.None? then None else Some(s.value + tail)
  }

  /** The edits that are not `Keep`. */
  function Cost(script: seq<Edit>): nat {
    if script == [] then 0
    else (if script[|script| - 1].Keep? then 0 else 1) + Cost(script[..|script| - 1])
  }

  function Least(a: nat, b: nat, c: nat): nat {
    if a <= b && a <= c then a else if b <= c then b else c
  }

  function Mismatch(a: char, b: char): nat { if a == b then 0 else 1 }

  /** The table's entry for the first `i` characters of `a` and the first `j` of `b`. */
  function Entry(a: string, b: string, i: nat, j: nat): nat
    requires i <= |a| && j <= |b|
    decreases i, j
  {
    if i == 0 then j
    else if j == 0 then i
    else Least(Entry(a, b, i, j - 1) + 1, Entry(a, b, i - 1, j) + 1,
               Entry(a, b, i - 1, j - 1) + Mismatch(a[i - 1], b[j - 1]))
  }

  function Distance(a: string, b: string): nat { Entry(a, b, |a|, |b|) }

  // ------------------------------------------------------------- the two rows

  method Compute(left: string, right: string) returns (distance: nat)
    ensures distance == Distance(left, right)
  {
    hide Entry, Least;
    var columns := |right| + 1;
    var previous := new nat[columns];
    var current := new nat[columns];
    for index := 0 to columns
      invariant forall k | 0 <= k < index :: previous[k] == k
    {
      previous[index] := index;
    }
    forall k | 0 <= k < columns ensures previous[k] == Entry(left, right, 0, k) { EntryStep(left, right, 0, k); }
    for row := 1 to |left| + 1
      invariant forall k | 0 <= k < columns :: previous[k] == Entry(left, right, row - 1, k)
    {
      current[0] := row;
      EntryStep(left, right, row, 0);
      for column := 1 to columns
        invariant forall k | 0 <= k < columns :: previous[k] == Entry(left, right, row - 1, k)
        invariant forall k | 0 <= k < column :: current[k] == Entry(left, right, row, k)
      {
        EntryStep(left, right, row, column);
        var substitution := previous[column - 1] + Mismatch(left[row - 1], right[column - 1]);
        current[column] := Least(current[column - 1] + 1, previous[column] + 1, substitution);
      }
      forall k | 0 <= k < columns { previous[k] := current[k]; }
    }
    return previous[|right|];
  }

  lemma EntryStep(a: string, b: string, i: nat, j: nat)
    requires i <= |a| && j <= |b|
    ensures Entry(a, b, i, j) ==
              if i == 0 then j
              else if j == 0 then i
              else Least(Entry(a, b, i, j - 1) + 1, Entry(a, b, i - 1, j) + 1,
                         Entry(a, b, i - 1, j - 1) + Mismatch(a[i - 1], b[j - 1]))
  {
  }

  // ------------------------------------------------------------- least edits

  /** A script as cheap as the table says. */
  function Script(a: string, b: string): seq<Edit>
    decreases |a|, |b|
  {
    if a == "" then if b == "" then [] else Script(a, b[..|b| - 1]) + [Insert(b[|b| - 1])]
    else if b == "" then Script(a[..|a| - 1], b) + [Delete]
    else
      var i, j := |a|, |b|;
      var d := Distance(a, b);
      if d == Entry(a, b, i, j - 1) + 1 then Script(a, b[..j - 1]) + [Insert(b[j - 1])]
      else if d == Entry(a, b, i - 1, j) + 1 then Script(a[..i - 1], b) + [Delete]
      else Script(a[..i - 1], b[..j - 1]) + [if a[i - 1] == b[j - 1] then Keep else Replace(b[j - 1])]
  }

  lemma {:induction false} EntryOfPrefixes(a: string, b: string, i: nat, j: nat)
    requires i <= |a| && j <= |b|
    ensures Entry(a, b, i, j) == Distance(a[..i], b[..j])
    decreases i, j
  {
    PrefixEntries(a, b, i, j, i, j);
  }

  /** The entries of two prefixes are those of the whole texts. */
  lemma {:induction false} PrefixEntries(a: string, b: string, m: nat, n: nat, i: nat, j: nat)
    requires i <= m <= |a| && j <= n <= |b|
    ensures Entry(a[..m], b[..n], i, j) == Entry(a, b, i, j)
    decreases i, j
  {
    hide Entry;
    EntryStep(a, b, i, j);
    EntryStep(a[..m], b[..n], i, j);
    if i > 0 && j > 0 {
      PrefixEntries(a, b, m, n, i, j - 1);
      PrefixEntries(a, b, m, n, i - 1, j);
      PrefixEntries(a, b, m, n, i - 1, j - 1);
    }
  }

  lemma Ending(script: seq<Edit>, e: Edit)
    ensures (script + [e])[..|script + [e]| - 1] == script
    ensures Cost(script + [e]) == Cost(script) + (if e.Keep? then 0 else 1)
  {
    assert (script + [e])[..|script + [e]| - 1] == script;
  }

  /** The last edit of the script, by the case the table took. */
  lemma ScriptCases(a: string, b: string)
    requires a != "" || b != ""
    ensures var i, j := |a|, |b|;
            if a == "" || (b != "" && Distance(a, b) == Entry(a, b, i, j - 1) + 1) then
              Script(a, b) == Script(a, b[..j - 1]) + [Insert(b[j - 1])]
            else if b == "" || Distance(a, b) == Entry(a, b, i - 1, j) + 1 then
              Script(a, b) == Script(a[..i - 1], b) + [Delete]
            else Script(a, b) == Script(a[..i - 1], b[..j - 1]) + [if a[i - 1] == b[j - 1] then Keep else Replace(b[j - 1])]
  {
    hide Entry;
  }

  lemma ApplyEnding(script: seq<Edit>, e: Edit, s: string)
    ensures Apply(script + [e], s) ==
              if e.Insert? then Append(Apply(script, s), [e.new_])
              else if s == "" then None
              else if e.Delete? then Apply(script, s[..|s| - 1])
              else Append(Apply(script, s[..|s| - 1]), if e.Keep? then [s[|s| - 1]] else [e.with_])
  {
    Ending(script, e);
  }

  lemma {:induction false} ScriptWorks(a: string, b: string)
    ensures Apply(Script(a, b), a) == Some(b) && Cost(Script(a, b)) == Distance(a, b)
    decreases |a|, |b|
  {
    hide Entry, Cost, Apply, Script;
    var i, j := |a|, |b|;
    assert a[..i] == a && b[..j] == b;
    EntryStep(a, b, i, j);
    if a == "" && b == "" {
      NothingWorks();
    } else {
      ScriptCases(a, b);
      if a == "" || (b != "" && Distance(a, b) == Entry(a, b, i, j - 1) + 1) {
        ScriptWorks(a, b[..j - 1]);
        EntryOfPrefixes(a, b, i, j - 1);
        EntryStep(a, b, i, j - 1);
        Ending(Script(a, b[..j - 1]), Insert(b[j - 1]));
        ApplyEnding(Script(a, b[..j - 1]), Insert(b[j - 1]), a);
        assert b[..j - 1] + [b[j - 1]] == b;
      } else if b == "" || Distance(a, b) == Entry(a, b, i - 1, j) + 1 {
        ScriptWorks(a[..i - 1], b);
        EntryOfPrefixes(a, b, i - 1, j);
        EntryStep(a, b, i - 1, j);
        Ending(Script(a[..i - 1], b), Delete);
        ApplyEnding(Script(a[..i - 1], b), Delete, a);
      } else {
        SameEnd(a, b);
      }
    }
  }

  lemma SameEnd(a: string, b: string)
    requires a != "" && b != ""
    requires Distance(a, b) != Entry(a, b, |a|, |b| - 1) + 1 && Distance(a, b) != Entry(a, b, |a| - 1, |b|) + 1
    ensures Apply(Script(a, b), a) == Some(b) && Cost(Script(a, b)) == Distance(a, b)
    decreases |a|, |b|, 0
  {
    hide Entry, Cost, Apply, Script;
    var i, j := |a|, |b|;
    EntryStep(a, b, i, j);
    ScriptCases(a, b);
    var e := if a[i - 1] == b[j - 1] then Keep else Replace(b[j - 1]);
    ScriptWorks(a[..i - 1], b[..j - 1]);
    EntryOfPrefixes(a, b, i - 1, j - 1);
    Ending(Script(a[..i - 1], b[..j - 1]), e);
    ApplyEnding(Script(a[..i - 1], b[..j - 1]), e, a);
    assert b[..j - 1] + [b[j - 1]] == b;
  }

  lemma NothingWorks()
    ensures Apply(Script("", ""), "") == Some("") && Cost(Script("", "")) == 0
  {
  }

  lemma EdgeEntry(a: string, b: string)
    requires a == "" || b == ""
    ensures Distance(a, b) == |a| + |b|
  {
  }

  lemma EdgeSteps(a: string, b: string)
    requires a == "" || b == ""
    ensures a != "" ==> Distance(a, b) == Distance(a[..|a| - 1], b) + 1
    ensures b != "" ==> Distance(a, b) == Distance(a, b[..|b| - 1]) + 1
  {
  }

  /** The entry is at most each of the three it is the least of. */
  lemma EntrySteps(a: string, b: string)
    ensures a != "" ==> Distance(a, b) <= Distance(a[..|a| - 1], b) + 1
    ensures b != "" ==> Distance(a, b) <= Distance(a, b[..|b| - 1]) + 1
    ensures a != "" && b != "" ==>
              Distance(a, b) <= Distance(a[..|a| - 1], b[..|b| - 1]) + Mismatch(a[|a| - 1], b[|b| - 1])
  {
    hide Entry;
    EntryStep(a, b, |a|, |b|);
    if a == "" || b == "" { EdgeSteps(a, b); }
    assert a[..|a|] == a && b[..|b|] == b;
    if a != "" { EntryOfPrefixes(a, b, |a| - 1, |b|); }
    if b != "" { EntryOfPrefixes(a, b, |a|, |b| - 1); }
    if a != "" && b != "" { EntryOfPrefixes(a, b, |a| - 1, |b| - 1); }
  }

  lemma {:induction false} NoScriptCheaper(script: seq<Edit>, a: string, b: string)
    requires Apply(script, a) == Some(b)
    ensures Distance(a, b) <= Cost(script)
    decreases |script|
  {
    hide Entry;
    if script == [] {
      EdgeEntry(a, b);
    } else {
      var last, front := script[|script| - 1], script[..|script| - 1];
      EntrySteps(a, b);
      if last.Insert? {
        var before := Apply(front, a).value;
        assert b[..|b| - 1] == before;
        NoScriptCheaper(front, a, before);
      } else if last.Delete? {
        NoScriptCheaper(front, a[..|a| - 1], b);
      } else {
        var before := Apply(front, a[..|a| - 1]).value;
        assert b[..|b| - 1] == before;
        NoScriptCheaper(front, a[..|a| - 1], before);
      }
    }
  }

  /** The distance is the cost of a cheapest script from one text to the other. */
  lemma DistanceIsCheapest(a: string, b: string)
    ensures exists script :: Apply(script, a) == Some(b) && Cost(script) == Distance(a, b)
    ensures forall script | Apply(script, a) == Some(b) :: Distance(a, b) <= Cost(script)
  {
    ScriptWorks(a, b);
    forall script | Apply(script, a) == Some(b) ensures Distance(a, b) <= Cost(script) {
      NoScriptCheaper(script, a, b);
    }
  }

  // ------------------------------------------------------------- a metric

  lemma {:induction false} EntrySymmetric(a: string, b: string, i: nat, j: nat)
    requires i <= |a| && j <= |b|
    ensures Entry(a, b, i, j) == Entry(b, a, j, i)
    decreases i + j
  {
    hide Entry;
    EntryStep(a, b, i, j);
    EntryStep(b, a, j, i);
    if i > 0 && j > 0 {
      EntrySymmetric(a, b, i, j - 1);
      EntrySymmetric(a, b, i - 1, j);
      EntrySymmetric(a, b, i - 1, j - 1);
    }
  }

  lemma {:induction false} EntryBounds(a: string, b: string, i: nat, j: nat)
    requires i <= |a| && j <= |b|
    ensures i <= Entry(a, b, i, j) + j && j <= Entry(a, b, i, j) + i && Entry(a, b, i, j) <= i + j
    decreases i + j
  {
    hide Entry;
    EntryStep(a, b, i, j);
    if i > 0 && j > 0 {
      EntryBounds(a, b, i, j - 1);
      EntryBounds(a, b, i - 1, j);
      EntryBounds(a, b, i - 1, j - 1);
    }
  }

  lemma {:induction false} EntryTriangle(a: string, b: string, c: string, i: nat, j: nat, k: nat)
    requires i <= |a| && j <= |b| && k <= |c|
    ensures Entry(a, c, i, k) <= Entry(a, b, i, j) + Entry(b, c, j, k)
    decreases i + j + k
  {
    hide Entry;
    EntryStep(a, b, i, j);
    EntryStep(b, c, j, k);
    EntryStep(a, c, i, k);
    EntryBounds(a, b, i, j);
    EntryBounds(b, c, j, k);
    EntryBounds(a, c, i, k);
    if i > 0 && j > 0 && k > 0 {
      EntryTriangle(a, b, c, i - 1, j, k);
      EntryTriangle(a, b, c, i, j, k - 1);
      EntryTriangle(a, b, c, i, j - 1, k);
      EntryTriangle(a, b, c, i, j - 1, k - 1);
      EntryTriangle(a, b, c, i - 1, j - 1, k);
      EntryTriangle(a, b, c, i - 1, j - 1, k - 1);
    }
  }

  lemma {:induction false} EntryZero(a: string, b: string, i: nat, j: nat)
    requires i <= |a| && j <= |b|
    ensures Entry(a, b, i, j) == 0 <==> i == j && a[..i] == b[..j]
    decreases i + j
  {
    hide Entry;
    EntryStep(a, b, i, j);
    if i > 0 && j > 0 {
      EntryZero(a, b, i - 1, j - 1);
      assert a[..i] == a[..i - 1] + [a[i - 1]] && b[..j] == b[..j - 1] + [b[j - 1]];
    }
  }

  /** The distance is a metric on texts. */
  lemma DistanceIsMetric(a: string, b: string, c: string)
    ensures Distance(a, b) == 0 <==> a == b
    ensures Distance(a, b) == Distance(b, a)
    ensures Distance(a, c) <= Distance(a, b) + Distance(b, c)
  {
    EntryZero(a, b, |a|, |b|);
    assert a[..|a|] == a && b[..|b|] == b;
    EntrySymmetric(a, b, |a|, |b|);
    EntryTriangle(a, b, c, |a|, |b|, |c|);
  }

  // ------------------------------------------------------------- the hint

  const KNOWN_KEYS := [
    "title", "base-url", "output-dir", "author", "image", "twitter", "home-section", "css-framework", "theme",
    "page-size", "summary-length", "reading-wpm", "related-count", "search-text-length", "search-cap",
    "clean-urls", "debug", "search", "highlight", "robots", "minify", "fingerprint",
    "image-widths", "taxonomies", "feed-formats", "languages", "language-config", "sections"
  ]

  const FAR := 3

  /** The first key of those as close as any. */
  ghost predicate FirstClosest(unknown: string, keys: seq<string>, k: nat) {
    && k < |keys|
    && (forall j | 0 <= j < |keys| :: Distance(unknown, keys[k]) <= Distance(unknown, keys[j]))
    && (forall j | 0 <= j < k :: Distance(unknown, keys[k]) < Distance(unknown, keys[j]))
  }

  function Hint(key: string): string { "did you mean '" + key + "'?" }

  /** A hint names the first closest key, when that is near enough; when none is, there is
      no hint. */
  method HintAmong(unknown: string, keys: seq<string>) returns (hint: string)
    requires "" !in keys
    ensures hint == "" <==> forall k | 0 <= k < |keys| :: Distance(unknown, keys[k]) > FAR
    ensures hint != "" ==>
              exists k: nat :: FirstClosest(unknown, keys, k) && Distance(unknown, keys[k]) <= FAR && hint == Hint(keys[k])
  {
    hide Distance;
    var best := "";
    var bestDistance: Option<nat> := None;
    ghost var at := 0;
    for index := 0 to |keys|
      invariant bestDistance.None? <==> index == 0
      invariant index > 0 ==>
                  && at < index && best == keys[at] && bestDistance == Some(Distance(unknown, keys[at]))
                  && FirstClosest(unknown, keys[..index], at)
    {
      var distance := Compute(unknown, keys[index]);
      assert keys[..index + 1] == keys[..index] + [keys[index]];
      if bestDistance.None? || distance < bestDistance.value {
        bestDistance := Some(distance);
        best := keys[index];
        at := index;
      }
    }
    assert keys[..|keys|] == keys;
    if bestDistance.None? || bestDistance.value > FAR || best == "" { return ""; }
    return Hint(best);
  }

  method NearestKeyHint(unknown: string) returns (hint: string)
    ensures hint == "" <==> forall k | 0 <= k < |KNOWN_KEYS| :: Distance(unknown, KNOWN_KEYS[k]) > FAR
    ensures hint != "" ==>
              exists k: nat :: FirstClosest(unknown, KNOWN_KEYS, k) && Distance(unknown, KNOWN_KEYS[k]) <= FAR
                          && hint == Hint(KNOWN_KEYS[k])
  {
    hint := HintAmong(unknown, KNOWN_KEYS);
  }
}
