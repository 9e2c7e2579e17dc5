/** What the letters of a command line mean, and what is refused: lines written as the usage
    text of src/blogin/cli.cpp spells them, and what the parser makes of them. */
module ShortLines {
  import opened Strings
  import opened Values
  import opened Cli

  // ------------------------------------------------------------- lines in short form

  /** A value option and its value, those that are numbers as numbers. */
  datatype Choice = Text(setting: Setting, text: string) | Count(setting: Setting, n: int)
  {
    predicate WellFormed() { if setting.Jobs? || setting.Port? then Count? && -0x8000_0000 <= n <= 0x7fff_ffff else Text? }

    function Value(): string { if Text? then text else IntegerText(n) }
  }

  /** Switches run together, and a value option last in the run. */
  datatype Run = Run(switches: seq<Switch>, last: Option<Choice>)
  {
    predicate WellFormed() { (switches != [] || last.Some?) && (last.Some? ==> last.value.WellFormed()) }
  }

  function SwitchLetter(s: Switch): char {
    match s
    case Drafts => 'd'
    case Future => 'F'
    case Force => 'f'
    case Debug => 'D'
    case NoDebug => 'N'
    case Counters => 'c'
    case Verbose => 'v'
  }

  function SettingLetter(s: Setting): char {
    match s
    case Src => 's'
    case Out => 'o'
    case Section => 'S'
    case Framework => 'w'
    case Jobs => 'j'
    case Port => 'p'
  }

  function Letters(switches: seq<Switch>): string {
    if switches == [] then "" else [SwitchLetter(switches[0])] + Letters(switches[1..])
  }

  function RunText(run: Run): seq<string> {
    if run.last.None? then ["-" + Letters(run.switches)]
    else ["-" + (Letters(run.switches) + [SettingLetter(run.last.value.setting)]), run.last.value.Value()]
  }

  function RunsText(runs: seq<Run>): seq<string> { if runs == [] then [] else RunText(runs[0]) + RunsText(runs[1..]) }

  /** A line: what to do, to what if that is asked for, and the options. */
  function ShortLine(verb: Verb, subject: string, runs: seq<Run>): seq<string>
    requires !verb.Version?
  {
    [VerbName(verb)] + ((if verb.Init? || verb.NewPost? then [subject] else []) + RunsText(runs))
  }

  // ------------------------------------------------------------- what they ask for

  function SwitchMeans(s: Switch, f: Flags): Flags {
    match s
    case Drafts => Flags(true, f.future, f.force, f.verbose, f.counters, f.debug)
    case Future => Flags(f.drafts, true, f.force, f.verbose, f.counters, f.debug)
    case Force => Flags(f.drafts, f.future, true, f.verbose, f.counters, f.debug)
    case Verbose => Flags(f.drafts, f.future, f.force, true, f.counters, f.debug)
    case Counters => Flags(f.drafts, f.future, f.force, f.verbose, true, f.debug)
    case Debug => Flags(f.drafts, f.future, f.force, f.verbose, f.counters, Some(true))
    case NoDebug => Flags(f.drafts, f.future, f.force, f.verbose, f.counters, Some(false))
  }

  function SwitchesMean(switches: seq<Switch>, f: Flags): Flags
    decreases switches
  {
    if switches == [] then f else SwitchesMean(switches[1..], SwitchMeans(switches[0], f))
  }

  function ChoiceMeans(c: Choice, g: Given): Given
    requires c.WellFormed()
  {
    match c.setting
    case Src => Given(c.text, g.output, g.section, g.framework, g.jobs, g.port)
    case Out => Given(g.content, Some(c.text), g.section, g.framework, g.jobs, g.port)
    case Section => Given(g.content, g.output, Some(c.text), g.framework, g.jobs, g.port)
    case Framework => Given(g.content, g.output, g.section, c.text, g.jobs, g.port)
    case Jobs => Given(g.content, g.output, g.section, g.framework, Some(c.n), g.port)
    case Port => Given(g.content, g.output, g.section, g.framework, g.jobs, c.n)
  }

  function RunMeans(run: Run, c: Command): Command
    requires run.WellFormed()
  {
    Command(c.verb, c.subject, if run.last.None? then c.given else ChoiceMeans(run.last.value, c.given),
            SwitchesMean(run.switches, c.flags))
  }

  ghost predicate AllWellFormed(runs: seq<Run>) { forall r | r in runs :: r.WellFormed() }

  /** The options in order, a later one standing against an earlier. */
  function RunsMean(runs: seq<Run>, c: Command): Command
    requires forall r | r in runs :: r.WellFormed()
    decreases runs
  {
    if runs == [] then c else assert runs[0] in runs; RunsMean(runs[1..], RunMeans(runs[0], c))
  }

  /** A command with nothing said but what to do and to what. */
  function Plain(verb: Verb, subject: string): Command {
    Command(verb, subject, Given("content", None, None, "none", None, 3000), Flags(false, false, false, false, false, None))
  }

  // ------------------------------------------------------------- letters

  function SwitchName(s: Switch): string {
    match s
    case Drafts => "drafts"
    case Future => "future"
    case Force => "force"
    case Debug => "debug"
    case NoDebug => "no-debug"
    case Counters => "counters"
    case Verbose => "verbose"
  }

  function SettingName(s: Setting): string {
    match s
    case Src => "src"
    case Out => "out"
    case Section => "section"
    case Framework => "framework"
    case Jobs => "jobs"
    case Port => "port"
  }

  lemma {:induction false} ShortAt(letter: char, i: nat, k: nat)
    requires i <= k < |SHORT_OPTIONS| && SHORT_OPTIONS[k].letter == letter
    requires forall j | i <= j < k :: SHORT_OPTIONS[j].letter != letter
    ensures ShortFrom(letter, i) == Some(SHORT_OPTIONS[k])
    decreases k - i
  {
    if i < k { ShortAt(letter, i + 1, k); }
  }

  lemma SwitchKnown(s: Switch)
    ensures ShortOptionFor(SwitchLetter(s)) == Some(Short(SwitchLetter(s), SwitchName(s), false))
    ensures SwitchOf(SwitchName(s)) == Some(s) && SettingOf(SwitchName(s)).None?
  {
    var k := match s case Drafts => 6 case Future => 7 case Force => 8 case Debug => 9 case NoDebug => 10
                     case Counters => 11 case Verbose => 12;
    ShortAt(SwitchLetter(s), 0, k);
  }

  lemma SettingKnown(s: Setting)
    ensures ShortOptionFor(SettingLetter(s)) == Some(Short(SettingLetter(s), SettingName(s), true))
    ensures SettingOf(SettingName(s)) == Some(s)
  {
    var k := match s case Src => 0 case Out => 1 case Section => 2 case Framework => 3 case Jobs => 4 case Port => 5;
    ShortAt(SettingLetter(s), 0, k);
  }

  function SwitchNames(switches: seq<Switch>): seq<string> {
    if switches == [] then [] else [SwitchName(switches[0])] + SwitchNames(switches[1..])
  }

  lemma {:induction false} LettersResolved(switches: seq<Switch>, last: Option<Setting>)
    ensures ResolveRun(Letters(switches) + if last.None? then "" else [SettingLetter(last.value)])
         == Good(SwitchNames(switches) + if last.None? then [] else [SettingName(last.value)])
    decreases switches
  {
    hide ShortOptionFor, SwitchLetter, SettingLetter, SwitchName, SettingName, SwitchOf, SettingOf;
    var end := if last.None? then "" else [SettingLetter(last.value)];
    var letters := Letters(switches) + end;
    if switches == [] {
      assert letters == end;
      var names := if last.None? then [] else [SettingName(last.value)];
      assert SwitchNames(switches) + names == names;
      NoLetters();
      if last.Some? { LastResolved(last.value); }
    } else {
      SwitchKnown(switches[0]);
      assert letters[1..] == Letters(switches[1..]) + end && letters[0] == SwitchLetter(switches[0]);
      LettersResolved(switches[1..], last);
      var names := if last.None? then [] else [SettingName(last.value)];
      assert [SwitchName(switches[0])] + (SwitchNames(switches[1..]) + names) == SwitchNames(switches) + names;
    }
  }

  lemma NoLetters()
    ensures ResolveRun("") == Good([])
  {
  }

  lemma LastResolved(s: Setting)
    ensures ResolveRun([SettingLetter(s)]) == Good([SettingName(s)])
  {
    hide ShortOptionFor;
    SettingKnown(s);
    NoLetters();
    assert [SettingLetter(s)][1..] == "" && [SettingName(s)] + [] == [SettingName(s)];
  }

  lemma {:induction false} SwitchesSet(switches: seq<Switch>, names: seq<string>, r: Reading)
    ensures SetOptions(SwitchNames(switches) + names, r)
         == SetOptions(names, r.(command := r.command.(flags := SwitchesMean(switches, r.command.flags))))
    decreases switches
  {
    hide SwitchName, SwitchOf, SettingOf;
    var all := SwitchNames(switches) + names;
    if switches == [] {
      assert all == names;
    } else {
      SwitchKnown(switches[0]);
      assert all[0] == SwitchName(switches[0]) && all[1..] == SwitchNames(switches[1..]) + names;
      var next := r.(command := r.command.(flags := SwitchMeans(switches[0], r.command.flags)));
      assert SetOption(all[0], r) == Good(next);
      SwitchesSet(switches[1..], names, next);
    }
  }

  lemma ChoiceSet(c: Choice, r: Reading, after: seq<string>)
    requires c.WellFormed() && r.rest == [c.Value()] + after
    ensures SetOptions([SettingName(c.setting)], r)
         == Good(Reading(r.command.(given := ChoiceMeans(c, r.command.given)), r.hasSubject, after))
  {
    SettingKnown(c.setting);
    hide SettingName, SettingOf, ToNumber, IntegerText;
    if c.Count? { NumberReadsBack(c.n); }
    OneOption(SettingName(c.setting), r);
    assert r.rest[1..] == after;
  }

  lemma {:induction false} LettersThere(switches: seq<Switch>)
    ensures |Letters(switches)| == |switches| && forall c | c in Letters(switches) :: c in "dFfDNcv"
    decreases switches
  {
    if switches != [] { LettersThere(switches[1..]); }
  }

  lemma RunShape(run: Run)
    requires run.WellFormed()
    ensures IsRun(RunText(run)[0])
  {
    LettersThere(run.switches);
    hide Letters;
    var text := RunText(run)[0];
    if run.switches != [] { assert text[1] == Letters(run.switches)[0] && text[1] in Letters(run.switches); }
  }

  lemma RunRead(run: Run, r: Reading, after: seq<string>)
    requires run.WellFormed() && r.rest == RunText(run) + after
    ensures ReadOne(r) == Good(Reading(RunMeans(run, r.command), r.hasSubject, after))
  {
    hide ResolveRun, SetOptions, Letters, SwitchNames, SettingName, SettingLetter, IsRun, SwitchesMean, ChoiceMeans, IntegerText;
    RunShape(run);
    var argument, last := r.rest[0], if run.last.None? then None else Some(run.last.value.setting);
    LettersResolved(run.switches, last);
    ReadOneCases(r);
    var behind := if run.last.None? then after else [run.last.value.Value()] + after;
    assert r.rest[1..] == behind;
    var end := if last.None? then "" else [SettingLetter(last.value)];
    assert argument[1..] == Letters(run.switches) + end;
    var names := if last.None? then [] else [SettingName(last.value)];
    var next := r.(rest := behind);
    SwitchesSet(run.switches, names, next);
    var set_ := next.(command := r.command.(flags := SwitchesMean(run.switches, r.command.flags)));
    if run.last.Some? { ChoiceSet(run.last.value, set_, after); } else { NoOptions(set_); }
  }

  lemma NoOptions(r: Reading)
    ensures SetOptions([], r) == Good(r)
  {
  }

  lemma {:induction false} RunsRead(runs: seq<Run>, r: Reading)
    requires AllWellFormed(runs) && r.rest == RunsText(runs)
    ensures ReadAll(r) == Good(Reading(RunsMean(runs, r.command), r.hasSubject, []))
    decreases runs
  {
    hide ReadOne, RunText, RunMeans;
    if runs != [] {
      assert runs[0] in runs && forall s | s in runs[1..] :: s in runs;
      SomeText(runs[0]);
      RunRead(runs[0], r, RunsText(runs[1..]));
      RunsRead(runs[1..], Reading(RunMeans(runs[0], r.command), r.hasSubject, RunsText(runs[1..])));
    }
  }

  lemma SomeText(run: Run)
    ensures RunText(run) != []
  {
  }

  ghost predicate AsksVersion(line: seq<string>) { "--version" in line || "-V" in line }

  lemma VersionAsked(line: seq<string>)
    ensures (exists a | a in line :: IsVersionFlag(a)) <==> AsksVersion(line)
  {
    if "--version" in line { assert IsVersionFlag("--version"); }
    if "-V" in line { assert IsVersionFlag("-V"); }
  }

  /** A line in short form is read as the command its letters ask for, whatever the runs and
      in whatever order; unless some argument asks for the version. */
  lemma ShortLineReadsBack(verb: Verb, subject: string, runs: seq<Run>)
    requires !verb.Version? && AllWellFormed(runs)
    requires if verb.Init? || verb.NewPost? then !("-" <= subject && subject != "-") else subject == ""
    ensures var line := ShortLine(verb, subject, runs);
            ParseCommand(line) ==
              if AsksVersion(line) then Good(Plain(Version, ""))
              else Good(RunsMean(runs, Plain(verb, subject)))
  {
    var line := ShortLine(verb, subject, runs);
    VersionAsked(line);
    hide ReadAll, RunsText, RunsMean, IsVersionFlag, VerbName;
    VerbKnown(verb);
    if verb.Init? || verb.NewPost? {
      assert line[1..] == [subject] + RunsText(runs);
      SubjectFirst(verb, subject, RunsText(runs));
    } else {
      assert line[1..] == [] + RunsText(runs) == RunsText(runs);
    }
    OptionsAfter(verb, subject, runs);
  }

  lemma VerbKnown(verb: Verb)
    requires !verb.Version?
    ensures VerbOf(VerbName(verb)) == Some(verb)
  {
  }

  /** The options, once what they are about is known. */
  lemma OptionsAfter(verb: Verb, subject: string, runs: seq<Run>)
    requires AllWellFormed(runs)
    ensures var takes := verb.Init? || verb.NewPost?;
            var read_ := ReadAll(Reading(Plain(verb, subject), takes, RunsText(runs)));
            && read_ == Good(Reading(RunsMean(runs, Plain(verb, subject)), takes, []))
            && Complete(read_.value) == Good(RunsMean(runs, Plain(verb, subject)))
  {
    hide ReadAll, RunsText, RunsMean;
    RunsRead(runs, Reading(Plain(verb, subject), verb.Init? || verb.NewPost?, RunsText(runs)));
    RunsKeep(runs, Plain(verb, subject));
  }

  lemma SubjectFirst(verb: Verb, subject: string, rest: seq<string>)
    requires verb.Init? || verb.NewPost?
    requires !("-" <= subject && subject != "-")
    ensures ReadAll(Reading(Fresh(verb), false, [subject] + rest)) == ReadAll(Reading(Plain(verb, subject), true, rest))
  {
    hide ReadOne;
    var r := Reading(Fresh(verb), false, [subject] + rest);
    assert r.rest[1..] == rest;
    NoOption(subject);
    ReadOneCases(r);
  }

  lemma NoOption(subject: string)
    requires !("-" <= subject && subject != "-")
    ensures !IsOption(subject)
  {
    Dashes(subject);
  }

  lemma Dashes(s: string)
    ensures "-" <= s <==> s != "" && s[0] == '-'
    ensures "--" <= s ==> |s| > 1 && s[0] == '-'
  {
  }

  lemma {:induction false} RunsKeep(runs: seq<Run>, c: Command)
    requires AllWellFormed(runs)
    ensures RunsMean(runs, c).verb == c.verb && RunsMean(runs, c).subject == c.subject
    decreases runs
  {
    if runs != [] {
      assert runs[0] in runs && forall s | s in runs[1..] :: s in runs;
      RunsKeep(runs[1..], RunMeans(runs[0], c));
    }
  }

  // ------------------------------------------------------------- what is refused

  const VERBS := ["build", "init", "new", "serve", "clean"]

  /** A line needs a command, and one that there is; a page to be made needs a title, and a
      place to begin in is where one is, when it is left out. */
  lemma CommandsExactly(line: seq<string>)
    ensures line == [] ==> ParseCommand(line) == Bad(NoCommand)
    ensures line != [] && !AsksVersion(line) ==> (ParseCommand(line) == Bad(UnknownCommand) <==> line[0] !in VERBS)
    ensures ParseCommand(["new"]) == Bad(WantsSubject) && ParseCommand(["init"]) == Good(Plain(Init, "."))
  {
    hide ReadAll;
    VersionAsked(line);
    VersionAsked(["new"]);
    VersionAsked(["init"]);
    hide IsVersionFlag;
    if line != [] && !AsksVersion(line) && line[0] in VERBS {
      NeverUnknown(Reading(Fresh(VerbOf(line[0]).value), false, line[1..]));
    }
    Ended("new");
    Ended("init");
  }

  lemma Ended(name: string)
    requires VerbOf(name).Some?
    ensures var r := Reading(Fresh(VerbOf(name).value), false, [name][1..]); ReadAll(r) == Good(r)
  {
    assert [name][1..] == [];
  }

  /** No mistake further on is taken for an unknown command. */
  lemma {:induction false} NeverUnknown(r: Reading)
    ensures ReadAll(r) != Bad(UnknownCommand)
    decreases |r.rest|
  {
    hide ReadOne;
    if r.rest != [] {
      OneNeverUnknown(r);
      if ReadOne(r).Good? { NeverUnknown(ReadOne(r).value); }
    }
  }

  lemma OneNeverUnknown(r: Reading)
    requires r.rest != []
    ensures ReadOne(r) != Bad(UnknownCommand)
  {
    hide SetOptions, ResolveRun, IsOption;
    ReadOneCases(r);
    var argument, after := r.rest[0], r.(rest := r.rest[1..]);
    if IsRun(argument) {
      RunNeverUnknown(argument[1..]);
      if ResolveRun(argument[1..]).Good? { OptionsNeverUnknown(ResolveRun(argument[1..]).value, after); }
    } else if |argument| >= 2 {
      OptionsNeverUnknown([argument[2..]], after);
    }
  }

  lemma {:induction false} RunNeverUnknown(letters: string)
    ensures ResolveRun(letters) != Bad(UnknownCommand)
  {
    hide ShortOptionFor;
    if letters != "" { RunNeverUnknown(letters[1..]); }
  }

  lemma {:induction false} OptionsNeverUnknown(names: seq<string>, r: Reading)
    ensures SetOptions(names, r) != Bad(UnknownCommand)
    decreases names
  {
    hide SwitchOf, SettingOf, ToNumber;
    if names != [] {
      assert ToNumber(if r.rest == [] then "" else r.rest[0]) != Bad(UnknownCommand) by {
        NumberMistake(if r.rest == [] then "" else r.rest[0]);
      }
      var next := SetOption(names[0], r);
      if next.Good? { OptionsNeverUnknown(names[1..], next.value); }
    }
  }

  lemma NumberMistake(value: string)
    ensures ToNumber(value).Good? || ToNumber(value) == Bad(NotANumber)
  {
  }

  /** A number is an optional minus and digits, all of the text, and within 32 bits. */
  lemma NumbersExactly(value: string, n: int)
    ensures value == "" || value == "-" ==> ToNumber(value) == Bad(NotANumber)
    ensures (exists i | 0 <= i < |value| :: value[i] !in "0123456789" && !(i == 0 && value[0] == '-')) ==>
              ToNumber(value) == Bad(NotANumber)
    ensures ToNumber(IntegerText(n)) == if -0x8000_0000 <= n <= 0x7fff_ffff then Good(n) else Bad(NotANumber)
  {
    hide DigitsValue, NaturalText;
    if exists i | 0 <= i < |value| :: value[i] !in "0123456789" && !(i == 0 && value[0] == '-') {
      var i :| 0 <= i < |value| && value[i] !in "0123456789" && !(i == 0 && value[0] == '-');
      var digits := if "-" <= value then value[1..] else value;
      assert "-" <= value ==> value[0] == '-';
      assert value[i] == digits[if "-" <= value then i - 1 else i] && value[i] in digits && !IsDigit(value[i]);
    }
    if -0x8000_0000 <= n <= 0x7fff_ffff { NumberReadsBack(n); } else { OutOfRange(n); }
  }

  lemma OutOfRange(n: int)
    requires !IsInt(n)
    ensures ToNumber(IntegerText(n)) == Bad(NotANumber)
  {
    hide NaturalText, DigitsValue, AllDigits;
    var text := IntegerText(n);
    if n < 0 {
      NaturalDigits(-n);
      assert text[0] == '-' && text[1..] == NaturalText(-n);
    } else {
      NaturalDigits(n);
      FirstDigit(text);
      assert text[0] != '-';
    }
  }

  const SWITCH_LETTERS := "dFfDNcv"
  const SETTING_LETTERS := "soSwjp"

  lemma {:induction false} NoShort(letter: char, i: nat)
    requires i <= |SHORT_OPTIONS| && forall j | i <= j < |SHORT_OPTIONS| :: SHORT_OPTIONS[j].letter != letter
    ensures ShortFrom(letter, i).None?
    decreases |SHORT_OPTIONS| - i
  {
    if i < |SHORT_OPTIONS| { NoShort(letter, i + 1); }
  }

  /** A run goes wrong at its first letter that is none, or that takes a value and is not the
      last; otherwise nothing is wrong with it. */
  lemma LettersExactly(switches: seq<Switch>, letter: char, more: string)
    ensures letter !in SWITCH_LETTERS && letter !in SETTING_LETTERS ==>
              ResolveRun(Letters(switches) + ([letter] + more)) == Bad(UnknownOption)
    ensures letter in SETTING_LETTERS && more != "" ==>
              ResolveRun(Letters(switches) + ([letter] + more)) == Bad(ValueNotLast)
  {
    hide ResolveRun;
    if letter !in SWITCH_LETTERS && letter !in SETTING_LETTERS {
      NoShort(letter, 0);
      FirstLetter(letter, more);
      LettersPassed(switches, [letter] + more);
    }
    if letter in SETTING_LETTERS && more != "" {
      SettingOfLetter(letter);
      FirstLetter(letter, more);
      LettersPassed(switches, [letter] + more);
    }
  }

  lemma SettingOfLetter(letter: char)
    requires letter in SETTING_LETTERS
    ensures ShortOptionFor(letter).Some? && ShortOptionFor(letter).value.takesValue
  {
    var s := if letter == 's' then Src else if letter == 'o' then Out else if letter == 'S' then Section
             else if letter == 'w' then Framework else if letter == 'j' then Jobs else Port;
    SettingKnown(s);
    hide ShortOptionFor;
    assert letter == SettingLetter(s);
  }

  lemma FirstLetter(letter: char, more: string)
    ensures ShortOptionFor(letter).None? ==> ResolveRun([letter] + more) == Bad(UnknownOption)
    ensures ShortOptionFor(letter).Some? && ShortOptionFor(letter).value.takesValue && more != "" ==>
              ResolveRun([letter] + more) == Bad(ValueNotLast)
  {
    hide ShortOptionFor;
  }

  lemma {:induction false} LettersPassed(switches: seq<Switch>, rest: string)
    requires ResolveRun(rest).Bad?
    ensures ResolveRun(Letters(switches) + rest) == ResolveRun(rest)
    decreases switches
  {
    hide ShortOptionFor, SwitchLetter, SwitchName;
    var letters := Letters(switches) + rest;
    if switches == [] {
      assert letters == rest;
    } else {
      SwitchKnown(switches[0]);
      assert letters[1..] == Letters(switches[1..]) + rest && letters[0] == SwitchLetter(switches[0]);
      LettersPassed(switches[1..], rest);
    }
  }

  const LONG_OPTIONS := ["src", "out", "section", "framework", "jobs", "port", "drafts", "future", "force", "verbose",
                         "counters", "debug", "no-debug"]

  /** What is wrong with an argument, when all before it was right: a second subject, or one
      where none is taken; a name that is no option; an option without its value, or with one
      that is no number where it has to be. */
  lemma ArgumentsRefused(r: Reading, argument: string, name: string)
    requires r.rest != [] && r.rest[0] == argument
    ensures argument == "" || argument == "-" || argument[0] != '-' ==>
              ReadOne(r) ==
                if !(r.command.verb.Init? || r.command.verb.NewPost?) then Bad(TakesNoArguments)
                else if r.hasSubject then Bad(OneSubject)
                else Good(Reading(r.command.(subject := argument), true, r.rest[1..]))
    ensures argument == "--" + name ==>
              && (name !in LONG_OPTIONS ==> ReadOne(r) == Bad(UnknownOption))
              && (name in ["src", "out", "section", "framework", "jobs", "port"] && |r.rest| == 1 ==> ReadOne(r) == Bad(WantsValue))
              && (name in ["jobs", "port"] && |r.rest| > 1 && ToNumber(r.rest[1]).Bad? ==> ReadOne(r) == Bad(NotANumber))
  {
    hide ToNumber;
    if argument == "--" + name {
      assert r.rest == ["--" + name] + r.rest[1..];
      ReadLong(name, r, r.rest[1..]);
      if |r.rest| > 1 { NumberMistake(r.rest[1]); }
    } else if argument == "" || argument == "-" || argument[0] != '-' {
      NoOption(argument);
      ReadOneCases(r);
    }
  }
}
