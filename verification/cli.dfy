/** Reading a command line (src/blogin/cli.cpp): short options run together, values, and a
    subject that may stand anywhere among the options. */
module Cli {
  import opened Strings
  import opened Values

  datatype Verb = Build | Version | Init | NewPost | Serve | Clean

  /** What the options with values say, and what the switches say. */
  datatype Given = Given(
    content: string, output: Option<string>, section: Option<string>, framework: string, jobs: Option<int>, port: int)

  datatype Flags = Flags(drafts: bool, future: bool, force: bool, verbose: bool, counters: bool, debug: Option<bool>)

  datatype Command = Command(verb: Verb, subject: string, given: Given, flags: Flags)

  const DEFAULTS := Given("content", None, None, "none", None, 3000)

  const NO_FLAGS := Flags(false, false, false, false, false, None)

  function Fresh(verb: Verb): Command { Command(verb, "", DEFAULTS, NO_FLAGS) }

  datatype Mistake =
    | NoCommand | UnknownCommand | UnknownOption | ValueNotLast | TakesNoArguments | OneSubject
    | WantsValue | NotANumber | WantsSubject

  datatype Outcome<+T> = Good(value: T) | Bad(mistake: Mistake)

  function VerbOf(name: string): Option<Verb> {
    match name
    case "build" => Some(Build)
    case "init" => Some(Init)
    case "new" => Some(NewPost)
    case "serve" => Some(Serve)
    case "clean" => Some(Clean)
    case _ => None
  }

  predicate TakesSubject(verb: Verb) { verb.Init? || verb.NewPost? }

  datatype Short = Short(letter: char, name: string, takesValue: bool)

  const SHORT_OPTIONS := [
    Short('s', "src", true), Short('o', "out", true), Short('S', "section", true), Short('w', "framework", true),
    Short('j', "jobs", true), Short('p', "port", true), Short('d', "drafts", false), Short('F', "future", false),
    Short('f', "force", false), Short('D', "debug", false), Short('N', "no-debug", false),
    Short('c', "counters", false), Short('v', "verbose", false)
  ]

  function ShortFrom(letter: char, i: nat): Option<Short>
    requires i <= |SHORT_OPTIONS|
    decreases |SHORT_OPTIONS| - i
  {
    if i == |SHORT_OPTIONS| then None
    else if SHORT_OPTIONS[i].letter == letter then Some(SHORT_OPTIONS[i])
    else ShortFrom(letter, i + 1)
  }

  function ShortOptionFor(letter: char): Option<Short> { ShortFrom(letter, 0) }

  /** The options that take a value, and those that do not. */
  datatype Setting = Src | Out | Section | Framework | Jobs | Port
  datatype Switch = Drafts | Future | Force | Verbose | Counters | Debug | NoDebug

  function SettingOf(name: string): Option<Setting> {
    match name
    case "src" => Some(Src)
    case "out" => Some(Out)
    case "section" => Some(Section)
    case "framework" => Some(Framework)
    case "jobs" => Some(Jobs)
    case "port" => Some(Port)
    case _ => None
  }

  function SwitchOf(name: string): Option<Switch> {
    match name
    case "drafts" => Some(Drafts)
    case "future" => Some(Future)
    case "force" => Some(Force)
    case "verbose" => Some(Verbose)
    case "counters" => Some(Counters)
    case "debug" => Some(Debug)
    case "no-debug" => Some(NoDebug)
    case _ => None
  }

  predicate TakesValue(name: string) { SettingOf(name).Some? }

  // ------------------------------------------------------------- one argument

  /** The names a run of letters stands for; one that takes a value has to come last. */
  function ResolveRun(letters: string): Outcome<seq<string>> {
    if letters == "" then Good([])
    else
      var option := ShortOptionFor(letters[0]);
      if option.None? then Bad(UnknownOption)
      else if option.value.takesValue && |letters| != 1 then Bad(ValueNotLast)
      else
        match ResolveRun(letters[1..])
        case Bad(mistake) => Bad(mistake)
        case Good(names) => Good([option.value.name] + names)
  }

  predicate IsRun(argument: string) { |argument| > 1 && argument[0] == '-' && argument[1] != '-' }

  predicate IsLong(argument: string) { "--" <= argument }

  /** The options an argument names; an argument that is not an option is a subject. */
  function Resolve(argument: string): Outcome<seq<string>>
    requires IsRun(argument) || IsLong(argument)
  {
    if IsRun(argument) then ResolveRun(argument[1..]) else Good([argument[2..]])
  }

  function DigitOf(c: char): nat { if IsDigit(c) then c as int - '0' as int else 0 }

  function DigitsValue(s: string): nat {
    if s == "" then 0 else 10 * DigitsValue(s[..|s| - 1]) + DigitOf(s[|s| - 1])
  }

  predicate AllDigits(s: string) { forall c | c in s :: IsDigit(c) }

  predicate IsInt(n: int) { -0x8000_0000 <= n <= 0x7fff_ffff }

  /** A decimal number that a 32-bit integer holds, all of the text or none of it. */
  function ToNumber(value: string): Outcome<int> {
    var negative := "-" <= value;
    var digits := if negative then value[1..] else value;
    if digits == "" || !AllDigits(digits) then Bad(NotANumber)
    else
      var number: int := if negative then 0 - DigitsValue(digits) else DigitsValue(digits);
      if IsInt(number) then Good(number) else Bad(NotANumber)
  }

  // ------------------------------------------------------------- the whole line

  /** A command so far, whether it has its subject, and the arguments still to be read. */
  datatype Reading = Reading(command: Command, hasSubject: bool, rest: seq<string>)

  /** An option that takes no value. */
  function Switched(name: string, command: Command): Outcome<Command> {
    var switch := SwitchOf(name);
    if switch.None? then Bad(UnknownOption) else Good(command.(flags := TurnOn(switch.value, command.flags)))
  }

  function TurnOn(switch: Switch, flags: Flags): Flags {
    match switch
    case Drafts => flags.(drafts := true)
    case Future => flags.(future := true)
    case Force => flags.(force := true)
    case Verbose => flags.(verbose := true)
    case Counters => flags.(counters := true)
    case Debug => flags.(debug := Some(true))
    case NoDebug => flags.(debug := Some(false))
  }

  /** An option with the value that follows it. */
  function Valued(name: string, value: string, command: Command): Outcome<Command>
    requires TakesValue(name)
  {
    match Put(SettingOf(name).value, value, command.given)
    case Bad(mistake) => Bad(mistake)
    case Good(given) => Good(command.(given := given))
  }

  function Put(setting: Setting, value: string, given: Given): Outcome<Given> {
    match setting
    case Src => Good(given.(content := value))
    case Out => Good(given.(output := Some(value)))
    case Section => Good(given.(section := Some(value)))
    case Framework => Good(given.(framework := value))
    case Jobs =>
      var number := ToNumber(value);
      if number.Bad? then Bad(number.mistake) else Good(given.(jobs := Some(number.value)))
    case Port =>
      var number := ToNumber(value);
      if number.Bad? then Bad(number.mistake) else Good(given.(port := number.value))
  }

  function SetOption(name: string, r: Reading): (next: Outcome<Reading>)
    ensures next.Good? ==> |next.value.rest| <= |r.rest|
  {
    if TakesValue(name) then
      if r.rest == [] then Bad(WantsValue)
      else
        match Valued(name, r.rest[0], r.command)
        case Bad(mistake) => Bad(mistake)
        case Good(command) => Good(r.(command := command, rest := r.rest[1..]))
    else
      match Switched(name, r.command)
      case Bad(mistake) => Bad(mistake)
      case Good(command) => Good(r.(command := command))
  }

  function SetOptions(names: seq<string>, r: Reading): (next: Outcome<Reading>)
    ensures next.Good? ==> |next.value.rest| <= |r.rest|
    decreases names
  {
    if names == [] then Good(r)
    else
      match SetOption(names[0], r)
      case Bad(mistake) => Bad(mistake)
      case Good(next) => SetOptions(names[1..], next)
  }

  function TakeSubject(argument: string, r: Reading): Outcome<Reading> {
    if !TakesSubject(r.command.verb) then Bad(TakesNoArguments)
    else if r.hasSubject then Bad(OneSubject)
    else Good(r.(command := r.command.(subject := argument), hasSubject := true))
  }

  /** The first argument and whatever value it takes. */
  function ReadOne(r: Reading): (next: Outcome<Reading>)
    requires r.rest != []
    ensures next.Good? ==> |next.value.rest| < |r.rest|
  {
    var argument, after := r.rest[0], r.(rest := r.rest[1..]);
    if !IsRun(argument) && !IsLong(argument) then TakeSubject(argument, after)
    else
      match Resolve(argument)
      case Bad(mistake) => Bad(mistake)
      case Good(names) => SetOptions(names, after)
  }

  function ReadAll(r: Reading): Outcome<Reading>
    decreases |r.rest|
  {
    if r.rest == [] then Good(r)
    else
      match ReadOne(r)
      case Bad(mistake) => Bad(mistake)
      case Good(next) => ReadAll(next)
  }

  /** A subject that was left out. */
  function Complete(r: Reading): Outcome<Command> {
    if TakesSubject(r.command.verb) && !r.hasSubject then
      if r.command.verb.Init? then Good(r.command.(subject := ".")) else Bad(WantsSubject)
    else Good(r.command)
  }

  predicate IsVersionFlag(argument: string) { argument == "--version" || argument == "-V" }

  function ParseCommand(arguments: seq<string>): Outcome<Command> {
    if arguments == [] then Bad(NoCommand)
    else if exists a | a in arguments :: IsVersionFlag(a) then Good(Fresh(Version))
    else
      var verb := VerbOf(arguments[0]);
      if verb.None? then Bad(UnknownCommand)
      else
        match ReadAll(Reading(Fresh(verb.value), false, arguments[1..]))
        case Bad(mistake) => Bad(mistake)
        case Good(r) => Complete(r)
  }

  // ------------------------------------------------------------- long options

  function LongNames(names: seq<string>): (r: seq<string>)
    ensures |r| == |names|
  {
    seq(|names|, i requires 0 <= i < |names| => "--" + names[i])
  }

  /** Whether options end in one that takes a value. */
  predicate EndsInValue(names: seq<string>) { names != [] && TakesValue(names[|names| - 1]) }

  /** The line with each run of letters written as long options, values left as they are. */
  function Expand(rest: seq<string>): seq<string>
    decreases |rest|
  {
    if rest == [] then []
    else if !IsRun(rest[0]) && !IsLong(rest[0]) then [rest[0]] + Expand(rest[1..])
    else
      match Resolve(rest[0])
      case Bad(_) => rest
      case Good(names) =>
        if EndsInValue(names) && |rest| > 1 then LongNames(names) + [rest[1]] + Expand(rest[2..])
        else LongNames(names) + Expand(rest[1..])
  }

  /** Options as a run resolves to them: only the last takes a value. */
  predicate Ordered(names: seq<string>) { forall i | 0 <= i < |names| - 1 :: !TakesValue(names[i]) }

  lemma {:induction false} ShortKinds(letter: char, i: nat)
    requires i <= |SHORT_OPTIONS| && ShortFrom(letter, i).Some?
    ensures var option := ShortFrom(letter, i).value; option.takesValue <==> TakesValue(option.name)
    decreases |SHORT_OPTIONS| - i
  {
    if SHORT_OPTIONS[i].letter != letter { ShortKinds(letter, i + 1); }
  }

  lemma {:induction false} RunOrdered(letters: string)
    requires ResolveRun(letters).Good?
    ensures Ordered(ResolveRun(letters).value) && |ResolveRun(letters).value| == |letters|
    decreases letters
  {
    hide ShortOptionFor, TakesValue;
    if letters != "" {
      RunOrdered(letters[1..]);
      LetterKind(letters[0]);
    }
  }

  lemma LetterKind(letter: char)
    requires ShortOptionFor(letter).Some?
    ensures var option := ShortOptionFor(letter).value; option.takesValue <==> TakesValue(option.name)
  {
    ShortKinds(letter, 0);
  }

  lemma ResolvedOrdered(argument: string)
    requires (IsRun(argument) || IsLong(argument)) && Resolve(argument).Good?
    ensures Ordered(Resolve(argument).value) && Resolve(argument).value != []
  {
    if IsRun(argument) { RunOrdered(argument[1..]); }
  }

  /** A long option is read as the option it names. */
  lemma ReadLong(name: string, r: Reading, after: seq<string>)
    requires r.rest == ["--" + name] + after
    ensures ReadOne(r) == SetOption(name, r.(rest := after))
  {
    hide SetOption;
    var argument := "--" + name;
    assert r.rest[1..] == after && argument[2..] == name && !IsRun(argument) && IsLong(argument);
    assert SetOptions([name], r.(rest := after)) == SetOption(name, r.(rest := after)) by { OneOption(name, r.(rest := after)); }
  }

  lemma OneOption(name: string, r: Reading)
    ensures SetOptions([name], r) == SetOption(name, r)
  {
    assert [name][1..] == [];
  }

  /** The same reading with other arguments still to come. */
  function With(next: Outcome<Reading>, rest: seq<string>): Outcome<Reading> {
    match next
    case Bad(mistake) => Bad(mistake)
    case Good(r) => Good(r.(rest := rest))
  }

  function ThenAll(next: Outcome<Reading>): Outcome<Reading> {
    match next
    case Bad(mistake) => Bad(mistake)
    case Good(r) => ReadAll(r)
  }

  /** Switches leave the arguments that follow them alone. */
  lemma SwitchRest(name: string, r: Reading, rest: seq<string>)
    requires !TakesValue(name)
    ensures SetOption(name, r.(rest := rest)) == With(SetOption(name, r), rest)
  {
    hide Switched;
  }

  lemma OrderedTail(names: seq<string>)
    requires Ordered(names) && names != []
    ensures Ordered(names[1..]) && (|names| > 1 ==> !TakesValue(names[0]) && EndsInValue(names[1..]) == EndsInValue(names))
    ensures LongNames(names) == ["--" + names[0]] + LongNames(names[1..])
  {
    hide TakesValue;
    forall i | 0 <= i < |names[1..]| - 1 ensures !TakesValue(names[1..][i]) { assert names[1..][i] == names[i + 1]; }
  }

  /** A run of options taken in before arguments it does not touch, or with its one value. */
  lemma {:induction false} OptionsRest(names: seq<string>, r: Reading, value: seq<string>, a: seq<string>, b: seq<string>)
    requires Ordered(names) && |value| == (if EndsInValue(names) then 1 else 0)
    ensures SetOptions(names, r.(rest := value + b)) == With(SetOptions(names, r.(rest := value + a)), b)
    ensures SetOptions(names, r.(rest := value + a)) == With(SetOptions(names, r.(rest := value + a)), a)
    decreases names
  {
    hide Switched, Valued, TakesValue;
    if names == [] {
      assert value + a == a && value + b == b;
    } else {
      OrderedTail(names);
      if |names| == 1 {
        OneOption(names[0], r.(rest := value + a));
        OneOption(names[0], r.(rest := value + b));
        assert names == [names[0]];
        if TakesValue(names[0]) {
          assert (value + a)[1..] == a && (value + b)[1..] == b;
        } else {
          assert value + a == a && value + b == b;
        }
      } else {
        SwitchRest(names[0], r.(rest := value + a), value + b);
        var next := SetOption(names[0], r.(rest := value + a));
        if next.Good? {
          SwitchRest(names[0], r.(rest := value + a), value + a);
          OptionsRest(names[1..], next.value, value, a, b);
          assert next.value.(rest := value + a) == next.value;
        }
      }
    }
  }

  /** Long options are read as the options they name, one after another. */
  lemma {:induction false} LongRead(names: seq<string>, r: Reading, tail: seq<string>)
    requires Ordered(names)
    ensures ReadAll(r.(rest := LongNames(names) + tail)) == ThenAll(SetOptions(names, r.(rest := tail)))
    decreases names
  {
    hide SetOption, ReadOne, TakesValue;
    var s := r.(rest := LongNames(names) + tail);
    if names == [] {
      assert LongNames(names) + tail == tail;
    } else {
      OrderedTail(names);
      var after := LongNames(names[1..]) + tail;
      assert s.rest == ["--" + names[0]] + after;
      ReadLong(names[0], s, after);
      if |names| == 1 {
        assert after == tail;
        OneOption(names[0], r.(rest := tail));
        assert names == [names[0]];
      } else {
        SwitchRest(names[0], r.(rest := tail), after);
        var next := SetOption(names[0], r.(rest := tail));
        SwitchRest(names[0], r.(rest := tail), tail);
        if next.Good? { LongRead(names[1..], next.value, tail); }
      }
    }
  }

  /** Reading a line in long form is reading it as it was written. */
  lemma {:induction false} ExpandReads(r: Reading)
    ensures ReadAll(r.(rest := Expand(r.rest))) == ReadAll(r)
    decreases |r.rest|
  {
    hide SetOptions, Resolve, TakesValue;
    if r.rest != [] {
      var first, after := r.rest[0], r.rest[1..];
      if !IsRun(first) && !IsLong(first) {
        var taken := TakeSubject(first, r.(rest := after));
        assert ([first] + Expand(after))[1..] == Expand(after);
        if taken.Good? { ExpandReads(taken.value); }
      } else if Resolve(first).Good? {
        ExpandOptions(r, Resolve(first).value);
      }
    }
  }

  lemma ExpandOptions(r: Reading, names: seq<string>)
    requires r.rest != [] && (IsRun(r.rest[0]) || IsLong(r.rest[0])) && Resolve(r.rest[0]) == Good(names)
    ensures ReadAll(r.(rest := Expand(r.rest))) == ReadAll(r)
    decreases |r.rest|, 0
  {
    hide SetOptions, Resolve, TakesValue;
    var after := r.rest[1..];
    ResolvedOrdered(r.rest[0]);
    if EndsInValue(names) && |r.rest| > 1 {
      var value, rest := [r.rest[1]], r.rest[2..];
      assert after == value + rest;
      LongRead(names, r, value + Expand(rest));
      assert LongNames(names) + value + Expand(rest) == LongNames(names) + (value + Expand(rest));
      OptionsRest(names, r, value, rest, Expand(rest));
      var next := SetOptions(names, r.(rest := after));
      if next.Good? { ExpandReads(next.value); }
    } else if EndsInValue(names) {
      assert after == [] && Expand(after) == [];
      LongRead(names, r, []);
    } else {
      LongRead(names, r, Expand(after));
      OptionsRest(names, r, [], after, Expand(after));
      assert [] + after == after && [] + Expand(after) == Expand(after);
      var next := SetOptions(names, r.(rest := after));
      if next.Good? { ExpandReads(next.value); }
    }
  }

  lemma {:induction false} ExpandVersion(rest: seq<string>)
    ensures (exists a | a in Expand(rest) :: IsVersionFlag(a)) <==> (exists a | a in rest :: IsVersionFlag(a))
    decreases |rest|
  {
    hide TakesValue, IsVersionFlag;
    if rest != [] {
      var first, after := rest[0], rest[1..];
      assert rest == [first] + after;
      if !IsRun(first) && !IsLong(first) {
        ExpandVersion(after);
      } else if Resolve(first).Good? {
        var names := Resolve(first).value;
        NamesVersion(first);
        if EndsInValue(names) && |rest| > 1 {
          ExpandVersion(rest[2..]);
          assert rest == [first] + [rest[1]] + rest[2..];
        } else {
          ExpandVersion(after);
        }
      }
    }
  }

  lemma NamesVersion(argument: string)
    requires (IsRun(argument) || IsLong(argument)) && Resolve(argument).Good?
    ensures (exists a | a in LongNames(Resolve(argument).value) :: IsVersionFlag(a)) <==> IsVersionFlag(argument)
  {
    var names := Resolve(argument).value;
    var long := LongNames(names);
    if IsRun(argument) {
      RunVersion(argument[1..]);
      forall a | a in long ensures !IsVersionFlag(a) {
        var i :| 0 <= i < |long| && long[i] == a;
        assert a[2..] == names[i] && names[i] in names && "--version"[2..] == "version" && a[1] == '-';
      }
    } else {
      assert long == ["--" + argument[2..]] && "--" + argument[2..] == argument;
      assert argument in long;
    }
  }

  lemma {:induction false} RunVersion(letters: string)
    requires ResolveRun(letters).Good?
    ensures letters != "V" && forall n | n in ResolveRun(letters).value :: n != "version"
    decreases letters
  {
    if letters != "" {
      RunVersion(letters[1..]);
      ShortVersion(letters[0], 0);
    }
  }

  lemma {:induction false} ShortVersion(letter: char, i: nat)
    requires i <= |SHORT_OPTIONS| && ShortFrom(letter, i).Some?
    ensures letter != 'V' && ShortFrom(letter, i).value.name != "version"
    decreases |SHORT_OPTIONS| - i
  {
    if SHORT_OPTIONS[i].letter != letter { ShortVersion(letter, i + 1); }
  }

  /** A command line means what it means with every run of letters written as long options. */
  lemma LongFormMeansTheSame(arguments: seq<string>)
    requires arguments != []
    ensures ParseCommand([arguments[0]] + Expand(arguments[1..])) == ParseCommand(arguments)
  {
    hide ReadAll, Expand, IsVersionFlag;
    var rest := arguments[1..];
    var long := [arguments[0]] + Expand(rest);
    assert arguments == [arguments[0]] + rest && long[1..] == Expand(rest);
    ExpandVersion(rest);
    var verb := VerbOf(arguments[0]);
    if verb.Some? { ExpandReads(Reading(Fresh(verb.value), false, rest)); }
  }

  // ------------------------------------------------------------- where the subject stands

  function WithSubject(r: Reading, subject: string): Reading {
    r.(command := r.command.(subject := subject), hasSubject := true)
  }

  function Subjected(next: Outcome<Reading>, subject: string): Outcome<Reading> {
    match next
    case Bad(mistake) => Bad(mistake)
    case Good(r) => Good(WithSubject(r, subject))
  }

  lemma SwitchedKeeps(name: string, c: Command, subject: string)
    ensures var on := Switched(name, c);
            Switched(name, c.(subject := subject)) == if on.Bad? then on else Good(on.value.(subject := subject))
    ensures Switched(name, c).Good? ==> Switched(name, c).value.verb == c.verb
  {
    hide SwitchOf, TurnOn;
  }

  lemma ValuedKeeps(name: string, value: string, c: Command, subject: string)
    requires TakesValue(name)
    ensures var on := Valued(name, value, c);
            Valued(name, value, c.(subject := subject)) == if on.Bad? then on else Good(on.value.(subject := subject))
    ensures Valued(name, value, c).Good? ==> Valued(name, value, c).value.verb == c.verb
  {
    hide Put, SettingOf;
  }

  /** Options neither look at the subject nor change it, and never change the verb. */
  lemma OptionKeepsSubject(name: string, r: Reading, subject: string)
    ensures SetOption(name, WithSubject(r, subject)) == Subjected(SetOption(name, r), subject)
    ensures SetOption(name, r).Good? ==>
              SetOption(name, r).value.hasSubject == r.hasSubject
              && SetOption(name, r).value.command.verb == r.command.verb
  {
    hide Switched, Valued, TakesValue;
    if TakesValue(name) {
      if r.rest != [] { ValuedKeeps(name, r.rest[0], r.command, subject); }
    } else {
      SwitchedKeeps(name, r.command, subject);
    }
  }

  lemma {:induction false} OptionsKeepSubject(names: seq<string>, r: Reading, subject: string)
    ensures SetOptions(names, WithSubject(r, subject)) == Subjected(SetOptions(names, r), subject)
    ensures SetOptions(names, r).Good? ==>
              SetOptions(names, r).value.hasSubject == r.hasSubject
              && SetOptions(names, r).value.command.verb == r.command.verb
    decreases names
  {
    hide SetOption, WithSubject;
    if names != [] {
      OptionKeepsSubject(names[0], r, subject);
      var next := SetOption(names[0], r);
      if next.Good? { OptionsKeepSubject(names[1..], next.value, subject); }
    }
  }

  predicate IsOption(argument: string) { IsRun(argument) || IsLong(argument) }

  /** An argument that is options, with the value that the last of them takes. */
  predicate IsGroup(group: seq<string>) {
    && group != [] && IsOption(group[0]) && Resolve(group[0]).Good?
    && |group| == (if EndsInValue(Resolve(group[0]).value) then 2 else 1)
  }

  lemma GroupReads(r: Reading, group: seq<string>, after: seq<string>)
    requires IsGroup(group) && r.rest == group + after
    ensures var names := Resolve(group[0]).value;
            && Ordered(names) && |group[1..]| == (if EndsInValue(names) then 1 else 0)
            && ReadOne(r) == SetOptions(names, r.(rest := group[1..] + after))
  {
    hide SetOptions, Resolve, EndsInValue;
    assert r.rest[1..] == group[1..] + after;
    ResolvedOrdered(group[0]);
  }

  /** The subject may stand on either side of options and their value: the same command
      comes of it, or none on either side. */
  lemma SubjectMoves(r: Reading, subject: string, group: seq<string>, after: seq<string>)
    requires IsGroup(group) && !IsOption(subject)
    ensures var before, behind := r.(rest := [subject] + group + after), r.(rest := group + [subject] + after);
            ReadAll(before) == ReadAll(behind) || (ReadAll(before).Bad? && ReadAll(behind).Bad?)
  {
    hide SetOptions, Resolve, EndsInValue, IsGroup, WithSubject, IsOption;
    var before, behind := r.(rest := [subject] + group + after), r.(rest := group + [subject] + after);
    OptionShape(subject);
    GroupThere(group);
    var names := Resolve(group[0]).value;
    assert [subject] + group + after == [subject] + (group + after);
    assert ([subject] + (group + after))[1..] == group + after;
    assert group + [subject] + after == group + ([subject] + after);
    GroupReads(behind, group, [subject] + after);
    var value := group[1..];
    OptionsRest(names, r, value, after, [subject] + after);
    var next := SetOptions(names, r.(rest := value + after));
    OptionsKeepSubject(names, r.(rest := value + after), subject);
    if TakesSubject(r.command.verb) && !r.hasSubject {
      var taken := WithSubject(r.(rest := group + after), subject);
      SubjectTaken(subject, r.(rest := group + after));
      GroupReads(taken, group, after);
      SubjectKeepsRest(r, subject, group + after, value + after);
      if next.Good? {
        assert ([subject] + after)[1..] == after;
        SubjectTaken(subject, next.value.(rest := after));
      }
    } else if next.Good? {
      assert ([subject] + after)[1..] == after;
    }
  }

  /** One argument that is no option, or options with the value the last of them takes. */
  predicate IsBlock(block: seq<string>) { IsGroup(block) || (|block| == 1 && !IsOption(block[0])) }

  function Flatten(blocks: seq<seq<string>>): seq<string> {
    if blocks == [] then [] else blocks[0] + Flatten(blocks[1..])
  }

  /** The same outcome, or none either way. */
  predicate Alike<T(==)>(a: Outcome<T>, b: Outcome<T>) { a == b || (a.Bad? && b.Bad?) }

  /** A block is read before either tail, to the same reading or to none. */
  lemma BlockRead(r: Reading, block: seq<string>, x: seq<string>, y: seq<string>)
    requires IsBlock(block)
    ensures var a, b := ReadOne(r.(rest := block + x)), ReadOne(r.(rest := block + y));
            if a.Bad? then b.Bad? else b.Good? && a.value.rest == x && b.value == a.value.(rest := y)
  {
    hide SetOptions, Resolve, EndsInValue, IsGroup, WithSubject, IsOption;
    var before, behind := r.(rest := block + x), r.(rest := block + y);
    if IsGroup(block) {
      GroupThere(block);
      GroupReads(before, block, x);
      GroupReads(behind, block, y);
      OptionsRest(Resolve(block[0]).value, r, block[1..], x, y);
    } else {
      OptionShape(block[0]);
      assert before.rest[1..] == x && behind.rest[1..] == y;
    }
  }

  lemma {:induction false} SubjectMovesAfter(r: Reading, blocks: seq<seq<string>>, subject: string, group: seq<string>,
                                             after: seq<string>)
    requires IsGroup(group) && !IsOption(subject) && forall b | b in blocks :: IsBlock(b)
    ensures Alike(ReadAll(r.(rest := Flatten(blocks) + ([subject] + group + after))),
                  ReadAll(r.(rest := Flatten(blocks) + (group + [subject] + after))))
    decreases blocks
  {
    hide IsGroup, IsBlock, ReadOne, IsOption;
    var x, y := [subject] + group + after, group + [subject] + after;
    if blocks == [] {
      assert Flatten(blocks) + x == x && Flatten(blocks) + y == y;
      SubjectMoves(r, subject, group, after);
    } else {
      var block, rest := blocks[0], Flatten(blocks[1..]);
      assert block in blocks && forall b | b in blocks[1..] :: b in blocks;
      assert Flatten(blocks) + x == block + (rest + x) && Flatten(blocks) + y == block + (rest + y);
      BlockThere(block);
      BlockRead(r, block, rest + x, rest + y);
      var next := ReadOne(r.(rest := block + (rest + x)));
      if next.Good? { SubjectMovesAfter(next.value, blocks[1..], subject, group, after); }
    }
  }

  lemma BlockThere(block: seq<string>)
    requires IsBlock(block)
    ensures block != []
  {
  }

  /** On a whole command line the subject may be moved past options and their value from
      wherever it stands, so long as what is before it is not an option still without its
      value. */
  lemma SubjectMovesOnLine(verb: string, blocks: seq<seq<string>>, subject: string, group: seq<string>, after: seq<string>)
    requires IsGroup(group) && !IsOption(subject) && forall b | b in blocks :: IsBlock(b)
    ensures Alike(ParseCommand([verb] + Flatten(blocks) + ([subject] + group + after)),
                  ParseCommand([verb] + Flatten(blocks) + (group + [subject] + after)))
  {
    hide IsGroup, IsBlock, ReadOne, IsOption, ReadAll, Complete, VerbOf, IsVersionFlag;
    var x, y := [subject] + group + after, group + [subject] + after;
    var before, behind := [verb] + Flatten(blocks) + x, [verb] + Flatten(blocks) + y;
    assert before[1..] == Flatten(blocks) + x && behind[1..] == Flatten(blocks) + y;
    assert forall a :: a in before <==> a in behind;
    var found := VerbOf(verb);
    if found.Some? { SubjectMovesAfter(Reading(Fresh(found.value), false, []), blocks, subject, group, after); }
  }

  lemma OptionShape(argument: string)
    requires !IsOption(argument)
    ensures !IsRun(argument) && !IsLong(argument)
  {
  }

  lemma GroupThere(group: seq<string>)
    requires IsGroup(group)
    ensures group != [] && (IsRun(group[0]) || IsLong(group[0])) && Resolve(group[0]).Good?
  {
  }

  lemma SubjectTaken(subject: string, r: Reading)
    requires TakesSubject(r.command.verb) && !r.hasSubject
    ensures TakeSubject(subject, r) == Good(WithSubject(r, subject))
  {
  }

  lemma SubjectKeepsRest(r: Reading, subject: string, a: seq<string>, b: seq<string>)
    ensures WithSubject(r.(rest := a), subject).(rest := b) == WithSubject(r.(rest := b), subject)
    ensures WithSubject(r.(rest := a), subject).rest == a
  {
  }

  // ------------------------------------------------------------- commands written out

  lemma {:induction false} NaturalDigits(n: nat)
    ensures AllDigits(NaturalText(n)) && NaturalText(n) != "" && DigitsValue(NaturalText(n)) == n
    decreases n
  {
    hide AllDigits, DigitsValue;
    var front := if n < 10 then "" else NaturalText(n / 10);
    var last := ('0' as int + n % 10) as char;
    if n >= 10 { NaturalDigits(n / 10); } else { NoDigits(); }
    assert NaturalText(n) == front + [last];
    LastDigit(front, last);
  }

  lemma NoDigits()
    ensures AllDigits("") && DigitsValue("") == 0
  {
  }

  lemma LastDigit(front: string, last: char)
    requires AllDigits(front) && IsDigit(last)
    ensures AllDigits(front + [last]) && DigitsValue(front + [last]) == 10 * DigitsValue(front) + DigitOf(last)
  {
    var s := front + [last];
    assert s[..|s| - 1] == front && s[|s| - 1] == last;
  }

  lemma NumberReadsBack(n: int)
    requires IsInt(n)
    ensures ToNumber(IntegerText(n)) == Good(n)
  {
    hide NaturalText, DigitsValue, AllDigits;
    var text := IntegerText(n);
    if n < 0 {
      NaturalDigits(-n);
      assert text[0] == '-' && text[1..] == NaturalText(-n);
    } else {
      NaturalDigits(n);
      FirstDigit(text);
      assert text[0] != '-';
    }
  }

  lemma FirstDigit(s: string)
    requires AllDigits(s) && s != ""
    ensures IsDigit(s[0])
  {
    assert s[0] in s;
  }

  function VerbName(verb: Verb): string
    requires !verb.Version?
  {
    match verb
    case Build => "build"
    case Init => "init"
    case NewPost => "new"
    case Serve => "serve"
    case Clean => "clean"
  }

  function TextOption(name: string, value: Option<string>): seq<string> {
    if value.None? then [] else ["--" + name, value.value]
  }

  function SwitchOption(name: string, on: bool): seq<string> { if on then ["--" + name] else [] }

  function JobsText(given: Given): Option<string> {
    if given.jobs.None? then None else Some(IntegerText(given.jobs.value))
  }

  function GivenLine(given: Given): seq<string> {
    TextOption("src", Some(given.content))
      + (TextOption("out", given.output)
      + (TextOption("section", given.section)
      + (TextOption("framework", Some(given.framework))
      + (TextOption("jobs", JobsText(given))
      + TextOption("port", Some(IntegerText(given.port)))))))
  }

  function DebugLine(debug: Option<bool>): seq<string> {
    if debug.None? then [] else SwitchOption(if debug.value then "debug" else "no-debug", true)
  }

  function FlagsLine(flags: Flags): seq<string> {
    SwitchOption("drafts", flags.drafts)
      + (SwitchOption("future", flags.future)
      + (SwitchOption("force", flags.force)
      + (SwitchOption("verbose", flags.verbose)
      + (SwitchOption("counters", flags.counters)
      + DebugLine(flags.debug)))))
  }

  /** The options of a command, all in long form. */
  function Options(c: Command): seq<string> { GivenLine(c.given) + FlagsLine(c.flags) }

  function Line(c: Command): seq<string>
    requires !c.verb.Version?
  {
    [VerbName(c.verb)] + ((if TakesSubject(c.verb) then [c.subject] else []) + Options(c))
  }

  /** A command that could have been asked for in long form. */
  predicate Askable(c: Command) {
    && !c.verb.Version?
    && (c.given.jobs.Some? ==> IsInt(c.given.jobs.value)) && IsInt(c.given.port)
    && (if TakesSubject(c.verb) then !IsOption(c.subject) else c.subject == "")
  }

  lemma TextRead(name: string, value: Option<string>, r: Reading, after: seq<string>)
    requires TakesValue(name)
    ensures ReadAll(r.(rest := TextOption(name, value) + after)) ==
              if value.None? then ReadAll(r.(rest := after))
              else
                match Valued(name, value.value, r.command)
                case Bad(mistake) => Bad(mistake)
                case Good(command) => ReadAll(Reading(command, r.hasSubject, after))
  {
    hide Valued, ReadOne, TakesValue;
    if value.None? {
      assert TextOption(name, value) + after == after;
    } else {
      var s := r.(rest := TextOption(name, value) + after);
      assert s.rest == ["--" + name] + ([value.value] + after);
      ReadLong(name, s, [value.value] + after);
      assert ([value.value] + after)[1..] == after;
    }
  }

  lemma SwitchRead(name: string, on: bool, r: Reading, after: seq<string>)
    requires Switched(name, r.command).Good? && !TakesValue(name)
    ensures ReadAll(r.(rest := SwitchOption(name, on) + after))
         == ReadAll(Reading(if on then Switched(name, r.command).value else r.command, r.hasSubject, after))
  {
    hide Switched, ReadOne, TakesValue;
    if on {
      var s := r.(rest := SwitchOption(name, on) + after);
      ReadLong(name, s, after);
    } else {
      assert SwitchOption(name, on) + after == after;
    }
  }

  lemma OptionNames()
    ensures SwitchOf("drafts") == Some(Drafts) && SwitchOf("future") == Some(Future) && SwitchOf("force") == Some(Force)
    ensures SwitchOf("verbose") == Some(Verbose) && SwitchOf("counters") == Some(Counters)
    ensures SwitchOf("debug") == Some(Debug) && SwitchOf("no-debug") == Some(NoDebug)
    ensures !TakesValue("drafts") && !TakesValue("future") && !TakesValue("force") && !TakesValue("verbose")
    ensures !TakesValue("counters") && !TakesValue("debug") && !TakesValue("no-debug")
    ensures SettingOf("src") == Some(Src) && SettingOf("out") == Some(Out) && SettingOf("section") == Some(Section)
    ensures SettingOf("framework") == Some(Framework) && SettingOf("jobs") == Some(Jobs) && SettingOf("port") == Some(Port)
  {
  }

  lemma DebugRead(c: Command, debug: Option<bool>, hasSubject: bool)
    requires c.flags.debug.None?
    ensures ReadAll(Reading(c, hasSubject, DebugLine(debug)))
         == Good(Reading(c.(flags := c.flags.(debug := debug)), hasSubject, []))
  {
    hide SwitchOf, SettingOf, TakesValue;
    OptionNames();
    if debug.Some? {
      var name := if debug.value then "debug" else "no-debug";
      SwitchRead(name, true, Reading(c, hasSubject, []), []);
      assert SwitchOption(name, true) + [] == SwitchOption(name, true);
    }
  }

  lemma FlagsRead(c: Command, flags: Flags, hasSubject: bool)
    requires c.flags == NO_FLAGS
    ensures ReadAll(Reading(c, hasSubject, FlagsLine(flags))) == Good(Reading(c.(flags := flags), hasSubject, []))
  {
    hide ReadAll, SwitchOption, DebugLine, SwitchOf, SettingOf, TakesValue;
    OptionNames();
    var t6 := DebugLine(flags.debug);
    var t5 := SwitchOption("counters", flags.counters) + t6;
    var t4 := SwitchOption("verbose", flags.verbose) + t5;
    var t3 := SwitchOption("force", flags.force) + t4;
    var t2 := SwitchOption("future", flags.future) + t3;
    var f1 := NO_FLAGS.(drafts := flags.drafts);
    var f2 := f1.(future := flags.future);
    var f3 := f2.(force := flags.force);
    var f4 := f3.(verbose := flags.verbose);
    var f5 := f4.(counters := flags.counters);
    SwitchRead("drafts", flags.drafts, Reading(c, hasSubject, []), t2);
    SwitchRead("future", flags.future, Reading(c.(flags := f1), hasSubject, []), t3);
    SwitchRead("force", flags.force, Reading(c.(flags := f2), hasSubject, []), t4);
    SwitchRead("verbose", flags.verbose, Reading(c.(flags := f3), hasSubject, []), t5);
    SwitchRead("counters", flags.counters, Reading(c.(flags := f4), hasSubject, []), t6);
    DebugRead(c.(flags := f5), flags.debug, hasSubject);
  }

  lemma GivenRead(c: Command, given: Given, hasSubject: bool, after: seq<string>)
    requires c.given == DEFAULTS && IsInt(given.port) && (given.jobs.Some? ==> IsInt(given.jobs.value))
    ensures ReadAll(Reading(c, hasSubject, GivenLine(given) + after)) == ReadAll(Reading(c.(given := given), hasSubject, after))
  {
    hide ReadAll, TextOption, ToNumber, IntegerText, SettingOf;
    OptionNames();
    if given.jobs.Some? { NumberReadsBack(given.jobs.value); }
    NumberReadsBack(given.port);
    var t6 := TextOption("port", Some(IntegerText(given.port))) + after;
    var t5 := TextOption("jobs", JobsText(given)) + t6;
    var t4 := TextOption("framework", Some(given.framework)) + t5;
    var t3 := TextOption("section", given.section) + t4;
    var t2 := TextOption("out", given.output) + t3;
    GivenLines(given, after, TextOption("src", Some(given.content)) + t2);
    var g1 := DEFAULTS.(content := given.content);
    var g2 := g1.(output := given.output);
    var g3 := g2.(section := given.section);
    var g4 := g3.(framework := given.framework);
    var g5 := g4.(jobs := given.jobs);
    TextRead("src", Some(given.content), Reading(c, hasSubject, []), t2);
    TextRead("out", given.output, Reading(c.(given := g1), hasSubject, []), t3);
    TextRead("section", given.section, Reading(c.(given := g2), hasSubject, []), t4);
    TextRead("framework", Some(given.framework), Reading(c.(given := g3), hasSubject, []), t5);
    TextRead("jobs", JobsText(given), Reading(c.(given := g4), hasSubject, []), t6);
    TextRead("port", Some(IntegerText(given.port)), Reading(c.(given := g5), hasSubject, []), after);
  }

  lemma GivenLines(given: Given, after: seq<string>, line: seq<string>)
    requires line == TextOption("src", Some(given.content)) + (TextOption("out", given.output)
                       + (TextOption("section", given.section) + (TextOption("framework", Some(given.framework))
                       + (TextOption("jobs", JobsText(given)) + (TextOption("port", Some(IntegerText(given.port))) + after)))))
    ensures GivenLine(given) + after == line
  {
    hide TextOption, JobsText, IntegerText;
  }

  lemma OptionsRead(c: Command, hasSubject: bool)
    requires Askable(c)
    ensures ReadAll(Reading(Fresh(c.verb).(subject := c.subject), hasSubject, Options(c))) == Good(Reading(c, hasSubject, []))
  {
    hide ReadAll, GivenLine, FlagsLine, IsOption;
    var start := Fresh(c.verb).(subject := c.subject);
    GivenRead(start, c.given, hasSubject, FlagsLine(c.flags));
    FlagsRead(start.(given := c.given), c.flags, hasSubject);
  }

  /** A command written out in long form is read back, unless some argument asks for the
      version. */
  lemma LineReadsBack(c: Command)
    requires Askable(c)
    ensures var line := Line(c);
            ParseCommand(line) == if exists a | a in line :: IsVersionFlag(a) then Good(Fresh(Version)) else Good(c)
  {
    hide ReadAll, Options, IsVersionFlag, IsOption;
    OptionsRead(c, TakesSubject(c.verb));
    var line := Line(c);
    assert VerbOf(VerbName(c.verb)) == Some(c.verb);
    if TakesSubject(c.verb) {
      SubjectRead(c);
      assert line[1..] == [c.subject] + Options(c);
    } else {
      assert line[1..] == [] + Options(c) == Options(c);
    }
  }

  lemma SubjectRead(c: Command)
    requires TakesSubject(c.verb) && !IsOption(c.subject)
    ensures ReadAll(Reading(Fresh(c.verb), false, [c.subject] + Options(c)))
         == ReadAll(Reading(Fresh(c.verb).(subject := c.subject), true, Options(c)))
  {
    hide Options;
    assert ([c.subject] + Options(c))[1..] == Options(c);
  }

  // ------------------------------------------------------------- the reader itself

  method ResolveLetters(argument: string) returns (r: Outcome<seq<string>>)
    requires IsRun(argument)
    ensures r == ResolveRun(argument[1..])
  {
    hide ShortOptionFor;
    var letters := argument[1..];
    var resolved: seq<string> := [];
    assert letters[0..] == letters;
    assert ResolveRun(letters).Good? ==> [] + ResolveRun(letters).value == ResolveRun(letters).value;
    for position := 0 to |letters|
      invariant var rest := ResolveRun(letters[position..]);
                ResolveRun(letters) == if rest.Bad? then rest else Good(resolved + rest.value)
    {
      assert letters[position..][0] == letters[position] && letters[position..][1..] == letters[position + 1..];
      var option := ShortOptionFor(letters[position]);
      if option.None? { return Bad(UnknownOption); }
      if option.value.takesValue && position + 1 != |letters| { return Bad(ValueNotLast); }
      ghost var rest := ResolveRun(letters[position + 1..]);
      assert rest.Good? ==>
               resolved + ([option.value.name] + rest.value) == (resolved + [option.value.name]) + rest.value;
      resolved := resolved + [option.value.name];
    }
    assert letters[|letters|..] == "" && resolved + [] == resolved;
    return Good(resolved);
  }

  method Parse(arguments: seq<string>) returns (r: Outcome<Command>)
    ensures r == ParseCommand(arguments)
  {
    hide SetOption, Resolve, ReadOne, ShortOptionFor, Switched, Valued, TakesValue;
    if arguments == [] { return Bad(NoCommand); }
    for i := 0 to |arguments|
      invariant forall j | 0 <= j < i :: !IsVersionFlag(arguments[j])
    {
      if IsVersionFlag(arguments[i]) { return Good(Fresh(Version)); }
    }
    var verb := VerbOf(arguments[0]);
    if verb.None? { return Bad(UnknownCommand); }
    var command := Fresh(verb.value);
    var hasSubject := false;
    var index := 1;
    ghost var start := Reading(command, false, arguments[1..]);
    while index < |arguments|
      invariant 1 <= index <= |arguments|
      invariant ReadAll(Reading(command, hasSubject, arguments[index..])) == ReadAll(start)
      decreases |arguments| - index
    {
      var argument := arguments[index];
      ghost var here := Reading(command, hasSubject, arguments[index..]);
      assert here.rest[0] == argument && here.rest[1..] == arguments[index + 1..];
      ReadOneCases(here);
      index := index + 1;
      var resolved: seq<string> := [];
      if IsRun(argument) {
        var run := ResolveLetters(argument);
        if run.Bad? { return Bad(run.mistake); }
        resolved := run.value;
      } else if !IsLong(argument) {
        if !TakesSubject(command.verb) { return Bad(TakesNoArguments); }
        if hasSubject { return Bad(OneSubject); }
        command := command.(subject := argument);
        hasSubject := true;
        continue;
      } else {
        resolved := [argument[2..]];
      }
      ghost var options := SetOptions(resolved, Reading(command, hasSubject, arguments[index..]));
      assert resolved[0..] == resolved;
      for k := 0 to |resolved|
        invariant 1 <= index <= |arguments|
        invariant options == SetOptions(resolved[k..], Reading(command, hasSubject, arguments[index..]))
      {
        var flag := resolved[k];
        assert resolved[k..][0] == flag && resolved[k..][1..] == resolved[k + 1..];
        SetOptionCases(flag, Reading(command, hasSubject, arguments[index..]));
        if TakesValue(flag) {
          if index >= |arguments| { return Bad(WantsValue); }
          assert arguments[index..][0] == arguments[index] && arguments[index..][1..] == arguments[index + 1..];
          var set_ := Valued(flag, arguments[index], command);
          if set_.Bad? { return Bad(set_.mistake); }
          command := set_.value;
          index := index + 1;
        } else {
          var set_ := Switched(flag, command);
          if set_.Bad? { return Bad(set_.mistake); }
          command := set_.value;
        }
      }
    }
    assert arguments[index..] == [];
    if TakesSubject(command.verb) && !hasSubject {
      if !command.verb.Init? { return Bad(WantsSubject); }
      command := command.(subject := ".");
    }
    return Good(command);
  }

  lemma ReadOneCases(r: Reading)
    requires r.rest != []
    ensures var argument, after := r.rest[0], r.(rest := r.rest[1..]);
            ReadOne(r) ==
              if !IsOption(argument) then TakeSubject(argument, after)
              else if IsRun(argument) then
                (match ResolveRun(argument[1..]) case Bad(mistake) => Bad(mistake) case Good(names) => SetOptions(names, after))
              else SetOptions([argument[2..]], after)
    ensures ReadAll(r) == ThenAll(ReadOne(r))
  {
    hide SetOption;
  }

  lemma SetOptionCases(name: string, r: Reading)
    ensures SetOption(name, r) ==
              if TakesValue(name) then
                if r.rest == [] then Bad(WantsValue)
                else
                  (match Valued(name, r.rest[0], r.command)
                   case Bad(mistake) => Bad(mistake)
                   case Good(command) => Good(r.(command := command, rest := r.rest[1..])))
              else
                (match Switched(name, r.command)
                 case Bad(mistake) => Bad(mistake)
                 case Good(command) => Good(r.(command := command)))
  {
    hide Valued, Switched;
  }
}
