/** What a template may read, and the recording of what it did read
    (src/blogin/view_context.cpp). */
module ViewContexts {
  import opened Strings
  import opened Values
  import opened JsonText

  datatype Given = Given(name: string, value: Value)

  /** What a page offers its layout: values, functions, and the conversions between
      numbers and text that the C++ library provides, one of them for JSON. */
  datatype View = View(
    values: map<string, Value>,
    functions: map<string, seq<Given> -> Value>,
    toNumber: string -> real,
    numberText: real -> string,
    jsonNumber: real -> string)

  type Locals = map<string, Value>

  /** What a context is asked to do while a template renders. A fragment that a cache is
      asked for opens with the locals in scope there, and is read for over the next `length`
      events, whether it is rendered or found. Writing the text that a layout wraps, and
      finding the template a name stands for, are asked of the page and not of the context:
      no recording hears of them. */
  datatype Event =
    | Read(name: string, value: Value, local: bool)
    | Bind(names: set<string>)
    | Keep(names: set<string>)
    | Open(scope: set<string>, length: nat)
    | WriteBody
    | Find(partial: string)

  /** An event that no recording hears of. */
  predicate Idle(e: Event) { e.Open? || e.WriteBody? || e.Find? }

  /** A read that this page and these locals answer, by the local or by the view value. */
  predicate Owned(e: Event, values: map<string, Value>, locals: Locals) {
    && e.Read?
    && e.local == (e.name in locals)
    && if e.local then locals[e.name] == e.value else e.name in values && values[e.name] == e.value
  }

  predicate Owns(events: seq<Event>, values: map<string, Value>, locals: Locals) {
    forall e | e in events :: Owned(e, values, locals)
  }

  datatype Seen = Seen(name: string, value: Value)

  /** Reads as part of a key: each the name and its value's JSON. */
  function KeyText(seen: seq<Seen>, number: real -> string): string {
    if seen == [] then "" else ReadText(seen[0], number) + KeyText(seen[1..], number)
  }

  function ReadText(read: Seen, number: real -> string): string {
    read.name + "=" + Json(read.value, number) + ";"
  }

  /** What one open fragment has read so far, each name with the first value it had. Values
      are compared by their JSON, and `number` writes the numbers in it. */
  datatype Recording = Recording(seen: seq<Seen>, bound: set<string>, replayable: bool, number: real -> string)
  {
    function Key(): string { KeyText(seen, number) }
  }

  function Fresh(number: real -> string): Recording { Recording([], {}, true, number) }

  /** The index of `name` among the reads, or their number when it is not there. */
  function IndexOf(seen: seq<Seen>, name: string): (i: nat)
    ensures i <= |seen| && (i < |seen| ==> seen[i].name == name)
  {
    if seen == [] || seen[0].name == name then 0 else 1 + IndexOf(seen[1..], name)
  }

  function Step(r: Recording, e: Event): Recording {
    match e
    case Read(name, value, _) =>
      if name in r.bound then r
      else
        var i := IndexOf(r.seen, name);
        if i == |r.seen| then r.(seen := r.seen + [Seen(name, value)])
        else if Json(r.seen[i].value, r.number) != Json(value, r.number) then r.(replayable := false)
        else r
    case Bind(names) => r.(bound := r.bound + names)
    case Keep(names) => r.(bound := r.bound * names)
    case _ => r
  }

  function Fold(r: Recording, events: seq<Event>): Recording
    decreases |events|
  {
    if events == [] then r else Fold(Step(r, events[0]), events[1..])
  }

  function FoldAll(recordings: seq<Recording>, events: seq<Event>): seq<Recording> {
    seq(|recordings|, i requires 0 <= i < |recordings| => Fold(recordings[i], events))
  }

  lemma {:induction false} FoldConcat(r: Recording, a: seq<Event>, b: seq<Event>)
    ensures Fold(r, a + b) == Fold(Fold(r, a), b)
    decreases |a|
  {
    if a == [] {
      assert a + b == b;
    } else {
      assert (a + b)[1..] == a[1..] + b;
      FoldConcat(Step(r, a[0]), a[1..], b);
    }
  }

  lemma FoldAllConcat(recordings: seq<Recording>, a: seq<Event>, b: seq<Event>)
    ensures FoldAll(recordings, a + b) == FoldAll(FoldAll(recordings, a), b)
  {
    forall i | 0 <= i < |recordings| ensures FoldAll(recordings, a + b)[i] == FoldAll(FoldAll(recordings, a), b)[i] {
      FoldConcat(recordings[i], a, b);
    }
  }

  lemma FoldAllNothing(recordings: seq<Recording>)
    ensures FoldAll(recordings, []) == recordings
  {
  }

  function Names(seen: seq<Seen>): seq<string> {
    seq(|seen|, i requires 0 <= i < |seen| => seen[i].name)
  }

  /** A name as `replay` resolves it: a local first, then a view value. */
  predicate Resolves(name: string, values: map<string, Value>, locals: Locals) {
    name in locals || name in values
  }

  function Resolve(name: string, values: map<string, Value>, locals: Locals): Value
    requires Resolves(name, values, locals)
  {
    if name in locals then locals[name] else values[name]
  }

  datatype Replayed = Replayed(key: Option<seq<Seen>>, events: seq<Event>)

  /** The reads those names make against this page, up to the first that is not in scope. */
  function ReplayOf(names: seq<string>, values: map<string, Value>, locals: Locals): (r: Replayed)
    ensures Owns(r.events, values, locals)
  {
    if names == [] then Replayed(Some([]), [])
    else if !Resolves(names[0], values, locals) then Replayed(None, [])
    else
      var value := Resolve(names[0], values, locals);
      var rest := ReplayOf(names[1..], values, locals);
      Replayed(
        if rest.key.None? then None else Some([Seen(names[0], value)] + rest.key.value),
        [Read(names[0], value, names[0] in locals)] + rest.events)
  }

  /** The key those reads come to, when every name is in scope. */
  function KeyOf(r: Replayed, number: real -> string): Option<string> {
    if r.key.None? then None else Some(KeyText(r.key.value, number))
  }

  /** The whole replay is `rest`, behind reads that are `text` in the key. */
  ghost predicate ReplayAfter(text: string, done: seq<Event>, rest: Replayed, whole: Replayed, number: real -> string) {
    && whole.events == done + rest.events
    && KeyOf(whole, number) == if rest.key.None? then None else Some(text + KeyText(rest.key.value, number))
  }

  lemma ReplayAfterNothing(whole: Replayed, number: real -> string)
    ensures ReplayAfter("", [], whole, whole, number)
  {
    hide KeyText;
    assert [] + whole.events == whole.events;
    if whole.key.Some? { assert "" + KeyText(whole.key.value, number) == KeyText(whole.key.value, number); }
  }

  lemma ReplayStep(text: string, done: seq<Event>, names: seq<string>, whole: Replayed, view: View, locals: Locals)
    requires names != [] && ReplayAfter(text, done, ReplayOf(names, view.values, locals), whole, view.jsonNumber)
    ensures if !Resolves(names[0], view.values, locals) then
              KeyOf(whole, view.jsonNumber) == None && whole.events == done
            else
              var value := Resolve(names[0], view.values, locals);
              ReplayAfter(text + ReadText(Seen(names[0], value), view.jsonNumber), done + [Read(names[0], value, names[0] in locals)],
                          ReplayOf(names[1..], view.values, locals), whole, view.jsonNumber)
  {
    hide Resolve, Resolves, ReadText;
    if Resolves(names[0], view.values, locals) {
      var value, rest := Resolve(names[0], view.values, locals), ReplayOf(names[1..], view.values, locals);
      var read := Read(names[0], value, names[0] in locals);
      assert done + ([read] + rest.events) == (done + [read]) + rest.events;
      if rest.key.Some? {
        var first := Seen(names[0], value);
        assert ([first] + rest.key.value)[1..] == rest.key.value;
        var a, b := ReadText(first, view.jsonNumber), KeyText(rest.key.value, view.jsonNumber);
        assert text + (a + b) == (text + a) + b;
      }
    }
  }

  lemma ReplayEnd(text: string, done: seq<Event>, whole: Replayed, view: View, locals: Locals)
    requires ReplayAfter(text, done, ReplayOf([], view.values, locals), whole, view.jsonNumber)
    ensures KeyOf(whole, view.jsonNumber) == Some(text) && whole.events == done
  {
    assert text + "" == text && done + [] == done;
  }

  class ViewContext {
    const view: View
    var locals: Locals
    var recordings: seq<Recording>
    var readNames: seq<string>
    var replayable: bool

    constructor (view: View)
      ensures this.view == view && locals == map[] && recordings == [] && readNames == [] && replayable
    {
      this.view := view;
      locals := map[];
      recordings := [];
      readNames := [];
      replayable := true;
    }

    /** Every open recording takes the event. */
    method Note(e: Event)
      modifies this`recordings
      ensures recordings == FoldAll(old(recordings), [e])
    {
      var i := 0;
      var noted := [];
      while i < |recordings|
        invariant 0 <= i <= |recordings| && |noted| == i
        invariant forall j | 0 <= j < i :: noted[j] == Fold(recordings[j], [e])
      {
        assert Fold(recordings[i], [e]) == Fold(Step(recordings[i], e), []);
        noted := noted + [Step(recordings[i], e)];
        i := i + 1;
      }
      recordings := noted;
    }

    method SetLocal(name: string, value: Value)
      modifies this`locals, this`recordings
      ensures locals == old(locals)[name := value]
      ensures recordings == FoldAll(old(recordings), [Bind({name})])
    {
      Note(Bind({name}));
      locals := locals[name := value];
    }

    method SetLocals(members: map<string, Value>)
      modifies this`locals, this`recordings
      ensures locals == old(locals) + members
      ensures recordings == FoldAll(old(recordings), [Bind(members.Keys)])
    {
      Note(Bind(members.Keys));
      locals := locals + members;
    }

    method Lookup(name: string) returns (found: Option<Value>)
      modifies this`recordings
      ensures found == if name in view.values then Some(view.values[name]) else None
      ensures recordings == if found.None? then old(recordings)
                            else FoldAll(old(recordings), [Read(name, found.value, false)])
    {
      if name !in view.values { return None; }
      Note(Read(name, view.values[name], false));
      return Some(view.values[name]);
    }

    method LookupLocal(name: string) returns (found: Option<Value>)
      modifies this`recordings
      ensures found == if name in locals then Some(locals[name]) else None
      ensures recordings == if found.None? then old(recordings)
                            else FoldAll(old(recordings), [Read(name, found.value, true)])
    {
      if name !in locals { return None; }
      Note(Read(name, locals[name], true));
      return Some(locals[name]);
    }

    method BeginRecording()
      modifies this`recordings
      ensures recordings == old(recordings) + [Fresh(view.jsonNumber)]
    {
      recordings := recordings + [Fresh(view.jsonNumber)];
    }

    method EndRecording() returns (key: string)
      modifies this`recordings, this`readNames, this`replayable
      ensures old(recordings) == [] ==>
                key == "" && recordings == [] && readNames == old(readNames) && replayable == old(replayable)
      ensures old(recordings) != [] ==>
                var finished := old(recordings)[|old(recordings)| - 1];
                && recordings == old(recordings)[..|old(recordings)| - 1]
                && key == finished.Key() && readNames == Names(finished.seen) && replayable == finished.replayable
    {
      if recordings == [] { return ""; }
      var finished := recordings[|recordings| - 1];
      recordings := recordings[..|recordings| - 1];
      readNames := [];
      key := "";
      var i := 0;
      while i < |finished.seen|
        invariant 0 <= i <= |finished.seen| && readNames == Names(finished.seen[..i])
        invariant key + KeyText(finished.seen[i..], finished.number) == finished.Key()
        invariant recordings == old(recordings)[..|old(recordings)| - 1] && replayable == old(replayable)
      {
        var read := finished.seen[i];
        assert finished.seen[i..][0] == read && finished.seen[i..][1..] == finished.seen[i + 1..];
        assert Names(finished.seen[..i + 1]) == Names(finished.seen[..i]) + [read.name];
        readNames := readNames + [read.name];
        key := key + ReadText(read, finished.number);
        i := i + 1;
      }
      assert finished.seen[..i] == finished.seen;
      replayable := finished.replayable;
    }

    /** The value `replay` takes a name for. */
    method ResolveName(name: string) returns (found: Option<Value>)
      modifies this`recordings
      ensures found == if Resolves(name, view.values, locals) then Some(Resolve(name, view.values, locals)) else None
      ensures recordings == if found.None? then old(recordings)
                            else FoldAll(old(recordings), [Read(name, found.value, name in locals)])
    {
      found := LookupLocal(name);
      if found.None? { found := Lookup(name); }
    }

    method Replay(names: seq<string>) returns (key: Option<string>)
      modifies this`recordings
      ensures var r := ReplayOf(names, view.values, locals);
              key == KeyOf(r, view.jsonNumber) && recordings == FoldAll(old(recordings), r.events)
    {
      hide Resolve, Resolves, Json, FoldAll, ReplayOf;
      var text := "";
      ghost var done: seq<Event> := [];
      ghost var whole := ReplayOf(names, view.values, locals);
      var i := 0;
      FoldAllNothing(recordings);
      ReplayAfterNothing(whole, view.jsonNumber);
      assert names[0..] == names;
      while i < |names|
        invariant 0 <= i <= |names|
        invariant recordings == FoldAll(old(recordings), done)
        invariant ReplayAfter(text, done, ReplayOf(names[i..], view.values, locals), whole, view.jsonNumber)
      {
        assert names[i..][0] == names[i] && names[i..][1..] == names[i + 1..];
        ReplayStep(text, done, names[i..], whole, view, locals);
        var found := ResolveName(names[i]);
        if found.None? { return None; }
        FoldAllConcat(old(recordings), done, [Read(names[i], found.value, names[i] in locals)]);
        done := done + [Read(names[i], found.value, names[i] in locals)];
        text := text + ReadText(Seen(names[i], found.value), view.jsonNumber);
        i := i + 1;
      }
      assert names[i..] == [];
      ReplayEnd(text, done, whole, view, locals);
      return Some(text);
    }

    method TakeLocals() returns (taken: Locals)
      modifies this`locals, this`recordings
      ensures taken == old(locals) && locals == map[]
      ensures recordings == FoldAll(old(recordings), [Keep({})])
    {
      taken := locals;
      locals := map[];
      Note(Keep({}));
    }

    method RestoreLocals(saved: Locals)
      modifies this`locals, this`recordings
      ensures locals == saved
      ensures recordings == FoldAll(old(recordings), [Keep(saved.Keys)])
    {
      locals := saved;
      Note(Keep(saved.Keys));
    }
  }
}
