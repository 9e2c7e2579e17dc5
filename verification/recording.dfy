/** What a recording keeps of the events it saw. */
module RecordingLemmas {
  import opened Strings
  import opened Values
  import opened JsonText
  import opened ViewContexts
  import opened Scopes

  /** No name is recorded twice. */
  ghost predicate Distinct(seen: seq<Seen>) {
    forall i, j | 0 <= i < |seen| && 0 <= j < |seen| && seen[i].name == seen[j].name :: i == j
  }

  ghost predicate Has(seen: seq<Seen>, name: string, value: Value) { Seen(name, value) in seen }

  /** What a recording holds to be bound by the fragment itself. */
  function Mask(bound: set<string>, e: Event): set<string> {
    match e
    case Bind(names) => bound + names
    case Keep(names) => bound * names
    case _ => bound
  }

  /** A read that can be told from the key it is written in. No name of an expression has
      an equals sign in it. */
  ghost predicate Legible(name: string, value: Value) { '=' !in name && Whole(value) }

  /** A read that is recorded is legible, and is not of a local named like a view value. */
  ghost predicate Clear(e: Event, bound: set<string>, viewNames: set<string>) {
    e.Read? && e.name !in bound ==> Legible(e.name, e.value) && (e.local ==> e.name !in viewNames)
  }

  /** Every read is clear, or of a name that the recording knows the fragment bound. */
  ghost predicate Sheltered(bound: set<string>, events: seq<Event>, viewNames: set<string>)
    decreases |events|
  {
    events == [] || (Clear(events[0], bound, viewNames) && Sheltered(Mask(bound, events[0]), events[1..], viewNames))
  }

  /** Reads that the scope answers, and what no recording hears of. */
  ghost predicate Answered(events: seq<Event>, values: map<string, Value>, locals: Locals) {
    forall e | e in events :: Idle(e) || Owned(e, values, locals)
  }

  lemma {:induction false} IndexFinds(seen: seq<Seen>, name: string)
    ensures IndexOf(seen, name) == |seen| <==> forall i | 0 <= i < |seen| :: seen[i].name != name
  {
    if seen != [] && seen[0].name != name {
      IndexFinds(seen[1..], name);
      assert forall i | 1 <= i < |seen| :: seen[i] == seen[1..][i - 1];
    }
  }

  /** What one event makes of a recording: nothing is lost or repeated, a binding is masked
      only while it is in force, and view values are recorded as the page has them. */
  lemma StepKeeps(r: Recording, e: Event, inForce: set<string>, values: map<string, Value>, viewNames: set<string>)
    requires Holds(r, inForce, values, viewNames) && FitsScope(e, inForce, values) && values.Keys <= viewNames
    requires Clear(e, r.bound, viewNames)
    ensures var s := Step(r, e);
            && Holds(s, InForce(inForce, e), values, viewNames) && s.bound == Mask(r.bound, e) && r.seen <= s.seen
            && (e.Read? && e.name !in r.bound ==> exists x :: x in s.seen && x.name == e.name)
  {
    hide Json, Whole;
    if e.Read? && e.name !in r.bound {
      IndexFinds(r.seen, e.name);
      var i := IndexOf(r.seen, e.name);
      var s := Step(r, e);
      assert s.seen[i] in s.seen && s.seen[i].name == e.name;
      assert forall x | x in s.seen :: x in r.seen || x == Seen(e.name, e.value);
    }
  }

  /** A recording, with these locals in force. */
  ghost predicate Holds(r: Recording, inForce: set<string>, values: map<string, Value>, viewNames: set<string>) {
    && Distinct(r.seen) && r.bound <= inForce && (forall x | x in r.seen :: Legible(x.name, x.value))
    && forall x | x in r.seen && x.name in viewNames :: x.name in values && values[x.name] == x.value
  }

  lemma {:induction false} FoldKeeps(r: Recording, events: seq<Event>, inForce: set<string>, values: map<string, Value>,
                                     viewNames: set<string>)
    requires Holds(r, inForce, values, viewNames) && Scoped(events, inForce, values) && Sheltered(r.bound, events, viewNames)
    requires values.Keys <= viewNames
    ensures var s := Fold(r, events);
            && Holds(s, InForceAfter(inForce, events), values, viewNames) && r.seen <= s.seen
            && (forall e | e in events && e.Read? && !e.local :: exists x :: x in s.seen && x.name == e.name)
    decreases |events|
  {
    hide Holds, FitsScope, InForce, Mask, Step, Clear;
    if events != [] {
      var e, rest := events[0], events[1..];
      var t := Step(r, e);
      StepKeeps(r, e, inForce, values, viewNames);
      FoldKeeps(t, rest, InForce(inForce, e), values, viewNames);
      var s := Fold(t, rest);
      forall f | f in events && f.Read? && !f.local ensures exists x :: x in s.seen && x.name == f.name {
        if f == e {
          ViewReadUnmasked(r, e, inForce, values, viewNames);
          var x :| x in t.seen && x.name == f.name;
          assert x in s.seen;
        } else {
          assert f in rest;
        }
      }
    }
  }

  /** A view value is never taken for something the fragment bound. */
  lemma ViewReadUnmasked(r: Recording, e: Event, inForce: set<string>, values: map<string, Value>, viewNames: set<string>)
    requires Holds(r, inForce, values, viewNames) && FitsScope(e, inForce, values) && e.Read? && !e.local
    ensures e.name !in r.bound
  {
  }

  /** Before anything is bound, every read is recorded with the value the scope gives. */
  lemma {:induction false} FoldFront(r: Recording, front: seq<Event>, values: map<string, Value>, locals: Locals)
    requires Distinct(r.seen) && r.bound == {} && Answered(front, values, locals)
    requires forall x | x in r.seen :: Resolves(x.name, values, locals) && Resolve(x.name, values, locals) == x.value
    ensures var s := Fold(r, front);
            && s.bound == {} && Distinct(s.seen)
            && (forall x | x in s.seen :: Resolves(x.name, values, locals) && Resolve(x.name, values, locals) == x.value)
            && (forall x | x in r.seen :: x in s.seen)
            && (forall e | e in front && e.Read? :: Has(s.seen, e.name, e.value))
    decreases |front|
  {
    hide Json;
    if front != [] {
      var e, rest := front[0], front[1..];
      var t := Step(r, e);
      assert Idle(e) || Owned(e, values, locals);
      if e.Read? {
        IndexFinds(r.seen, e.name);
        var x := t.seen[IndexOf(r.seen, e.name)];
        assert x in t.seen && x.value == e.value;
        assert x == Seen(e.name, e.value);
      }
      FoldFront(t, rest, values, locals);
    }
  }

  /** What a whole fragment's recording says, when its events begin with `k` reads of the
      scope it started in: those reads, and every view value read, are in it. */
  lemma FragmentRecording(events: seq<Event>, k: nat, values: map<string, Value>, locals: Locals, viewNames: set<string>,
                          number: real -> string)
    requires k <= |events| && Answered(events[..k], values, locals)
    requires Scoped(events, locals.Keys, values) && Sheltered({}, events, viewNames) && values.Keys <= viewNames
    ensures var seen := Fold(Fresh(number), events).seen;
            && Distinct(seen) && (forall x | x in seen :: Legible(x.name, x.value))
            && (forall e | e in events[..k] && e.Read? :: Has(seen, e.name, e.value))
            && (forall e | e in events && e.Read? && !e.local ::
                  e.name in values && values[e.name] == e.value && Has(seen, e.name, e.value))
            && (forall x | x in seen && x.name in viewNames :: x.name in values && values[x.name] == x.value)
  {
    hide Scoped, Sheltered;
    var front, rest := events[..k], events[k..];
    assert events == front + rest;
    FoldConcat(Fresh(number), front, rest);
    FoldFront(Fresh(number), front, values, locals);
    FoldGrows(Fold(Fresh(number), front), rest);
    FoldKeeps(Fresh(number), events, locals.Keys, values, viewNames);
    ScopedViews(events, locals.Keys, values);
    var seen := Fold(Fresh(number), events).seen;
    forall e | e in events && e.Read? && !e.local
      ensures e.name in values && values[e.name] == e.value && Has(seen, e.name, e.value)
    {
      var x :| x in seen && x.name == e.name;
      assert x == Seen(e.name, values[e.name]);
    }
  }

  lemma {:induction false} FoldGrows(r: Recording, events: seq<Event>)
    ensures r.seen <= Fold(r, events).seen && Fold(r, events).number == r.number
    decreases |events|
  {
    hide Json;
    if events != [] { FoldGrows(Step(r, events[0]), events[1..]); }
  }

  lemma {:induction false} ScopedViews(events: seq<Event>, names: set<string>, values: map<string, Value>)
    requires Scoped(events, names, values)
    ensures forall e | e in events && e.Read? && !e.local :: e.name in values && values[e.name] == e.value
    decreases |events|
  {
    if events != [] {
      ScopedViews(events[1..], InForce(names, events[0]), values);
      forall e | e in events && e.Read? && !e.local ensures e.name in values && values[e.name] == e.value {
        assert e == events[0] || e in events[1..];
      }
    }
  }

  // ------------------------------------------------------------- telling reads from a key

  /** The first read of two keys that are the same. */
  lemma ReadTold(x: Seen, y: Seen, a: string, b: string, number: real -> string)
    requires Legible(x.name, x.value) && Legible(y.name, y.value)
    requires ReadText(x, number) + a == ReadText(y, number) + b
    ensures x == y && a == b
  {
    hide Json, Whole;
    var v, w := Json(x.value, number) + (";" + a), Json(y.value, number) + (";" + b);
    assert ReadText(x, number) + a == x.name + ("=" + v) && ReadText(y, number) + b == y.name + ("=" + w);
    UpToEquals(x.name, y.name, v, w);
    JsonReads(x.value, y.value, ";" + a, ";" + b, number);
    assert (";" + a)[1..] == a && (";" + b)[1..] == b;
  }

  lemma UpToEquals(s: string, t: string, v: string, w: string)
    requires '=' !in s && '=' !in t && s + ("=" + v) == t + ("=" + w)
    ensures s == t && v == w
  {
    var whole := s + ("=" + v);
    assert whole[|s|] == '=' && whole[|t|] == '=';
    assert forall i | 0 <= i < |s| :: whole[i] == s[i];
    assert forall i | 0 <= i < |t| :: whole[i] == t[i];
    assert |s| == |t|;
    assert whole[..|s|] == s && whole[..|t|] == t && whole[|s| + 1..] == v && whole[|t| + 1..] == w;
  }

  lemma KeyOfNothing(seen: seq<Seen>, number: real -> string)
    ensures KeyText(seen, number) == "" <==> seen == []
  {
    hide Json;
  }

  /** Two keys of legible reads that are the same are of the same reads. */
  lemma {:induction false} KeyTold(a: seq<Seen>, b: seq<Seen>, number: real -> string)
    requires (forall x | x in a :: Legible(x.name, x.value)) && (forall x | x in b :: Legible(x.name, x.value))
    requires KeyText(a, number) == KeyText(b, number)
    ensures a == b
  {
    hide Legible;
    if a != [] && b != [] {
      ReadTold(a[0], b[0], KeyText(a[1..], number), KeyText(b[1..], number), number);
      KeyTold(a[1..], b[1..], number);
      assert a == [a[0]] + a[1..] && b == [b[0]] + b[1..];
    } else {
      KeyOfNothing(a, number);
      KeyOfNothing(b, number);
    }
  }
}
