/** The fragment cache is transparent: over any sequence of pages rendered through one
    cache, a page that renders without the cache renders to the same text with it. */
module FragmentCache {
  import opened Strings
  import opened Values
  import opened ViewContexts
  import opened Evaluation
  import opened Template
  import opened Render
  import opened SameReads
  import opened Steady
  import opened Scopes
  import opened Depth
  import opened RecordingLemmas
  import Expression

  /** What every page of a site shares, and the names any of its pages has view values
      for. The text that layouts wrap is one text, or may be any; `partials` holds the names
      that find the same template on every page, or find none on any. */
  datatype Site = Site(
    functions: map<string, seq<Given> -> Value>,
    toNumber: string -> real,
    numberText: real -> string,
    jsonNumber: real -> string,
    viewNames: set<string>,
    body: Option<string>,
    partials: map<string, Option<Node>>)

  /** A page of the site, which has no view value under the name of a function. */
  ghost predicate OnSite(p: Page, site: Site) {
    && p.view.functions == site.functions && p.view.jsonNumber == site.jsonNumber
    && p.view.toNumber == site.toNumber && p.view.numberText == site.numberText
    && p.view.values.Keys <= site.viewNames && site.functions.Keys !! site.viewNames
    && SharedOptions(p.options, site)
  }

  ghost predicate SharedOptions(options: Options, site: Site) {
    && (site.body.Some? ==> options.body == site.body.value)
    && forall name | name in site.partials :: options.Found(name) == site.partials[name]
  }

  /** A page and the locals a fragment of it starts with, none of them named like a view
      value or a function. */
  ghost predicate Proper(p: Page, locals: Locals, site: Site) {
    OnSite(p, site) && locals.Keys !! site.viewNames + site.functions.Keys
  }

  // ------------------------------------------------------------- what is asked of a page

  /** Something whose answer may differ from page to page. */
  predicate Varies(e: Event, site: Site) {
    || (e.Read? && !e.local)
    || (e.WriteBody? && site.body.None?)
    || (e.Find? && e.partial !in site.partials)
  }

  function Needs(events: seq<Event>, site: Site): set<Event> { set e | e in events && Varies(e, site) }

  lemma NeedsConcat(a: seq<Event>, b: seq<Event>, site: Site)
    ensures Needs(a + b, site) == Needs(a, site) + Needs(b, site)
  {
    hide Varies;
    assert forall e :: e in a + b <==> e in a || e in b;
  }

  /** Nothing varies but view values. */
  ghost predicate Settled(events: seq<Event>, site: Site) { forall e | e in events && Varies(e, site) :: e.Read? }

  lemma SettledWithin(a: seq<Event>, b: seq<Event>, site: Site)
    requires Settled(b, site) && Needs(a, site) <= Needs(b, site)
    ensures Settled(a, site)
  {
    hide Varies;
    forall e | e in a && Varies(e, site) ensures e.Read? {
      assert e in Needs(a, site);
      assert e in Needs(b, site);
    }
  }

  /** Every fragment that a cache is asked for starts with locals named apart from the view
      values and the functions. Inside it locals may be named like them, as long as the
      recording knows that the fragment bound them when it reads them; what it records is
      legible; and it writes the wrapped text and renders partials only where those are the
      same on all pages. */
  ghost predicate Calm(events: seq<Event>, site: Site) {
    forall i | 0 <= i < |events| && events[i].Open? && i + 1 + events[i].length <= |events| ::
      Contained(events[i].scope, events[i + 1..i + 1 + events[i].length], site)
  }

  ghost predicate Contained(scope: set<string>, events: seq<Event>, site: Site) {
    && scope !! site.viewNames + site.functions.Keys
    && Sheltered({}, events, site.viewNames) && Settled(events, site)
  }

  /** The fragment rendered without a cache. */
  function Bare(body: Expression.Node, p: Page, locals: Locals, room: nat): Rendered<string> {
    RenderFragmentBody(body, p, locals, room, None)
  }

  /** A fragment without a cache, by what it is. */
  lemma BareCases(body: Expression.Node, p: Page, locals: Locals, room: nat)
    ensures Bare(body, p, locals, room)
         == if !IsEngineCall(body) then Pure(HoleText(body, false, p.view, locals), None)
            else if body.target.name == "render" then RenderPartialCall(body, p, locals, room, None)
            else if FragmentOf(body).None? then Stopped(NoBlockGiven, None)
            else Bare(FragmentOf(body).value, p, locals, room)
  {
    if IsEngineCall(body) {
      assert Bare(body, p, locals, room) == RenderEngineCall(body, p, locals, room, None);
      if body.target.name != "render" {
        assert RenderEngineCall(body, p, locals, room, None) == RenderCachedFragment(body, p, locals, room, None);
        if FragmentOf(body).Some? {
          assert RenderCachedFragment(body, p, locals, room, None) == Bare(FragmentOf(body).value, p, locals, room);
        }
      }
    }
  }

  /** What a fragment reads before it binds anything. */
  function Front(body: Expression.Node, p: Page, locals: Locals): (r: seq<Event>)
    ensures Owns(r, p.view.values, locals)
  {
    if !IsEngineCall(body) then Evaluate(body, p.view, locals).events
    else if body.target.name == "render" then ReadRequest(body.arguments, p, locals, 1).events
    else if FragmentOf(body).None? then []
    else Front(FragmentOf(body).value, p, locals)
  }

  /** An entry speaks for a page when the fragment renders to it there, and everything the
      rendering depends on is among the recorded reads, or the same on all pages. */
  ghost predicate Origin(body: Expression.Node, seen: seq<Seen>, html: string, p: Page, locals: Locals, room: nat, site: Site) {
    && Proper(p, locals, site)
    && Bare(body, p, locals, room).result == Success(html)
    && (forall e | e in Front(body, p, locals) && e.Read? :: Has(seen, e.name, e.value))
    && Settled(Bare(body, p, locals, room).events, site)
    && HasNeeds(seen, Bare(body, p, locals, room).events, p, site)
  }

  ghost predicate HasNeeds(seen: seq<Seen>, events: seq<Event>, p: Page, site: Site) {
    forall e | e in Needs(events, site) && e.Read? ::
      e.name in p.view.values && p.view.values[e.name] == e.value && Has(seen, e.name, e.value)
  }

  ghost predicate SpeaksFor(body: Expression.Node, seen: seq<Seen>, html: string, site: Site) {
    exists p: Page, locals: Locals, room: nat :: Origin(body, seen, html, p, locals, room, site)
  }

  ghost predicate KeyOfReads(text: string, seen: seq<Seen>, site: Site) {
    KeyText(seen, site.jsonNumber) == text && forall x | x in seen :: Legible(x.name, x.value)
  }

  ghost predicate SoundEntry(body: Expression.Node, text: string, html: string, site: Site) {
    exists seen :: KeyOfReads(text, seen, site) && SpeaksFor(body, seen, html, site)
  }

  ghost predicate CacheSound(cache: Cache, site: Site) {
    forall key | key in cache.entries :: SoundEntry(key.site, key.text, cache.entries[key], site)
  }

  /** The key says which reads it is of. */
  lemma EntryOfReads(body: Expression.Node, text: string, html: string, seen: seq<Seen>, site: Site)
    requires SoundEntry(body, text, html, site) && KeyOfReads(text, seen, site)
    ensures SpeaksFor(body, seen, html, site)
  {
    hide SpeaksFor, KeyText, Legible;
    var other :| KeyOfReads(text, other, site) && SpeaksFor(body, other, html, site);
    KeyTold(seen, other, site.jsonNumber);
  }

  // ------------------------------------------------- one fragment on two pages

  lemma SameSite(p: Page, a: Locals, q: Page, b: Locals, site: Site)
    requires Proper(p, a, site) && Proper(q, b, site)
    ensures OnSite(p, site) && OnSite(q, site)
    ensures OneSite(p, q) && Alike(Scope(p.view, a), Scope(q.view, b)) && Apart(Scope(p.view, a), Scope(q.view, b))
  {
  }

  /** The second page gives every name read the value it had. */
  ghost predicate Resolved(events: seq<Event>, q: Page, b: Locals) {
    forall e | e in events && e.Read? ::
      Resolves(e.name, q.view.values, b) && Resolve(e.name, q.view.values, b) == e.value
  }

  lemma OwnsAcross(events: seq<Event>, p: Page, a: Locals, q: Page, b: Locals, site: Site)
    requires Proper(p, a, site) && Proper(q, b, site)
    requires Owns(events, p.view.values, a) && Resolved(events, q, b)
    ensures Owns(events, q.view.values, b)
  {
    forall e | e in events ensures Owned(e, q.view.values, b) {
      assert Owned(e, p.view.values, a);
      assert Resolves(e.name, q.view.values, b);
    }
  }

  lemma RequestRoom(arguments: seq<Expression.Node>, p: Page, locals: Locals, room: nat)
    requires room > 0
    ensures ReadRequest(arguments, p, locals, room) == ReadRequest(arguments, p, locals, 1)
  {
  }

  /** Given the same answers, a fragment is the same text, and depends on the same reads. */
  lemma {:induction false} FragmentSame(body: Expression.Node, p: Page, a: Locals, q: Page, b: Locals, room: nat, site: Site)
    requires Proper(p, a, site) && Proper(q, b, site)
    requires Bare(body, p, a, room).result.Success?
    requires Resolved(Front(body, p, a), q, b)
    requires Known(Bare(body, p, a, room).events, p, q)
    ensures Bare(body, q, b, room).result == Bare(body, p, a, room).result
    ensures Front(body, q, b) == Front(body, p, a)
    ensures Needs(Bare(body, q, b, room).events, site) == Needs(Bare(body, p, a, room).events, site)
  {
    hide Known, Needs, Evaluate, RenderPartialCall, Proper, ReadRequest, Bare;
    BareCases(body, p, a, room);
    BareCases(body, q, b, room);
    SameSite(p, a, q, b, site);
    OwnsAcross(Front(body, p, a), p, a, q, b, site);
    if !IsEngineCall(body) {
      EvaluateSame(body, Scope(p.view, a), Scope(q.view, b));
    } else if body.target.name == "render" {
      PartialFragmentSame(body, p, a, q, b, room, site);
    } else {
      FragmentSame(FragmentOf(body).value, p, a, q, b, room, site);
    }
  }

  lemma PartialFragmentSame(n: Expression.Node, p: Page, a: Locals, q: Page, b: Locals, room: nat, site: Site)
    requires n.Call? && OneSite(p, q) && Alike(Scope(p.view, a), Scope(q.view, b))
    requires var x := RenderPartialCall(n, p, a, room, None);
             x.result.Success? && Known(x.events, p, q)
    requires Owns(ReadRequest(n.arguments, p, a, 1).events, q.view.values, b)
    ensures RenderPartialCall(n, q, b, room, None).result == RenderPartialCall(n, p, a, room, None).result
    ensures ReadRequest(n.arguments, q, b, 1) == ReadRequest(n.arguments, p, a, 1)
    ensures Needs(RenderPartialCall(n, q, b, room, None).events, site)
         == Needs(RenderPartialCall(n, p, a, room, None).events, site)
  {
    hide Known, Needs, ReadRequest, RenderPartial;
    var x, y := RenderPartialCall(n, p, a, room, None), RenderPartialCall(n, q, b, room, None);
    var request := ReadRequest(n.arguments, p, a, room);
    var inner := RenderPartial(request.result.value, p, room - 1, None);
    RequestRoom(n.arguments, p, a, room);
    RequestRoom(n.arguments, q, b, room);
    PartialEvents(request, inner, x, a, p, q);
    FoundAlike(request.result.value.name, p, q);
    RequestSame(n.arguments, p, a, q, b, 1, 1);
    PartialSteady(request.result.value, p, q, room - 1);
    PartialNeeds(request, inner, x.events, a, site);
    PartialNeeds(request, inner, y.events, b, site);
  }

  lemma PartialNeeds(request: Evaluated<Request>, inner: Rendered<string>, events: seq<Event>, locals: Locals, site: Site)
    requires request.result.Success?
    requires events == request.events + (Entering(request.result.value) + (inner.events + [Keep(locals.Keys)]))
    ensures Needs(events, site)
         == Needs(request.events, site) + Needs(Entering(request.result.value), site) + Needs(inner.events, site)
  {
    hide Needs;
    var opening := Entering(request.result.value);
    NeedsConcat(request.events, opening + (inner.events + [Keep(locals.Keys)]), site);
    NeedsConcat(opening, inner.events + [Keep(locals.Keys)], site);
    NeedsConcat(inner.events, [Keep(locals.Keys)], site);
    NeedsNothing([Keep(locals.Keys)], site);
  }

  lemma NeedsNothing(events: seq<Event>, site: Site)
    requires forall e | e in events :: !Varies(e, site)
    ensures Needs(events, site) == {}
  {
  }

  /** Two pages that both render a fragment, and never disagree on what it reads first,
      read the same. */
  lemma {:induction false} FrontAgrees(body: Expression.Node, p: Page, a: Locals, q: Page, b: Locals, r: nat, s: nat, site: Site)
    requires Proper(p, a, site) && Proper(q, b, site)
    requires Bare(body, p, a, r).result.Success? && Bare(body, q, b, s).result.Success?
    requires Agree(Front(body, p, a), Front(body, q, b)) && Settled(Bare(body, p, a, r).events, site)
    ensures Front(body, q, b) == Front(body, p, a) && Resolved(Front(body, p, a), q, b)
  {
    hide Evaluate, RenderPartial, Proper, ReadRequest, Bare;
    BareCases(body, p, a, r);
    BareCases(body, q, b, s);
    SameSite(p, a, q, b, site);
    if !IsEngineCall(body) {
      EvaluateSame(body, Scope(p.view, a), Scope(q.view, b));
    } else if body.target.name == "render" {
      RequestRoom(body.arguments, p, a, r);
      RequestRoom(body.arguments, q, b, s);
      FoundOnSite(body, p, a, q, r, site);
      RequestSame(body.arguments, p, a, q, b, 1, 1);
    } else {
      FrontAgrees(FragmentOf(body).value, p, a, q, b, r, s, site);
    }
    assert forall e | e in Front(body, q, b) :: Owned(e, q.view.values, b);
  }

  /** What a settled fragment renders is found the same on every page. */
  lemma FoundOnSite(n: Expression.Node, p: Page, a: Locals, q: Page, room: nat, site: Site)
    requires n.Call? && OnSite(p, site) && OnSite(q, site)
    requires var r := RenderPartialCall(n, p, a, room, None); r.result.Success? && Settled(r.events, site)
    ensures var name := ReadRequest(n.arguments, p, a, room).result.value.name;
            p.options.Found(name) == q.options.Found(name)
  {
    hide ReadRequest, RenderPartial;
    var request := ReadRequest(n.arguments, p, a, room);
    var e := Find(request.result.value.name);
    var events := RenderPartialCall(n, p, a, room, None).events;
    assert events[|request.events|] == e;
    assert e in events && !e.Read?;
    assert !Varies(e, site);
  }

  // ----------------------------------------------------------- filling the cache

  /** An entry whose recorded reads this page answers is what this page renders. */
  lemma EntrySpeaks(body: Expression.Node, seen: seq<Seen>, html: string, q: Page, b: Locals, site: Site)
    returns (room: nat)
    requires SpeaksFor(body, seen, html, site) && Proper(q, b, site)
    requires forall x | x in seen && x.name in site.viewNames :: x.name in q.view.values && q.view.values[x.name] == x.value
    requires forall p: Page, a: Locals, r: nat | Origin(body, seen, html, p, a, r, site) :: Resolved(Front(body, p, a), q, b)
    ensures Bare(body, q, b, room).result == Success(html)
    ensures forall e | e in Front(body, q, b) && e.Read? :: Has(seen, e.name, e.value)
    ensures Settled(Bare(body, q, b, room).events, site) && HasNeeds(seen, Bare(body, q, b, room).events, q, site)
  {
    hide Bare, Front, Needs, Settled, Resolved;
    var p: Page, a: Locals, r: nat :| Origin(body, seen, html, p, a, r, site);
    room := r;
    var events := Bare(body, p, a, r).events;
    OriginKnown(seen, events, p, q, site);
    FragmentSame(body, p, a, q, b, r, site);
    SettledWithin(Bare(body, q, b, r).events, events, site);
    forall e | e in Needs(events, site) && e.Read? ensures e.name in q.view.values && q.view.values[e.name] == e.value {
      assert Seen(e.name, e.value) in seen;
    }
  }

  /** The second page answers all that an entry's rendering asked of the first. */
  lemma OriginKnown(seen: seq<Seen>, events: seq<Event>, p: Page, q: Page, site: Site)
    requires OnSite(p, site) && OnSite(q, site) && Settled(events, site) && HasNeeds(seen, events, p, site)
    requires forall x | x in seen && x.name in site.viewNames :: x.name in q.view.values && q.view.values[x.name] == x.value
    ensures Known(events, p, q)
  {
    forall e | e in events ensures AnsweredAlike(e, p, q) {
      if e.Read? && !e.local {
        assert e in Needs(events, site);
        assert Seen(e.name, e.value) in seen;
      } else if Varies(e, site) {
        assert e.Read?;
      }
    }
  }

  /** Putting a rendered fragment away keeps the cache sound, and what comes back is what
      was rendered, whether it was new or found there. */
  lemma RecordedSound(body: Expression.Node, c: Rendered<string>, k: nat, q: Page, b: Locals, room: nat, site: Site)
    requires Proper(q, b, site) && c.result.Success? && c.store.Some? && CacheSound(c.store.value, site)
    requires Scoped(c.events, b.Keys, q.view.values) && Contained(b.Keys, c.events, site)
    requires Bare(body, q, b, room).result == c.result
    requires Needs(Bare(body, q, b, room).events, site) <= Needs(c.events, site)
    requires k <= |c.events| && Answered(c.events[..k], q.view.values, b)
    requires forall e | e in Front(body, q, b) :: e in c.events[..k]
    ensures var r := Recorded(body, c, site.jsonNumber);
            r.result == c.result && r.events == c.events && r.store.Some? && CacheSound(r.store.value, site)
  {
    hide RenderFragmentBody, Front, KeyText, Needs, Settled, Fold, Answered, Sheltered, Scoped, Bare, Legible, CacheSound, HasNeeds,
      Recorded;
    var recording := Fold(Fresh(site.jsonNumber), c.events);
    var seen := recording.seen;
    FoldGrows(Fresh(site.jsonNumber), c.events);
    FragmentRecording(c.events, k, q.view.values, b, site.viewNames, site.jsonNumber);
    SettledWithin(Bare(body, q, b, room).events, c.events, site);
    NeedsSeen(seen, Bare(body, q, b, room).events, c.events, q, site);
    assert Origin(body, seen, c.result.value, q, b, room, site);
    assert SpeaksFor(body, seen, c.result.value, site);
    var key := Key(body, recording.Key());
    assert KeyOfReads(key.text, seen, site);
    assert SoundEntry(body, key.text, c.result.value, site);
    if key in c.store.value.entries {
      SoundAt(c.store.value, key, site);
      EntrySame(body, key.text, c.store.value.entries[key], seen, c.result.value, q, b, room, site);
    }
    StoredSound(body, c, site);
  }

  lemma SoundAt(cache: Cache, key: Key, site: Site)
    requires CacheSound(cache, site) && key in cache.entries
    ensures SoundEntry(key.site, key.text, cache.entries[key], site)
  {
  }

  /** What is put away, when its key is sound and any entry there is the same text. */
  lemma StoredSound(body: Expression.Node, c: Rendered<string>, site: Site)
    requires c.result.Success? && c.store.Some? && CacheSound(c.store.value, site)
    requires var key := Key(body, Fold(Fresh(site.jsonNumber), c.events).Key());
             && SoundEntry(body, key.text, c.result.value, site)
             && (key in c.store.value.entries ==> c.store.value.entries[key] == c.result.value)
    ensures var r := Recorded(body, c, site.jsonNumber);
            r.result == c.result && r.events == c.events && r.store.Some? && CacheSound(r.store.value, site)
  {
    hide Fold, KeyText, SoundEntry;
  }

  lemma NeedsSeen(seen: seq<Seen>, bare: seq<Event>, events: seq<Event>, q: Page, site: Site)
    requires Needs(bare, site) <= Needs(events, site)
    requires forall e | e in events && e.Read? && !e.local ::
               e.name in q.view.values && q.view.values[e.name] == e.value && Has(seen, e.name, e.value)
    ensures HasNeeds(seen, bare, q, site)
  {
    forall e | e in Needs(bare, site) && e.Read?
      ensures e.name in q.view.values && q.view.values[e.name] == e.value && Has(seen, e.name, e.value)
    {
      assert e in Needs(events, site);
    }
  }

  /** An entry found under the key of what was just rendered is the same text. */
  lemma EntrySame(body: Expression.Node, text: string, found: string, seen: seq<Seen>, html: string, q: Page, b: Locals, room: nat,
                  site: Site)
    requires SoundEntry(body, text, found, site) && KeyOfReads(text, seen, site) && Distinct(seen)
    requires Origin(body, seen, html, q, b, room, site)
    requires forall x | x in seen && x.name in site.viewNames :: x.name in q.view.values && q.view.values[x.name] == x.value
    ensures found == html
  {
    hide Bare, Front, Needs, Settled, KeyText, Agree, Resolved, HasNeeds, Distinct;
    EntryOfReads(body, text, found, seen, site);
    forall p: Page, a: Locals, r: nat | Origin(body, seen, found, p, a, r, site) ensures Resolved(Front(body, p, a), q, b) {
      DistinctAgree(seen, Front(body, p, a), Front(body, q, b));
      FrontAgrees(body, p, a, q, b, r, room, site);
    }
    var other := EntrySpeaks(body, seen, found, q, b, site);
    SameText(body, q, b, room, other);
  }

  /** Room makes no difference to a text. */
  lemma SameText(body: Expression.Node, q: Page, b: Locals, r: nat, s: nat)
    requires Bare(body, q, b, r).result.Success? && Bare(body, q, b, s).result.Success?
    ensures Bare(body, q, b, r).result == Bare(body, q, b, s).result
  {
    hide RenderFragmentBody;
    if r < s { BodyShallow(body, q, b, r, s); } else { BodyShallow(body, q, b, s, r); }
  }

  lemma DistinctAgree(seen: seq<Seen>, a: seq<Event>, b: seq<Event>)
    requires Distinct(seen)
    requires forall e | e in a && e.Read? :: Has(seen, e.name, e.value)
    requires forall e | e in b && e.Read? :: Has(seen, e.name, e.value)
    ensures Agree(a, b)
  {
    forall e, e' | e in a && e' in b && e.Read? && e'.Read? && e.name == e'.name ensures e.value == e'.value {
      assert Seen(e.name, e.value) in seen && Seen(e'.name, e'.value) in seen;
    }
  }

  /** A key worked out by replaying names holds what this page gives them, and every one of
      them is read on the way. */
  lemma {:induction false} ReplayHolds(names: seq<string>, q: Page, b: Locals)
    requires ReplayOf(names, q.view.values, b).key.Some?
    ensures var r := ReplayOf(names, q.view.values, b);
            forall x | x in r.key.value ::
              && Resolves(x.name, q.view.values, b) && Resolve(x.name, q.view.values, b) == x.value
              && Read(x.name, x.value, x.name in b) in r.events
  {
    if names != [] { ReplayHolds(names[1..], q, b); }
  }
}
