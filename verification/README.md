# Verified model of blogin

blogin is a static site generator. This project models, in Dafny, the parts of it where a
mistake is easiest to make and hardest to see, and proves what they are for.

**The template engine.** A template is HAML. `lines.dfy`, `preserved.dfy`, `interpolation.dfy`,
`attributes.dfy`, `building.dfy`, `outline.dfy` and `haml_parser.dfy` follow a source text to a
tree: lines, the blocks that are captured whole, the holes in text, the attribute lists, what
one line is, and how indentation nests them. `expression.dfy`, `expression_parser.dfy` and
`expression_limits.dfy` are the expression language inside it; `phrase.dfy`,
`phrase_reading.dfy`, `phrase_theorem.dfy`, `round_trip.dfy`, `normal_form.dfy` and
`phrase_texts.dfy` say exactly which texts it reads as which trees. `values.dfy`,
`json_text.dfy`, `view_context.dfy` and `evaluation.dfy` evaluate an expression and record what
it read, each value by its JSON; `evaluation_laws.dfy` and `json_written.dfy` say what every
operator gives and what the JSON is. `template.dfy`, `render.dfy`, `renderer.dfy` and
`chains.dfy` render; `page_text.dfy` says what every kind of node leaves on the page, as an
independent reader of markup takes it, `page_refused.dfy` which nodes cannot be rendered, and
`store_growth.dfy` what is left in the cache. The rest is about the cache of rendered fragments
that pages share: `scopes.dfy` and `recording.dfy` say what is read and what a recording keeps
of it, `same_reads.dfy`, `steady.dfy` and `depth.dfy` what a rendering depends on,
`fragment_cache.dfy`, `cache_theorem.dfy` and `pages.dfy` prove the cache transparent,
`tidy_templates.dfy`, `tidy_names.dfy` and `names_apart.dfy` say which templates and which
practice of a site make it so, and `small_pages.dfy`, `cache_limits.dfy`, `recorded_names.dfy`
and `deep_pages.dfy` give the pages on which it is not. `attribute_lists.dfy`,
`written_lines.dfy` and `refused_lines.dfy` say what lines of a template are written as, and
which it cannot have.

**The kernels around it.** `edit_distance.dfy` (the configuration key hint), `minify.dfy` and
`references.dfy` (stylesheets and renamed files), `image_sizes.dfy` (the JPEG walk),
`highlight.dfy`, `http.dfy` (requests on a kept-open connection, sections 3, 5 and 9.3.2 of
RFC 9112), `cli.dfy` and `cli_short.dfy`, `slug.dfy`, and `work_sharing.dfy` (the parallel test
run).

`strings.dfy` and `compiling.dfy` hold what the others share, and `characters.dfy` lists the
alphabets they all go by. `dafny verify dfyconfig.toml` checks everything.

## How it is modelled

Code that changes things step by step is a class or a method with loops, proved equal to a
function of its inputs or of the old state; what the source promises is then proved of that
function, in terms that do not use it: what its input was written as, what its output reads as.
The parser of expressions, the template parser, the view context, the renderer and the fragment
store are classes with the source's own fields. The parallel run is a state machine whose steps
interleave in any order.

Rendering is a function that gives, besides the text, the list of everything read and bound on
the way, with a mark where a fragment opens, where the wrapped text is written and where a
partial is looked up; a recording is a fold over that list. The argument for the cache is that
two pages on which a fragment would read the same values make the same choices, so that they
read the same names in the same order and write the same text, and that the text of a key tells
which values were read.

## Findings

**The fragment cache is not transparent for every site.** `CacheLimits` gives, for each cause,
two pages of which the second comes out as the first. Two causes are things the key leaves out
altogether: the text that `yield` writes, and the section that decides which file a partial is.
One is something the key cannot tell: the integer 1 and the number 1.0 are both `1` in JSON, so
that a page with the one is given what was computed from the other
(`CacheLimits.IntegerAndNumberShareAKey`; added to 9999999999999999 they are 10000000000000000
and 1e+16). The others are names used in two ways: a local and a view value, a view value and a
function, a function and a local. A fragment that reads `$x`, which is only ever a local, is even
given to a page that has no such local and should fail, if a view value of that name has the same
text (`CacheLimits.ValueAnswersForLocal`).

`NamesApart.SafeExactlyWhenApart` says exactly when there is no harm. Take a practice: which
names a site uses for view values, for functions and for locals, which texts its layouts wrap
and whether a fragment may write them, which partials are the same on every page and which a
fragment may render, and whether values may hold floating-point numbers. Then the cache makes
no difference to any sequence of pages that keep to it if and only if no name is in two of the
three sets, no two wrapped texts differ where partials of fragments may write them, every partial
a fragment may render is the same on every page, and there is nothing to read that could be a
floating-point number. The pages share their functions and the conversions of numbers, and begin
with no locals; their templates, values, wrapped texts and other partials are their own. So a
layout with a cached header and a cached footer is safe whatever it wraps
(`NamesApart.BaseLayoutIsSafe`).

Outside such a practice single fragments may still shadow. `Pages.CacheTransparent` asks only,
of each fragment as it is rendered, that it starts with locals named apart, that a local with the
name of a view value is read while the recording still knows the fragment bound it, that what is
recorded holds no floating-point number, and that the wrapped text and the partials it uses are
the same on all pages; `TidyNames` reduces that to a check of the templates, in which what only
reads may be given any names and values at all.

**A fragment that cannot be replayed is found all the same.** `src/blogin/view_context.cpp:237-241`
says that a fragment which read one name with two values is rendered instead of replayed. It is
rendered, but `src/blogin/haml_render.cpp:670-674` then looks its key up and writes the entry of
the page before (`CacheLimits.UnreplayableIsFoundAllTheSame`). This can come of locals the
fragment bound for itself (`CacheLimits.ShadowWithinFragment`), which is why shadowing cannot be
allowed without condition.

**A name the fragment bound itself can be recorded.** `src/blogin/include/view_context.h:69-71`
says it is left out of the key. It is not, once the locals have been taken and put back around
it, as a nested loop does. `RecordedNames.RecordedExactly` says for every run which names are
recorded, and `RecordedNames.LoopVariableRecorded` gives the template; no page without a
value of that name can then be answered by replay.

**A cached page can succeed where the uncached one runs out of room for its partials.** A fragment
found in the cache is not rendered, so it nests no deeper (`DeepPages.CachedPageNestsDeeper`).
The cache theorem shows that this is the only difference, failures included.

**Minifying is not idempotent.** Of `;;}` one semicolon goes in each pass
(`Minify.TwoSemicolonsTwoPasses`), and `Minify.MinifiedAgainExactly` says that two semicolons
directly before a closing brace are the only cause.

The model follows the code in all of these.

## Model

| member | source | states |
|---|---|---|
| ExpressionParser.Parser.Take | src/blogin/expression.cpp:108-127 | a token is taken past blanks only when it is there and, if it is a word, whole; otherwise nothing but the blanks is |
| ExpressionParser.Parser.ParseOr | src/blogin/expression.cpp:160-193 | the parser reads what the grammar gives for the rest of the text, stands where that ends, and leaves the recursion counter as it was, on success and on every failure |
| ExpressionParser.Parser.ParseAnd | src/blogin/expression.cpp:195-222 | the same at the level of `&&`, its chains associating to the left |
| ExpressionParser.Parser.ParseComparison | src/blogin/expression.cpp:224-271 | the same at the level of the comparisons, with `==` before `<=` before `<` |
| ExpressionParser.Parser.ParseAdditive | src/blogin/expression.cpp:273-312 | the same at the level of `~`, `+` and `-` |
| ExpressionParser.Parser.ParseUnary | src/blogin/expression.cpp:314-341 | the prefix operators, charged one each to the counter, which is given back |
| ExpressionParser.Parser.ParsePostfix | src/blogin/expression.cpp:343-446 | members, calls and `a<key>` after a value, the parser put back to the `<` when no name and `>` follow it |
| ExpressionParser.Parser.ParseArguments | src/blogin/expression.cpp:448-486 | the argument list, in order, through its closing parenthesis |
| ExpressionParser.Parser.ParseArgument | src/blogin/expression.cpp:489-553 | a positional argument, or `:name<text>`, `:name(value)` or `:name` |
| ExpressionParser.Parser.ParsePrimary | src/blogin/expression.cpp:555-635 | a value by the character it begins with |
| ExpressionParser.Parser.LooksLikeMapHere | src/blogin/expression.cpp:640-665 | a brace opens a map exactly when it is empty or a name and a colon follow, found without moving |
| ExpressionParser.Parser.ParseMap | src/blogin/expression.cpp:667-720 | the entries of a map, a last comma allowed |
| ExpressionParser.Parser.ParseBlock | src/blogin/expression.cpp:724-745 | a block, with the counter given back |
| ExpressionParser.Parser.ParseString | src/blogin/expression.cpp:747-770 | a string with its escapes undone, or a failure when nothing closes it |
| ExpressionParser.Parser.ParseNumber | src/blogin/expression.cpp:772-807 | digits, and a point only when a digit follows it |
| ExpressionParser.Parser.Parse | src/blogin/expression.cpp:35-53 | the whole trimmed source or a failure, with the counter at zero |
| ExpressionLimits.ParsedTreesFit | src/blogin/expression.cpp:64-83 | every tree the parser returns stores its true height at every node, and that height is at most 64 |
| RoundTrip.PhraseRead | src/blogin/expression.cpp:160-807 | every text of the concrete grammar, with any blanks or none between its tokens wherever no two of them run together, any quotes, escapes, parentheses and last commas, is read as the tree it stands for exactly when that tree and its nesting fit the limits, and otherwise is refused as too deep |
| PhraseTexts.ReadExactly | src/blogin/expression.cpp:160-807 | the grammar is exact: a source is read as a tree if and only if, trimmed, it is a text of the grammar that stands for that tree and fits the limits |
| PhraseTexts.Unambiguous | src/blogin/expression.cpp:160-807 | a source that is a text of the grammar in two ways is within the limits in both or in neither, and if it is, stands for the same tree in both |
| PhraseTexts.IntegersRead | src/blogin/expression.cpp:772-807 | a run of digits is the integer it spells, or zero when 64 bits do not hold it |
| PhraseTexts.NamesRead | src/blogin/expression.cpp:555-635 | any word is a name but seven, and behind a `$` any word is a local |
| RoundTrip.ParsePrinted | src/blogin/expression.cpp:160-807 | a printable tree, printed with as few parentheses as precedence allows, is read back as itself exactly when it fits the limits |
| NormalForm.PrintedFormReadsBack | src/blogin/expression.cpp:160-807 | whatever an accepted source is written like, the printed form of its tree is accepted and read as the same tree |
| NormalForm.TreesThatAreRead | src/blogin/expression.cpp:160-807 | the trees the parser can return are exactly the printable ones whose printed form fits |
| RoundTrip.NestedParentheses | src/blogin/expression.cpp:160-193 | n parentheses around a number are accepted if and only if n is at most 31 |
| RoundTrip.NegationRun | src/blogin/expression.cpp:314-341 | n prefix `!` are accepted if and only if n is at most 62 |
| RoundTrip.AdditionChain | src/blogin/expression.cpp:273-312 | n chained additions are accepted if and only if n is at most 63 |
| Evaluation.Run | src/blogin/expression.cpp:1047-1156 | evaluation gives the value of the expression or its failure, every open recording sees just what was read, and the recursion is no deeper than the height of the tree |
| Evaluation.RunBinary | src/blogin/expression.cpp:904-984 | an operator on the values of its two sides, `and` and `or` reading their right side only when the left does not decide; what each gives is in the rows of `EvaluationLaws` |
| Evaluation.RunCall | src/blogin/expression.cpp:986-1043 | a call, with the arguments read only once the name is known to be a function |
| EvaluationLaws.IntegersCompared | src/blogin/expression.cpp:829-867 | two integers, from whatever expressions and with the reads of both, are less, equal and so on just as the integers are |
| EvaluationLaws.NumbersCompared | src/blogin/expression.cpp:829-867 | numbers of either kind compare by size |
| EvaluationLaws.StringsCompared | src/blogin/expression.cpp:849-854 | two strings that part ways after a shared beginning are ordered by the first character in which they differ, or by which of them ends there |
| EvaluationLaws.OthersHaveNoOrder | src/blogin/expression.cpp:856-867 | nothing else has an order: the comparison fails, with both sides read |
| EvaluationLaws.PlainValuesEqualThemselves | src/blogin/expression.cpp:829-843 | a null, a boolean or a string equals only itself |
| EvaluationLaws.ContainersEqualZero | src/blogin/expression.cpp:845 | lists and objects equal one another and zero, and no other number |
| EvaluationLaws.IntegersAdded | src/blogin/expression.cpp:944-960 | integers add and subtract to i + j and i - j |
| EvaluationLaws.NumbersAdded | src/blogin/expression.cpp:944-960 | unless both are integers the sum is a number, to which what is none counts as zero |
| EvaluationLaws.TextsJoined | src/blogin/expression.cpp:869-884 | `~`, and `+` beside a string, join what the two values read as: nothing, `true` or `false`, digits, or the string |
| EvaluationLaws.OperandsFail | src/blogin/expression.cpp:904-932 | an operand that fails, fails the whole, and the right one is not read when the left one does |
| EvaluationLaws.Decided | src/blogin/expression.cpp:911-926 | `and` and `or` give the left value with only its reads when it decides, and otherwise the right one with the reads of both; false are null, false, zero, and the empty string, list and object |
| EvaluationLaws.Negated | src/blogin/expression.cpp:1138-1146 | `!` is true of just those values |
| EvaluationLaws.MembersOfLists | src/blogin/expression.cpp:888-902 | a list has a size, a first and a last item, null when it is empty, and nothing else |
| EvaluationLaws.MembersOfOthers | src/blogin/expression.cpp:1101-1111 | an object has its members and is null for others; a string has its length; nothing else has any |
| EvaluationLaws.NamesResolved | src/blogin/expression.cpp:1064-1088 | a name is the local, else the view value, else the function called with nothing; a `$` name only the local; and what is recorded is what was found |
| EvaluationLaws.FunctionsCalled | src/blogin/expression.cpp:1016-1042 | a function is given all its arguments in order, each under its name, and a block's expression in its place |
| EvaluationLaws.CallsStop | src/blogin/expression.cpp:1016-1036 | the first argument that fails, fails the call, and none after it is read |
| EvaluationLaws.MembersCalled | src/blogin/expression.cpp:986-998 | `x.f()` reads the member, and `x.f(...)` calls `f` without looking at `x` |
| EvaluationLaws.OthersCalled | src/blogin/expression.cpp:1000-1014 | what is no function can only be called by its bare name with nothing, as the value it is |
| EvaluationLaws.MapsBuilt | src/blogin/expression.cpp:1122-1136 | a map has just the keys written in it, each with the last value written for it |
| EvaluationLaws.MapsStop | src/blogin/expression.cpp:1125-1130 | the first entry that fails, fails the map, and none after it is read |
| ViewContexts.ViewContext.Note | src/blogin/view_context.cpp:213-260 | every open recording takes a read, a binding or a loss of bindings, and nothing else changes |
| ViewContexts.ViewContext.SetLocal | src/blogin/view_context.cpp:72-82 | a local is bound and noted as bound |
| ViewContexts.ViewContext.Lookup | src/blogin/view_context.cpp:96-106 | a view value is found and recorded, or neither |
| ViewContexts.ViewContext.LookupLocal | src/blogin/view_context.cpp:108-118 | a local is found and recorded, or neither |
| ViewContexts.ViewContext.EndRecording | src/blogin/view_context.cpp:165-187 | the innermost recording is closed and gives its key: its reads in the order they were first made, each as name, equals sign, JSON and semicolon |
| ViewContexts.ViewContext.Replay | src/blogin/view_context.cpp:189-203 | the key that remembered names make against this page, or none when one is out of scope, the reads noted up to there |
| ViewContexts.ViewContext.ResolveName | src/blogin/view_context.cpp:205-211 | a name is a local if there is one and else a view value, and is recorded as what was found |
| JsonText.JsonReads | src/blogin/json.cpp:488-668 | two values without floating-point numbers whose JSON, followed by anything that can follow a value, is the same text are the same value: strings with their escapes, lists and objects nested to any depth |
| JsonWritten.JsonSays | src/blogin/json.cpp:488-666 | every value is written as JSON that says it, by the grammar of RFC 8259: strings that a reader of escapes reads back, the items of a list in order, the members of an object each once in the order of their names |
| RecordingLemmas.KeyTold | src/blogin/view_context.cpp:42-47 | two keys that are the same text are of the same names with the same values, where those hold no floating-point numbers |
| ViewContexts.ViewContext.TakeLocals | src/blogin/view_context.cpp:262-268 | the locals are handed over and none is left |
| ViewContexts.ViewContext.RestoreLocals | src/blogin/view_context.cpp:270-274 | the locals are the ones handed back |
| Renderers.Renderer.RenderChildren | src/blogin/haml_render.cpp:65-91 | the page grows by what the children write, in order; on every exit the locals and the depth are what they were, the recordings hold what was read and the store what was rendered |
| Renderers.Renderer.RenderConditional | src/blogin/haml_render.cpp:93-152 | a chain writes what its deciding branch writes and says where it ended, always past its head; locals and depth as they were |
| Chains.ChainDecides | src/blogin/haml_render.cpp:93-152 | a chain runs to the first line that is not `elsif` or `else`, writes the body of the first branch that does not refuse and of no other, reads the conditions up to it and none after, and stops at a condition that fails |
| Renderers.Renderer.RenderNode | src/blogin/haml_render.cpp:154-195 | a node by its kind |
| Renderers.Renderer.RenderOutput | src/blogin/haml_render.cpp:197-233 | an output line writes what `RenderOutput` gives; which text that is, is in the rows of `PageText` |
| Renderers.Renderer.RenderLoop | src/blogin/haml_render.cpp:235-269 | a loop writes its body once for each item over the locals it began with, and puts them back however it ends |
| Renderers.Renderer.RenderFilter | src/blogin/haml_render.cpp:271-310 | a filter's lines, wrapped by its name, or a failure when there is no such filter |
| Renderers.Renderer.RenderElement | src/blogin/haml_render.cpp:312-450 | a tag with its marks, attributes and children, the last line break taken back only when the child is on the tag's line |
| Renderers.Renderer.RenderPartialCall | src/blogin/haml_render.cpp:495-618 | a partial is rendered over its own locals, its arguments read against the caller's; refused at the 33rd level; locals and depth put back on every way out |
| Renderers.Renderer.ReadArguments | src/blogin/haml_render.cpp:516-570 | the depth is one more exactly when the partial is to be rendered |
| Renderers.Renderer.RenderCachedFragment | src/blogin/haml_render.cpp:622-677 | a fragment is answered from the store when what it read last time resolves to a stored key, and else rendered and recorded |
| Renderers.Renderer.RecordFragment | src/blogin/haml_render.cpp:654-676 | a recording is opened and closed around the fragment, and its text put away under what it read unless it is there already or failed |
| Renderers.Renderer.RenderFragmentBody | src/blogin/haml_render.cpp:679-691 | the block of a fragment, itself possibly an engine call |
| Renderers.Renderer.InterpolateParts | src/blogin/haml_render.cpp:693-716 | literals and holes in order, or the first hole's failure; which text that is, is in the rows of `PageText` |
| PageText.TextWrites | src/blogin/haml_render.cpp:693-716 | a line of text writes its literals as they are and, for each hole, a piece without `<`, `>` or `"` from which undoing the entities gives the value's text; or it fails as the first hole that does |
| PageText.OutputWrites | src/blogin/haml_render.cpp:217-232 | `=` writes such a piece of the value, `!=` the value's text itself |
| PageText.CallsWrite | src/blogin/haml_render.cpp:197-215 | `yield` writes the wrapped text as it is; what a call gives is escaped after `=` and not after `!=` |
| PageText.FragmentsWrite | src/blogin/haml_render.cpp:622-691 | a fragment writes what its block gives, unescaped, and needs something besides its name |
| PageText.PlainNodesWrite | src/blogin/haml_render.cpp:154-195 | a doctype is the HTML one, and a comment is nothing |
| PageText.ChildrenWrite | src/blogin/haml_render.cpp:65-91 | children without conditionals write their texts in order, up to the first that fails |
| PageText.BranchesTaken | src/blogin/haml_render.cpp:93-152 | an `unless` is taken when its condition is one of the seven false values, an `if` or `elsif` when it is not, an `else` always |
| PageText.LoopWrites | src/blogin/haml_render.cpp:235-269 | a loop writes its body once for each item, in order, with the item under its name among the locals it began with, up to the first time that fails |
| PageText.PartialsWrite | src/blogin/haml_render.cpp:495-618 | a call writes the partial it names with just the locals it gives, or, with a collection, once for each item in order with the item under its `:as` name or `item` |
| PageText.PartialsRefused | src/blogin/haml_render.cpp:505-521 | a call that names no partial, or one that is not there, or with 32 open already, is refused for that |
| PageText.FilterWrites | src/blogin/haml_render.cpp:271-310 | `plain` writes its lines as they are, `escaped` so that undoing the entities gives them, `javascript` and `css` inside their tags, and no other name is a filter |
| PageText.ElementWrites | src/blogin/haml_render.cpp:312-450 | what an element writes is read, by a reader of markup, as its tag with its last id as `id`, its classes as `class` and its other attributes as their values read, flags bare and absent when false or null; then comes a slash, or what the children write and the closing tag |
| PageRefused.LoopsRefused | src/blogin/haml_render.cpp:235-251 | `elsif` and `else` with no `if` above them are refused, and a loop over what is no list |
| PageRefused.FiltersStand | src/blogin/haml_render.cpp:271-310 | a filter is written if and only if it is one of the four and all its holes have values |
| PageRefused.ElementsStand | src/blogin/haml_render.cpp:312-450 | an element is written if and only if its attributes have values and it closes itself, has no children or they are written; otherwise it fails as they do |
| Renderers.FragmentStore.Keep | src/blogin/template_store.cpp:161-165 | an entry is added and none is ever replaced |
| Renderers.FragmentStore.RememberReads | src/blogin/template_store.cpp:177-181 | a site's names are remembered once |
| StoreGrowth.PageGrows | src/blogin/template_store.cpp:143-185 | a page adds to the cache it is given and changes nothing that is there: no entry, no remembered names |
| Scopes.RenderingScoped | src/blogin/haml_render.cpp:65-691 | with a cache or without, every read a rendering makes is answered by the local in force there, or else by the view, every fragment opens with the locals in force, and the locals are at the end what they were |
| RecordingLemmas.FoldKeeps | src/blogin/view_context.cpp:213-274 | what a recording takes to be bound by the fragment is in force, since bindings are dropped whenever locals are taken or put back; so no view value read is ever taken for one |
| Depth.ChildrenShallow | src/blogin/haml_render.cpp:516-521 | with less room for nested partials a rendering runs out of it, or is the same |
| Pages.CacheTransparent | src/blogin/haml_render.cpp:622-691 | over any sequence of pages through one cache, each with its own wrapped text and its own lookup of partials, each page comes out as it does uncached, text or failure, unless the uncached one runs out of room for partials, and a cached text is then the uncached one given room; fragments may nest and may shadow view values inside |
| TidyNames.CacheTransparentWhenTidy | src/blogin/haml_render.cpp:622-691 | the same from a check of the templates: loop variables, `:as` and `:locals` keys are names kept for locals and bound without arithmetic, or what they are given to only reads; and inside fragments only named partials are rendered, which are the same on all pages |
| NamesApart.SafeExactlyWhenApart | src/blogin/haml_render.cpp:622-691 | for any practice of names, wrapped texts, partials and numbers, the cache makes no difference to any site that keeps to it if and only if view values, functions and locals are named apart, partials of fragments write the wrapped text only where it is one text, fragments render only partials that are the same on every page, and they read nothing that may be a floating-point number |
| NamesApart.BaseLayoutIsSafe | specs/corpus/keayl.dev/layouts/base.haml:11-14 | pages that each wrap their own text in a layout with a cached header and a cached footer come out as they do uncached, when those two partials are tidy and the same on all of them |
| CacheLimits.LocalShadowsViewValue | src/blogin/view_context.cpp:205-225 | for any name and any partial, two pages on which a local of the second makes it come out as the first |
| CacheLimits.ValueAnswersForLocal | src/blogin/expression.cpp:1064-1070 | for any name and text, a fragment of `$name` first rendered with a local is given to the next page, which has a value of that text and no local, and uncached fails |
| CacheLimits.YieldIsNotInTheKey | src/blogin/haml_render.cpp:209-215 | for any partial and any two texts, two pages that differ only in the text `yield` writes, the second coming out as the first |
| CacheLimits.PartialLookupIsNotInTheKey | src/blogin/haml_render.cpp:508-514 | for any name, two pages on which it finds two templates, the second coming out as the first |
| CacheLimits.IntegerAndNumberShareAKey | src/blogin/json.cpp:583-602 | for any name and any integer that a number is written as in JSON, two pages with the one and the other, the second coming out as the first |
| CacheLimits.LocalsShareAKey | src/blogin/json.cpp:583-602 | the same of a local given to the partial that has the fragment |
| CacheLimits.ValueHidesFunction | src/blogin/expression.cpp:1072-1088 | for any name, a function on one page and a value on the next: it reads nothing, so the second comes out as the first |
| CacheLimits.LocalHidesFunction | src/blogin/expression.cpp:1072-1088 | the same of a function and a local |
| CacheLimits.UnreplayableIsFoundAllTheSame | src/blogin/haml_render.cpp:654-675 | a fragment that read a name with two values leaves no names to replay, but its entry answers the next page that renders it |
| CacheLimits.ShadowWithinFragment | src/blogin/view_context.cpp:235-274 | the same with no local in scope but the one the fragment gives its own partial |
| RecordedNames.RecordedExactly | src/blogin/view_context.cpp:213-274 | of any run, a name is recorded if and only if it is read somewhere with no binding of it before, but for those after which the locals were put back without it |
| RecordedNames.ReplayableExactly | src/blogin/view_context.cpp:229-242 | of any run, a recording stays replayable if and only if no name it took note of was read with two values of different JSON |
| RecordedNames.LoopVariableRecorded | src/blogin/include/view_context.h:69-72 | a partial of a loop within a loop whose outer variable is recorded, so that no page without that name can be answered by replay |
| DeepPages.CachedPageNestsDeeper | src/blogin/haml_render.cpp:516-521 | two pages, the second of which runs out of room uncached and is written with the cache |
| Lines.SplitLines | src/blogin/text.cpp:110-136 | the lines of a text without their breaks |
| Lines.LinesReadBack | src/blogin/text.cpp:110-136 | lines written out with their breaks are split into themselves |
| Lines.LineEnds | src/blogin/text.cpp:110-136 | a line ends at a break, with a return directly before it counted as part of it; the last line needs none, and then keeps its return |
| Lines.SourceLines | src/blogin/haml.cpp:29-51 | each line with its number, its indentation and its text with and without it |
| Lines.LineTaken | src/blogin/haml.cpp:29-51 | a line written as blanks, content and trailing space is taken as that many characters of indentation and that content; a line of spaces is blank |
| Lines.BlockText | src/blogin/haml.cpp:93-118 | the block's lines joined, all moved left by the least indentation of those that are not blank |
| Lines.BlockIsRows | src/blogin/haml.cpp:93-118 | a block is its lines without the first characters, as many as the least indented of them that is not blank has, with a break between each two |
| Lines.BlockMoves | src/blogin/haml.cpp:93-118 | where a block stands does not matter: moved right as a whole, its text is the same |
| Preserved.UnclosedPreservedTag | src/blogin/haml.cpp:55-91 | the preserved tag a line leaves open, from its marks in order |
| Preserved.LeftOpen | src/blogin/haml.cpp:55-91 | a tag is left open exactly when some opening mark has no preserved opening and no closing of its own name after it, and then it is that one |
| Preserved.MarksReadBack | src/blogin/haml.cpp:55-91 | the tags of a line written out are the marks found in it, in order, opening or closing and by name |
| Interpolation.ParseInterpolated | src/blogin/haml.cpp:744-798 | text becomes its literals and compiled holes, the first failure standing for all |
| Interpolation.SplitExact | src/blogin/haml.cpp:744-798 | splitting succeeds on exactly the texts that well-formed pieces are written as, loses nothing, and gives the only such pieces: literals that open no hole and do not touch, holes with balanced braces |
| Interpolation.CompiledExactly | src/blogin/haml.cpp:744-798 | a text compiles to just the segments of that one splitting: each literal as it is, each hole its expression |
| Attributes.ScanList | src/blogin/haml.cpp:550-595 | an attribute list ends where, outside quotes, its brackets first balance, and at the end of the line when they never do |
| Attributes.ListEndExactly | src/blogin/haml.cpp:555-586 | no other place is where it ends |
| AttributeLists.ListReadsBack | src/blogin/haml.cpp:550-742 | a list written with names bare or quoted, flags, quoted and computed values and hashes nested to any depth reads back as its attributes, each nested one under its key, and ends at its bracket; blanks and commas separate, a value being ended by a comma alone, so that a quoted value goes on to the last quote before one |
| AttributeLists.ValuesRunTogether | src/blogin/haml.cpp:661-694 | two quoted values with no comma between them are one value: `a='1' b='2'` is one attribute whose text is `1' b='2` |
| WrittenLines.ConditionReadsBack | src/blogin/haml.cpp:399-465 | a line written as a dash, `if`, `elsif` or `unless` and an expression reads back as that kind with that condition |
| WrittenLines.LoopReadsBack | src/blogin/haml.cpp:425-454 | a line written as a dash and `for items -> name`, with a `$` or not and any blanks, reads back as that loop |
| WrittenLines.ElseReadsBack | src/blogin/haml.cpp:412-415 | a line of `else` reads back as that branch, whatever is written after it |
| WrittenLines.UnknownExactly | src/blogin/haml.cpp:404-423 | a line that begins with a dash is refused as unknown if and only if the word after it is no keyword |
| WrittenLines.ElementReadsBack | src/blogin/haml.cpp:467-526 | a written element reads back as its tag, its classes in order, its last id, its attributes and its slash, and what follows begins where it ends |
| WrittenLines.BareElementReadsBack | src/blogin/haml.cpp:467-526 | an element alone on its line is that node, with nothing in it |
| WrittenLines.ElementWithTextReadsBack | src/blogin/haml.cpp:522-546 | with text after it, behind a backslash or not, that text is its one child, split into literals and holes in the one way it can be |
| WrittenLines.ElementWithOutputReadsBack | src/blogin/haml.cpp:522-546 | with `=` or `!=` and an expression after it, that is its one child, or the line is refused when the expression is |
| WrittenLines.TextReadsBack | src/blogin/haml.cpp:313-397 | a line that begins with no sign, and any line behind a backslash, is a node of just those segments that say that text |
| WrittenLines.OutputReadsBack | src/blogin/haml.cpp:361-397 | `= value` is output that is escaped, `!= value` output that is not, and refused when the expression is |
| WrittenLines.MarkedLinesReadBack | src/blogin/haml.cpp:313-359 | a doctype, a comment and a filter are named by what follows their sign |
| RefusedLines.TextRefused | src/blogin/haml.cpp:361-379 | a line of text is refused if and only if there is no way to split it into literals and holes |
| RefusedLines.LoopRefused | src/blogin/haml.cpp:425-441 | a loop is refused without an arrow, and without a name after it |
| RefusedLines.MarkRefused | src/blogin/haml.cpp:487-505 | an element is refused when a `.` or `#` after any tag and marks has no name |
| RefusedLines.ListRefused | src/blogin/haml.cpp:507-515 | an element is refused when its attribute list is never closed |
| RefusedLines.NamelessRefused | src/blogin/haml.cpp:597-742 | what begins neither with a quote nor with a character of a name is refused as an attribute |
| WrittenLines.LineKinds | src/blogin/haml.cpp:313-359 | the kind of node a line gives and what the line begins with determine each other |
| HamlParser.Parser.FindBlockEnd | src/blogin/haml.cpp:219-234 | a block ends at the first line no further in, blank lines at its end left out |
| HamlParser.Parser.FindMarkupEnd | src/blogin/haml.cpp:236-253 | a block opened by markup ends past the line that closes the tag, or at the end |
| HamlParser.Parser.AttachBlock | src/blogin/haml.cpp:255-296 | the node with its block attached and the position past it; what that node is, is in `HamlParser.TemplateMirrors` |
| HamlParser.Parser.ParseNode | src/blogin/haml.cpp:151-209 | the node planned for the line at the position, or its first failure, and the position past all it takes |
| HamlParser.Compile | src/blogin/haml.cpp:807-823 | a source becomes the template its outline and lines give, or fails; which tree that is, is in `HamlParser.TemplateMirrors` |
| HamlParser.TemplateMirrors | src/blogin/haml.cpp:124-296 | a source compiles to a tree if and only if that tree is its outline: a node for each planned line, just what that line says, under the node it was planned under, in order; and the lines of every block in its node, moved left and joined by breaks, word for word in a filter and with their holes compiled elsewhere, as a child or, after a break, behind the text the line began |
| HamlParser.FirstFailure | src/blogin/haml.cpp:124-296 | a source that does not compile fails with the failure of the first line of its outline that is no node, or whose block is no text |
| Outline.CapturesExactly | src/blogin/haml.cpp:151-209 | a line that leaves a preserved tag open takes the lines to where it is closed, a `pre` or `textarea` element and a filter those further in, and no other line any |
| Outline.BlocksEnd | src/blogin/haml.cpp:219-253 | where each block ends: before the first line not further in, blank lines before that left out, or after the first that closes the tag |
| Outline.EveryLineUsed | src/blogin/haml.cpp:124-253 | every line that is not blank is used exactly once and in order, as a node or inside the one block that takes it |
| Outline.ParentsFollowIndentation | src/blogin/haml.cpp:189-208 | each node is under the last node before it that is less far in and takes children, a block less far in having closed all that are not further out |
| Outline.IndentationAlone | src/blogin/haml.cpp:189-208 | when no line opens a block, each line that is not blank is a node under the last one before it that is strictly less far in, or the root |
| EditDistance.Compute | src/blogin/config.cpp:90-111 | the two rows give the table's last entry |
| EditDistance.DistanceIsCheapest | src/blogin/config.cpp:90-111 | that entry is the cost of a cheapest script of insertions, deletions and replacements from one text to the other |
| EditDistance.DistanceIsMetric | src/blogin/config.cpp:90-111 | it is zero only for equal texts, symmetric, and obeys the triangle inequality |
| EditDistance.NearestKeyHint | src/blogin/config.cpp:115-134 | the hint names the first closest known key, and there is none exactly when every key is further than 3 |
| WorkSharing.AsksSerial | specs/support/spec.cpp:40-48 | a group is serial when it or a group around it says so |
| WorkSharing.SerialExactly | specs/support/spec.cpp:40-48 | it does so exactly when some group from its own outwards is marked serial |
| WorkSharing.Divide | specs/support/spec.cpp:433-442 | every example is in one of the two lists, once, the exclusive one just the serial examples |
| WorkSharing.RunSound | specs/support/spec.cpp:446-488 | what every step keeps, in any interleaving: each position handed out is held by one worker or done with, slots are filled as examples end, exclusive examples wait |
| WorkSharing.EveryExampleOnce | specs/support/spec.cpp:460-488 | a run that finishes, with any number of workers and any interleaving, has begun and ended every example exactly once and filled every slot |
| WorkSharing.EveryExampleOnceWith | src/blogin/workers.cpp:29-48 | the same for any number of jobs asked for and of threads the system started, none included |
| WorkSharing.ExclusiveAfterConcurrent | specs/support/spec.cpp:477-488 | no exclusive example begins before the last event of a concurrent one |
| WorkSharing.WritesOwnSlot | specs/support/spec.cpp:462-472 | a step writes at most the slot of the example it ends, which was empty |
| WorkSharing.EveryActionProgresses | specs/support/spec.cpp:460-475 | every step leaves less to do, so every schedule ends |
| WorkSharing.SomeActionCanBeTaken | specs/support/spec.cpp:460-488 | until the run is finished some step can be taken |
| Minify.MinifyCss | src/blogin/assets.cpp:120-201 | one pass over the characters gives the minified tokens' text |
| Minify.PassIsMinified | src/blogin/assets.cpp:120-201 | looking back at what was written to drop a semicolon is dropping, beforehand, each that a closing brace follows |
| Minify.MinifiedReadsBack | src/blogin/assets.cpp:120-201 | the output, read again, is just the tokens it was made of: strings word for word, nothing joined, no comment opened |
| Minify.MinifiedKeepsContent | src/blogin/assets.cpp:120-201 | all content but idle semicolons is kept in order, no comment is left, and no space is at an end, doubled or beside structural punctuation |
| Minify.MinifiedSaysTheSame | src/blogin/assets.cpp:120-201 | sign by sign and word by word, a minified stylesheet is the stylesheet without the semicolons directly before a closing brace: words stay apart, and none is split |
| Minify.CommentsTaken | src/blogin/assets.cpp:133-142 | a comment goes through the first sign that closes it, or to the end |
| Minify.StringsTaken | src/blogin/assets.cpp:145-168 | a string goes through the first of its quotes that is not escaped, or to the end |
| Minify.OthersTaken | src/blogin/assets.cpp:170-198 | any other character is space, a structural sign or a character of a word, by which it is |
| Minify.MinifiedAgainExactly | src/blogin/assets.cpp:181-192 | minifying again changes nothing if and only if nowhere in the content two semicolons stood directly before a closing brace |
| Minify.TwoSemicolonsTwoPasses | src/blogin/assets.cpp:181-192 | `;;}` becomes `;}` and then `}` |
| References.RewriteRefs | src/blogin/assets.cpp:238-283 | one pass gives the text with its references renamed |
| References.WordsRenamed | src/blogin/assets.cpp:238-283 | what stands between two delimiters, or the ends of the text, is renamed when it begins with a slash, has a delimiter before it and is in the manifest, and is kept otherwise; what is before and after is rewritten on its own |
| References.RewritingBack | src/blogin/assets.cpp:238-283 | rewriting with the inverse manifest restores the text if and only if the text referred to no new name that is not itself renamed |
| ImageSizes.JpegSize | src/blogin/assets.cpp:463-503 | the walk over a JPEG's segments ends on every input and reads only inside it |
| ImageSizes.JpegSizeExact | src/blogin/assets.cpp:463-503 | a size is read exactly when the bytes are well-formed segments with any fill and then one of the thirteen frame headers, of that size, neither side zero |
| Highlight.Render | src/blogin/highlight.cpp:121-200 | the code's pieces in order, marked up |
| Highlight.HighlightingIsLossless | src/blogin/highlight.cpp:74-200 | for every code and language, taking the tags out and undoing the entities gives the code |
| Highlight.PieceKinds | src/blogin/highlight.cpp:138-190 | a comment span begins with the marker and holds no line break, a string span is closed by its own quote, a number span is digits and points, a keyword span a keyword |
| Highlight.CommentsMarked | src/blogin/highlight.cpp:141-148 | a comment is marked, from its sign to the end of the line |
| Highlight.StringsMarked | src/blogin/highlight.cpp:150-162 | a string is marked, through the first of its quotes that is not escaped |
| Highlight.UnclosedBare | src/blogin/highlight.cpp:150-162 | a quote that nothing closes stands bare |
| Highlight.WordsMarked | src/blogin/highlight.cpp:164-196 | digits and points are marked as one number, a keyword as a keyword when it is the whole word, and anything else stands bare |
| Highlight.LanguagesNamed | src/blogin/highlight.cpp:66-131 | the language is named by the first word of the info string in small letters, and code in one that is not known is only escaped |
| Http.ParseRequest | src/blogin/http.cpp:42-118 | what a buffer holds: a request, part of one, or something that is none |
| Http.ReadyIsStable | src/blogin/http.cpp:42-118 | a request that is ready has a length from 1 to the buffer's, and is the same with anything after it or nothing |
| Http.WrittenReadsBack | src/blogin/http.cpp:42-118 | a well-formed request, written with a path, a query or none, a version and headers, is read back with its method, target, path, version, first header of each name, and length |
| Http.AskedExactly | src/blogin/http.cpp:56-117 | of any buffer, what comes before a blank line is a request if and only if its first line has a method, a target and a version and each other line a colon or nothing; its path is what its target begins with up to a question mark |
| Http.StateExactly | src/blogin/http.cpp:42-54 | without a blank line a buffer is incomplete up to 65536 bytes and malformed beyond, and with one it is never incomplete |
| Http.ServeConnection | src/blogin/server.cpp:488-523 | requests are read off what is in hand before more is received |
| Http.RequestsHoweverCut | src/blogin/server.cpp:488-523 | well-formed requests sent one after another are read as just those requests with nothing left over, however the bytes are cut into chunks |
| Cli.Parse | src/blogin/cli.cpp:117-290 | the command a list of arguments asks for, or what is wrong with it |
| Cli.LongFormMeansTheSame | src/blogin/cli.cpp:149-196 | every argument list means what it means with each run of letters written as long options |
| ShortLines.ShortLineReadsBack | src/blogin/cli.cpp:99-115 | a command written in short form, its switches run together and a value option last in a run, is read back as the settings and switches its letters stand for in the usage text, unless some argument asks for the version |
| ShortLines.LettersExactly | src/blogin/cli.cpp:154-175 | a run is refused at its first letter that is none, or that takes a value and is not last |
| ShortLines.ArgumentsRefused | src/blogin/cli.cpp:177-276 | what else an argument is refused for: a second subject or an unwanted one, no such option, no value, or no number where one is wanted |
| ShortLines.NumbersExactly | src/blogin/cli.cpp:78-87 | a number is an optional minus and digits, all of the text, within 32 bits |
| ShortLines.CommandsExactly | src/blogin/cli.cpp:117-142 | no command and an unknown one are refused, `new` wants a title, and `init` begins where one is |
| Cli.SubjectMovesOnLine | src/blogin/cli.cpp:144-196 | on a whole command line the subject may be moved past options and their value, from wherever it stands: the same command comes of it, or none on either side |
| Cli.LineReadsBack | src/blogin/cli.cpp:117-290 | a command written in long form is read back as itself, unless some argument asks for the version, and then as that |
| Slug.Slugify | src/blogin/slug.cpp:32-64 | one pass gives the words of the lowered text joined by hyphens |
| Slug.SlugExactly | src/blogin/slug.cpp:10-64 | a title written as words, signs and anything between them has the slug of its words in small letters, `plus`, `sharp` and `and` for the signs, joined by hyphens |
| Slug.SlugIsTidy | src/blogin/slug.cpp:32-64 | a slug has no hyphen at an end and none doubled, and making a slug of it changes nothing |

## Left out

- Evaluation.RunBinary: compares and adds over exact reals and unbounded integers, where the code has doubles and 64-bit integers; large integers that doubles cannot tell apart compare as equal there and not here.
- TidyNames.CacheTransparentWhenTidy: refuses computed `:locals` and `:as` and bindings that do arithmetic, unless the partial is named outright and only reads, and partials that a fragment names by an expression; such sites are under `Pages.CacheTransparent`, whose condition is on the runs.
- NamesApart.SafeExactlyWhenApart: is of sites that have a page and whose names have no equals sign in them, as none in an expression has.
- Object members keep no order: objects are maps, so iteration order over them is not modelled.
- Numbers: floating-point numbers are reals, and their conversions to and from text and to JSON are given with the view; negative zero and what is not finite are no reals, so the keys they share with zero and with null are not shown.
- A cached site is told apart by its compiled expression rather than by its address.
- Error messages, lines and columns of errors, and "did you mean" text inside views; errors are kinds.
- The cache's locks and hit counters, and pages rendered at the same time: pages go through the cache one after another.
- Template inheritance and lookup on disk: a partial is found by name in a map that stays the same over a page and may differ between pages.
- Http.ServeConnection: does not model closing after a response, WebSocket upgrades, or writing responses; it is the reading of requests.
- Cli.Parse: does not model the text of usage and errors.
- WorkSharing.RunSound: does not model the printing lock or what an example does; an example is a step that gives an outcome.
- PageText.ElementWrites: is of tags and attributes whose names have no space, quote, angle bracket, slash or equals sign; a quoted attribute name may hold them and is written as it is, so that a reader may take it for something else; what is written for any names is `PageText.TagWritten`.
- Highlight.Render: the table of languages is a parameter; its comment markers are the ones the source has.
- The PNG, GIF and WebP size readers, which are one expression each.
- Filesystem access, external image tools, the feeds, Markdown, JSON and YAML readers, the preview server's sockets, and calendar arithmetic.
