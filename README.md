# ts-mustache type inference, modelled in Dafny

This project models the part of ts-mustache that turns Mustache templates into
TypeScript declarations. The work has two steps.

1. **Graph builder** (`Parser`, src/declarations/parser.ts). It folds the token
   list of each template into one shared graph of TEMPLATE, VALUE and SECTION
   nodes.
   - A child's id is its parent's id, `_`, then its key. A path seen a second
     time therefore reuses its nodes.
   - A partial becomes an edge to a TEMPLATE node whose id is the partial's
     bare name.
2. **Resolver and serialiser** (`Renderer`, src/declarations/renderer.ts). It
   walks the graph and builds a table from node id to a resolution. A
   resolution is a type name plus, for each property key, a list of candidate
   hints. It then writes:
   - one `interface` or `type` declaration per resolution;
   - the utility types those declarations use;
   - `TemplateMap`, `TemplateName` and `TEMPLATES`.

How the model is laid out:

- **`Types`**: the span kinds and their codes, the three node variants, and the
  errors. A thrown error becomes a `Failure` value.
- **`Graph`**: stands in for the graph library. Nodes are kept by id in
  insertion order. Each node has an ordered, duplicate-free list of edge
  targets.
- **`Parser`**: `With*` functions say what each builder method does to the
  graph. The lemmas about them are the builder's properties. The class
  `Parser.Parser` updates its graph and its template list in place, and each
  method is proved to leave exactly the graph its function gives.
- **`Naming`**: `upperFirst`, `namespaceFor`, and the names of nested types.
- **`Resolution`**: resolving as functions on the table, plus what resolving
  keeps.
- **`Declarations`**: the line for each property, the declaration for each
  resolution, and the utility types each one records.
- **`Output`**: the whole of `toString` as one function, `Render`, plus its
  properties. `Render` takes a switch, `Alias`, that says whether the alias
  of an all-SELF resolution records the VALUE utility type. The source's
  `toString` is `Render` with `AsWritten`. `Corrected` is the repair
  described under Findings.
- **`Renderer`**: the class `Renderer.Renderer`, which holds `resolutions` and
  `utilityTypesUsed`. Each method is proved to return, and to leave behind,
  exactly what the functions above give for the state it started from.
  - The loops of `toString` are written as helper methods, one per loop.
  - So are the loop of `resolveNode` and its per-child body.

Details of how the source's behaviour is represented:

- **Termination of `resolveNode`.** `resolveNode` has no cycle guard. The
  resolver therefore takes a ghost `rank` as its precondition: every edge
  strictly lowers the rank, so the graph is acyclic, and recursion descends
  along the rank.
- **The deletion is safe.** Ids at or above the current bound are never
  deleted. Hence the resolution the source holds a reference to is always the
  one stored under its id. The source's final `resolutions.set(id, resolution)`
  stores it again and changes nothing.
- **Thrown errors.** The errors the source throws are:
  - `Missing spans for section`;
  - `upperFirst` of an empty key;
  - `Unknown template: <name>`.

  Each is returned as a value, together with the state reached when the throw
  happens.

## Model

| member | source | states |
|---|---|---|
| Types.CodeRoundTrip | src/declarations/types.ts:5-14 | reading back the code of any of the eight span kinds gives that kind |
| Types.SpanTypeOfCode | src/declarations/types.ts:5-14 | a code is read as a kind only when it is exactly that kind's code |
| Types.CodesDistinct | src/declarations/types.ts:5-14 | the eight span codes are pairwise distinct |
| Types.AssertExhaustiveCheck | src/declarations/types.ts:36-49 | never returns normally; the error always carries the offending instance and has `isUnexpected` set |
| Graph.AddNodeValid | src/declarations/parser.ts:25-27 | adding an absent node keeps the graph's invariant and only extends the graph |
| Graph.AddEdge | src/declarations/parser.ts:29 | the target is appended last to the source's edge list unless it is there already, in which case the graph is unchanged; no node and no other edge list changes |
| Graph.AddEdgeValid | src/declarations/parser.ts:29 | an edge between stored nodes keeps the graph's invariant; any edge only extends the graph |
| Graph.EdgesFrom | src/declarations/renderer.ts:133 | the children are the stored nodes of the edge targets, in edge order |
| Graph.Nodes | src/declarations/renderer.ts:244 | every stored node once, in insertion order |
| Parser.JoinIdInjective | src/declarations/parser.ts:5-7 | under one parent, two keys give the same child id exactly when they are equal |
| Parser.ChainIdsDistinct | src/declarations/parser.ts:5-7 | the ids along a dotted path are pairwise distinct |
| Parser.JoinSplit | src/declarations/parser.ts:52-57 | joining the pieces of `split('.')` with dots gives the name back |
| Parser.SplitJoin | src/declarations/parser.ts:52-57 | splitting the dotted join of dot-free pieces gives those pieces back |
| Parser.Rest | src/declarations/parser.ts:52-57 | the rest of a dotted name is what follows its first dot, and splits into the remaining pieces |
| Parser.WithChild | src/declarations/parser.ts:20-32 | stores the node only when its id is absent and returns the node stored under the id; the child's id is appended last to the parent's edge list unless already there; no other node or edge list changes |
| Parser.WithChildPresent | src/declarations/parser.ts:20-32 | when the node is stored and linked already, `ensureChild` changes nothing and returns the stored node |
| Parser.WithChildValid | src/declarations/parser.ts:20-32 | under a stored parent, `ensureChild` keeps the graph's invariant |
| Parser.WithChildGrows | src/declarations/parser.ts:20-32 | `ensureChild` never overwrites a node and never drops an edge |
| Parser.WithPartial | src/declarations/parser.ts:67-73 | the bare name is stored as a TEMPLATE node when it is absent and appended last to the parent's edge list unless already there; no other node or edge list changes |
| Parser.WithValueChainKeys | src/declarations/parser.ts:46-59 | merging `a.b.c` under `p` adds exactly the nodes `p_a`, `p_a_b` and `p_a_b_c` |
| Parser.WithValueChainNodes | src/declarations/parser.ts:46-59 | each node the merge adds is a VALUE node keyed by its piece of the path |
| Parser.WithValueChainEdges | src/declarations/parser.ts:46-59 | for a path that never reaches a bare `.` under a SECTION: the edge list of `p` gains exactly `p_a` at its end (unless present), that of `p_a` exactly `p_a_b`, and so on; every other node's edges are unchanged |
| Parser.WithValueIdempotent | src/declarations/parser.ts:46-59 | merging the same path a second time changes nothing |
| Parser.WithValueAbsorbed | src/declarations/parser.ts:46-59 | any graph that extends the result of a merge is unchanged by the same merge |
| Parser.DotUnderSection | src/declarations/parser.ts:47-50 | a bare `.` under a SECTION adds exactly one VALUE child keyed `.` |
| Parser.DotElsewhere | src/declarations/parser.ts:47-58 | a bare `.` under any other parent is split on its dot: the graph gains exactly `p_` and `p__`, and any new one is a VALUE node keyed by the empty string |
| Parser.WithValueValid | src/declarations/parser.ts:46-59 | merging a value keeps the graph's invariant |
| Parser.WithSectionChainKeys | src/declarations/parser.ts:75-95 | an empty section succeeds and adds exactly the path's nodes |
| Parser.WithSectionChainNodes | src/declarations/parser.ts:75-95 | of the nodes the section adds, the last is a SECTION node and the others are VALUE nodes, even when the section is empty |
| Parser.WithSectionChainEdges | src/declarations/parser.ts:75-95 | the edge list of each node's predecessor on the path (the parent's, for the first) gains exactly that node's id at its end (unless present); no other edges change |
| Parser.WithSectionFillsLast | src/declarations/parser.ts:75-95 | the nested spans are merged into the node under the path's last id, once the path is built |
| Parser.WithSectionValid | src/declarations/parser.ts:75-95 | merging a section keeps the graph's invariant |
| Parser.SectionSpan | src/declarations/parser.ts:110-118 | a section or inverted span that carries its nested list merges that list as a section |
| Parser.InvertedLikeSection | src/declarations/parser.ts:110-118 | an inverted section leaves the same graph and error as a normal section with the same name and payload |
| Parser.MissingSpansStop | src/declarations/parser.ts:110-116 | a section or inverted span without a nested list fails with `MissingSpans` at once, leaving the graph as it was |
| Parser.InertSpansChangeNothing | src/declarations/parser.ts:120-123 | text, comment and delimiter spans leave the graph alone and raise no error |
| Parser.WithSpanValid | src/declarations/parser.ts:98-125 | merging any span keeps the graph's invariant |
| Parser.WithSpansValid | src/declarations/parser.ts:97-126 | merging a span list keeps the graph's invariant |
| Parser.WithSpansGrows | src/declarations/parser.ts:97-126 | merging spans never overwrites a node and never drops an edge |
| Parser.WithTemplateValid | src/declarations/parser.ts:128-141 | adding a template keeps the graph valid, only extends it, and leaves its root stored |
| Parser.Parser.constructor | src/declarations/parser.ts:13-14 | a new builder has an empty graph and no template names |
| Parser.Parser.Templates | src/declarations/parser.ts:16-18 | returns the registered names, as a value the caller cannot change |
| Parser.Parser.EnsureChild | src/declarations/parser.ts:20-32 | leaves exactly the graph `ensureChild` gives and returns the node stored under the child's id |
| Parser.Parser.EnsureValue | src/declarations/parser.ts:34-40 | stores or reuses the VALUE child `parent_name` and returns it |
| Parser.Parser.MergeValue | src/declarations/parser.ts:46-59 | leaves exactly the graph of merging the dotted path; the template names are untouched |
| Parser.Parser.MergePartial | src/declarations/parser.ts:67-73 | leaves exactly the graph of linking the partial's TEMPLATE node; the template names are untouched |
| Parser.Parser.MergeSection | src/declarations/parser.ts:75-95 | leaves exactly the graph and error of merging the section |
| Parser.Parser.MergeSpan | src/declarations/parser.ts:98-125 | one pass of the span loop: exactly the graph and error that span gives |
| Parser.Parser.MergeSpans | src/declarations/parser.ts:97-126 | the spans in order, stopping at the first error |
| Parser.Parser.AddTemplate | src/declarations/parser.ts:128-144 | creates the root only if it is missing, then merges the spans; the name is appended exactly when no error is thrown |
| Naming.Upper | src/declarations/renderer.ts:69 | lower-case ASCII letters become upper-case; every other character is unchanged |
| Naming.UpperFirst | src/declarations/renderer.ts:68-70 | fails exactly on the empty string; otherwise the first character is upper-cased and the rest is unchanged |
| Naming.UpperFirstIdempotent | src/declarations/renderer.ts:68-70 | upper-casing the first character twice is the same as doing it once |
| Naming.SanitizeAllWord | src/declarations/renderer.ts:73 | the sanitised name is made of `[A-Za-z0-9_]` only |
| Naming.SanitizeKeepsWords | src/declarations/renderer.ts:73 | a name made of word characters is left as it is |
| Naming.SanitizeIdempotent | src/declarations/renderer.ts:73 | sanitising twice is the same as sanitising once |
| Naming.SanitizeLength | src/declarations/renderer.ts:73 | sanitising never lengthens a name, and keeps a non-empty name non-empty |
| Naming.SanitizeRun | src/declarations/renderer.ts:73 | a whole run of non-word characters becomes a single `_` |
| Naming.NamespaceForShape | src/declarations/renderer.ts:72-74 | a namespace exists exactly when the template name is non-empty; it is a non-empty identifier; an identifier that starts with a capital is kept as it is |
| Naming.NestedName | src/declarations/renderer.ts:115 | fails exactly on an empty key; otherwise it is the namespace followed by the key, with the key's first character upper-cased |
| Resolution.AddCandidateAppends | src/declarations/renderer.ts:82-92 | the candidate goes last in its key's list, a new key gets a one-element list, and the type name and every other key are unchanged |
| Resolution.ResolveNode | src/declarations/renderer.ts:94-169 | afterwards `id` has a resolution, and no id ranked at or above the bound has lost its resolution |
| Resolution.ResolveNodeSettled | src/declarations/renderer.ts:99-108 | the resolution of `id` is named `ns` only when it is new, is only ever appended to, and every other id at or above the bound keeps its resolution |
| Resolution.ResolveChildrenSettled | src/declarations/renderer.ts:110-166 | the loop over the children only appends to the resolution of `id` and leaves higher resolutions alone |
| Resolution.ResolveChildSettled | src/declarations/renderer.ts:111-165 | folding in one child only appends to the resolution of `id` and leaves higher resolutions alone |
| Resolution.ResolveNodeWf | src/declarations/renderer.ts:94-169 | resolving keeps the table well formed: the order lists each stored id once, and every key has a candidate |
| Resolution.SectionChildOutcome | src/declarations/renderer.ts:112-131 | a SECTION child with an empty key fails; otherwise, when resolving leaves the child without keys, the parent gets OPTIONAL and the child's resolution is deleted, and when it has keys, the parent gets SECTION with the child's type name `ns + UpperFirst(key)` |
| Resolution.EmptySectionOptional | src/declarations/renderer.ts:112-131 | an empty section met for the first time leaves exactly an OPTIONAL candidate in the parent: the table is otherwise as it was |
| Resolution.DeleteStored | src/declarations/renderer.ts:119-122 | deleting a resolution stored after the parent's update undoes the store and keeps the update |
| Resolution.LeafValueOutcome | src/declarations/renderer.ts:133-142 | a VALUE child without edges adds SELF (carrying the child id) for key `.` and VALUE otherwise; nothing else changes |
| Resolution.NestedValueOutcome | src/declarations/renderer.ts:143-154 | a VALUE child with edges and an empty key fails; otherwise it is resolved and the parent gets RECORD with the child's type name |
| Resolution.PartialInlined | src/declarations/renderer.ts:157-161 | a TEMPLATE child merges the partial's children into the current id and namespace and adds no candidate of its own |
| Resolution.ResolveTemplate | src/declarations/renderer.ts:171-175 | a template without a namespace fails and leaves the table as it was; when no error is thrown, the template's id has a resolution whose type name is the one it had, or else the template's namespace |
| Declarations.FirstSelf | src/declarations/renderer.ts:199-200 | the position of the first SELF candidate: none comes before it |
| Declarations.PropertyLineSelf | src/declarations/renderer.ts:199-200 | a key whose candidates include a SELF becomes the placeholder comment |
| Declarations.PropertyLineKey | src/declarations/renderer.ts:214-216 | without a SELF, the line starts with two spaces and the key, followed by `?` exactly when some candidate is SECTION or OPTIONAL |
| Declarations.OptionalIffLambda | src/declarations/renderer.ts:189-207 | the key is marked optional exactly when the lambda utility type is recorded |
| Declarations.PropertyUtilitiesBeforeSelf | src/declarations/renderer.ts:183-212 | a utility type is recorded exactly when a candidate before the first SELF uses it |
| Declarations.RecordedElements | src/declarations/renderer.ts:183-212 | a utility type is recorded exactly when some candidate's kind uses it |
| Declarations.DedupElements | src/declarations/renderer.ts:214 | `Array.from(new Set(..))` keeps exactly the same elements and repeats none |
| Declarations.DedupDistinct | src/declarations/renderer.ts:214 | a list without repeats is left as it is |
| Declarations.DedupAbsorbs | src/declarations/renderer.ts:214 | appending elements that are already present changes nothing |
| Declarations.PropertyLineAbsorbs | src/declarations/renderer.ts:177-217 | repeating candidates already present changes neither the line nor the recorded utility types |
| Declarations.RecordedClosed | src/declarations/renderer.ts:183-212 | whatever a property records includes every utility type that the recorded types' own definitions use |
| Declarations.TypeStringFramed | src/declarations/renderer.ts:229-236 | an interface with properties puts one line per key, in key order, between an empty first and last line |
| Declarations.KeysUtilitiesCover | src/declarations/renderer.ts:229-233 | the types recorded for the property lines include every utility type those lines name, and are closed |
| Declarations.AliasLeavesValueUndefined | src/declarations/renderer.ts:225-227 | as written, the alias for an all-SELF resolution names `MustacheValue` but records no utility type |
| Declarations.TypeUtilitiesCover | src/declarations/renderer.ts:219-237 | with the alias corrected to record VALUE, every utility type a declaration names is recorded, and the recorded set is closed |
| Output.FirstUnknown | src/declarations/renderer.ts:254-259 | nothing is found exactly when every visited template is registered; otherwise the one found was visited and never registered |
| Output.UnknownTemplateStops | src/declarations/renderer.ts:254-259 | after resolving, `toString` fails exactly when some TEMPLATE node was never registered; the error names the first such node, and the recorded utility types are unchanged |
| Output.TemplateMapEntry | src/declarations/renderer.ts:247-248 | a template resolved without error enters, under its id, the type name it already had, or else its namespace |
| Output.NoTemplatesLeft | src/declarations/renderer.ts:244-250 | the loop over the nodes passes over every node that is not a TEMPLATE |
| Output.TemplateMapOrder | src/declarations/renderer.ts:244-250 | when no error is thrown, the ids in the template map are exactly the TEMPLATE node ids, in graph-node order, after those already there |
| Output.TemplateIdsDistinct | src/declarations/renderer.ts:247-248 | each template id appears once, so neither the record nor the set loses an entry |
| Output.ResolveTemplatesWf | src/declarations/renderer.ts:244-250 | resolving every template keeps the table well formed |
| Output.UtilityTextsChosen | src/declarations/renderer.ts:266-271 | every used utility type's definition is emitted, everything emitted is a used type's definition, and there are no more definitions than utility types |
| Output.UtilityOrderComplete | src/declarations/renderer.ts:7-50 | every utility type appears in the declaration order |
| Output.DeclaredCover | src/declarations/renderer.ts:261-264 | with the alias corrected, writing the declarations records every utility type they name, and the recorded set is closed |
| Output.RenderAfterPass | src/declarations/renderer.ts:239-287 | once the templates are resolved, a resolving error or an unknown template fails; otherwise the output is the utility definitions, the declarations and the three template texts, joined by blank lines |
| Output.Render | src/declarations/renderer.ts:239-288 | `toString` as a function: the recorded utility types only grow, are unchanged when an error is thrown, and on success the table left behind is well formed |
| Output.RenderSucceeds | src/declarations/renderer.ts:239-288 | a resolving pass without error whose templates are all registered makes `toString` succeed, recording the utility types of every declaration |
| Output.RenderDefinesWhatItNames | src/declarations/renderer.ts:239-287 | with the alias corrected, on success every utility type any declaration names is defined in the output, along with the types its definition uses |
| Output.ItemsGraphBuilt | src/declarations/parser.ts:75-141 | the template `{{#items}}{{{.}}}{{/items}}` builds the graph TEMPLATE `test`, SECTION `test_items`, VALUE `test_items_.`, linked in that order |
| Output.RenderLeavesValueUndefined | src/declarations/renderer.ts:219-288 | as written, `toString` on that graph succeeds and declares `type TestItems = MustacheValue`, yet records only the two section utility types, so `MustacheValue` is not defined |
| Output.RenderCorrectedDefinesValue | src/declarations/renderer.ts:219-288 | with the alias corrected, the same call records VALUE and its definition is among those emitted |
| Renderer.Renderer.constructor | src/declarations/renderer.ts:76-80 | a new renderer keeps the parser, and starts with no resolutions and no utility types |
| Renderer.Renderer.AddCandidate | src/declarations/renderer.ts:82-92 | appends the candidate to the key's list in the resolution of `id`, creating the list if missing |
| Renderer.Renderer.ResolveNode | src/declarations/renderer.ts:94-169 | leaves exactly the table and error of resolving `id` from the state it started in; the utility types are untouched |
| Renderer.Renderer.ResolveChildren | src/declarations/renderer.ts:110-166 | the loop of `resolveNode`: each child in edge order, stopping at the first error |
| Renderer.Renderer.ResolveChild | src/declarations/renderer.ts:111-165 | the loop body for one child, for each of the three kinds |
| Renderer.Renderer.ResolveSectionChild | src/declarations/renderer.ts:112-131 | the SECTION case: OPTIONAL plus deletion, or SECTION |
| Renderer.Renderer.ResolveValueChild | src/declarations/renderer.ts:132-156 | the VALUE case: SELF or VALUE for a leaf, RECORD otherwise |
| Renderer.Renderer.ResolveTemplate | src/declarations/renderer.ts:171-175 | leaves exactly the table and error of resolving the template from the state it started in; the utility types are untouched |
| Renderer.Renderer.PropertyString | src/declarations/renderer.ts:177-217 | returns the property line and adds exactly the utility types of the candidates before the first SELF |
| Renderer.Renderer.ResolutionToTypeString | src/declarations/renderer.ts:219-237 | returns the declaration and adds the utility types the source records for it: those of its property lines, and nothing for an alias |
| Renderer.Renderer.ResolveAllTemplates | src/declarations/renderer.ts:244-250 | the first loop of `toString`: every TEMPLATE node resolved in graph order, its type name entered in the map, stopping at an error |
| Renderer.FirstUnknownTemplate | src/declarations/renderer.ts:254-259 | finds the first visited template that was never registered |
| Renderer.Renderer.WriteDeclarations | src/declarations/renderer.ts:261-264 | one declaration per stored resolution, in the order first stored; adds the utility types the source records for them |
| Renderer.UtilityDefinitions | src/declarations/renderer.ts:266-271 | the definitions of the used utility types, in declaration order |
| Renderer.Renderer.ToString | src/declarations/renderer.ts:239-288 | returns the output, and leaves the table and utility types, that `Render` with the source's alias gives for the starting state |

## Left out

- The token lists that `mustache.parse` produces are an input datatype. The
  `mustache` library is not part of this model.
- The graph library is replaced by the `Graph` module. Its own cycle check in
  `addEdge` is not modelled. The resolver instead takes a rank that every edge
  lowers as a ghost precondition. `edgesFrom` returns a set in the library and
  a duplicate-free sequence in insertion order here.
- Naming.Upper: upper-cases ASCII letters only. JavaScript's `toUpperCase`
  also maps other Unicode letters.
- Integer-like property keys are assumed absent. JavaScript lists such keys of
  `r.candidates` first in numeric order; the model keeps the order in which
  keys were first given a candidate.
- Keys named after `Object.prototype` members (such as `constructor`) are
  assumed absent. On the `{}` candidates object such a key already reads as
  defined.
- The `templateMap` record and the `templatesVisited` set are sequences
  appended in node order. Output.TemplateIdsDistinct shows that no id repeats,
  so nothing is lost by that choice.
- `assertExhaustiveCheck` is modelled but never called. Every `match` in the
  model is exhaustive, so the source's `default` branches cannot be reached.
- The exact text of the error thrown by `upperFirst('')` is the host's; a
  constant stands in for it.
- Partials inside nested sections are left as the code resolves them. The
  source's own test for that case is disabled and its behaviour undecided.
- `TemplateMap` and `TEMPLATES` follow graph-node order, as the code does,
  rather than registration order. A template first met as a partial appears
  where that partial's node was inserted.
- Output.DeclaredCover: stated for the corrected alias only. As written, an
  alias names `MustacheValue` without recording VALUE (see Findings).
- Output.RenderDefinesWhatItNames: stated for the corrected alias only, for
  the same reason.
- Declarations.TypeUtilitiesCover: stated for the corrected alias only, for
  the same reason.
- Calling `toString` twice is not proved to give the same output. The second
  call appends each candidate a second time, and re-creates and deletes each
  empty section. `Declarations.PropertyLineAbsorbs` and
  `Declarations.DedupAbsorbs` show that repeated candidates change no line;
  a proof over a whole second pass is not part of this model.

## Findings

| source | as written | input that shows it | evidently intended | confidence | as-written member | corrected member |
|---|---|---|---|---|---|---|
| src/declarations/renderer.ts:225-227 | an all-SELF resolution becomes `type N = MustacheValue` without recording VALUE, so the output can use `MustacheValue` without defining it | the single template `{{#items}}{{{.}}}{{/items}}`: the section's resolution holds only SELF, nothing else records VALUE, and the output references an undefined `MustacheValue` | the alias records VALUE, like every other fragment that names `MustacheValue` | not executed | Output.RenderLeavesValueUndefined | Output.RenderCorrectedDefinesValue |

The class `Renderer.Renderer` follows the source as written: its `toString`
is `Output.Render` with `AsWritten`. The repair is `Render` with
`Corrected`, where the alias records VALUE. `Output.DeclaredCover` and
`Output.RenderDefinesWhatItNames` are proved for that repaired renderer.
