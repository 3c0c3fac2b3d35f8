/**
 * The class `Renderer` of src/declarations/renderer.ts: it owns the table of
 * resolutions and the set of utility types used, and updates both in place.
 * Each method is proved to leave exactly the state, and return exactly the
 * result, that the functions of `Resolution`, `Declarations` and `Output`
 * give for the state it started from.
 */
module Renderer {
  import opened Wrappers
  import T = Types
  import G = Graph
  import P = Parser
  import opened Naming
  import R = Resolution
  import opened Declarations
  import opened Output

  class Renderer {
    /** The parser whose graph is rendered; the renderer never changes it. */
    const parsed: P.Parser
    /** The resolutions, keyed by node id, in the order first stored. */
    var resolutions: R.Table
    var utilityTypesUsed: set<Utility>

    ghost predicate Valid()
      reads this, parsed
    {
      parsed.Valid() && R.WfTable(resolutions)
    }

    constructor (parsed: P.Parser)
      ensures this.parsed == parsed && resolutions == R.EmptyTable && utilityTypesUsed == {}
    {
      this.parsed := parsed;
      resolutions := R.EmptyTable;
      utilityTypesUsed := {};
    }

    /** `addCandidate`, on the resolution stored under `id`. */
    method AddCandidate(id: string, key: string, c: R.Candidate)
      requires id in resolutions.entries
      modifies this
      ensures resolutions == R.AddTo(old(resolutions), id, key, c)
      ensures utilityTypesUsed == old(utilityTypesUsed)
    {
      var resolution := resolutions.entries[id];
      if key !in resolution.candidates {
        resolution := resolution.(keys := resolution.keys + [key], candidates := resolution.candidates[key := []]);
        assert resolution.candidates[key] + [c] == [c];
        assert resolution.candidates[key := [c]] == old(resolutions).entries[id].candidates[key := [c]];
      }
      resolution := resolution.(candidates := resolution.candidates[key := resolution.candidates[key] + [c]]);
      resolutions := R.Store(resolutions, id, resolution);
    }

    /**
     * `resolveNode`: registers a resolution named `ns` for `id` when there is
     * none, then resolves each child into it, stopping at the first error.
     */
    method ResolveNode(id: string, ns: string, children: seq<T.ParserNode>, ghost rank: map<string, nat>, ghost bound: nat) returns (failure: Option<T.Failure>)
      requires Valid() && G.Ranked(parsed.graph, rank)
      requires id in rank && bound <= rank[id] && R.Fits(rank, children, bound)
      modifies this
      ensures Valid()
      ensures var r := R.ResolveNode(old(parsed.graph), rank, old(resolutions), id, ns, children, bound);
        resolutions == r.table && failure == r.failure
      ensures utilityTypesUsed == old(utilityTypesUsed)
      decreases bound, 2, 0
    {
      if id !in resolutions.entries {
        R.StoreWf(resolutions, id, R.Resolution(ns, [], map[]));
        resolutions := R.Store(resolutions, id, R.Resolution(ns, [], map[]));
      }
      R.ResolveNodeStart(parsed.graph, rank, old(resolutions), id, ns, children, bound);
      failure := ResolveChildren(id, ns, children, rank, bound);
      if failure.Some? {
        return;
      }
      // The source stores the resolution under `id` once more; it is already there.
      R.StoreSame(resolutions, id);
      resolutions := R.Store(resolutions, id, resolutions.entries[id]);
    }

    /** The loop of `resolveNode` over the children, stopping at the first error. */
    method ResolveChildren(id: string, ns: string, children: seq<T.ParserNode>, ghost rank: map<string, nat>, ghost bound: nat) returns (failure: Option<T.Failure>)
      requires Valid() && G.Ranked(parsed.graph, rank)
      requires id in rank && bound <= rank[id] && R.Fits(rank, children, bound)
      requires id in resolutions.entries
      modifies this
      ensures Valid()
      ensures var r := R.ResolveChildren(old(parsed.graph), rank, old(resolutions), id, ns, children, bound);
        resolutions == r.table && failure == r.failure
      ensures utilityTypesUsed == old(utilityTypesUsed)
      decreases bound, 1, 0
    {
      ghost var g := parsed.graph;
      var i := 0;
      while i < |children|
        invariant 0 <= i <= |children|
        invariant parsed.Valid() && R.WfTable(resolutions) && id in resolutions.entries
        invariant utilityTypesUsed == old(utilityTypesUsed)
        invariant R.Fits(rank, children[i..], bound)
        invariant R.ResolveChildren(g, rank, old(resolutions), id, ns, children, bound)
          == R.ResolveChildren(g, rank, resolutions, id, ns, children[i..], bound)
      {
        R.ChildrenStep(g, rank, resolutions, id, ns, children, i, bound);
        failure := ResolveChild(id, ns, children[i], rank, bound);
        if failure.Some? {
          return;
        }
        i := i + 1;
        R.FitsFrom(rank, children, i, bound);
      }
      assert children[i..] == [];
      failure := None;
    }

    /** The body of the loop of `resolveNode`, for one child. */
    method ResolveChild(id: string, ns: string, c: T.ParserNode, ghost rank: map<string, nat>, ghost bound: nat) returns (failure: Option<T.Failure>)
      requires Valid() && G.Ranked(parsed.graph, rank)
      requires id in rank && bound <= rank[id] && c.id in rank && rank[c.id] < bound
      requires id in resolutions.entries
      modifies this
      ensures Valid()
      ensures var r := R.ResolveChild(old(parsed.graph), rank, old(resolutions), id, ns, c, bound);
        resolutions == r.table && failure == r.failure
      ensures utilityTypesUsed == old(utilityTypesUsed)
      decreases bound, 0, 1
    {
      match c {
        case SectionNode(_, _) =>
          failure := ResolveSectionChild(id, ns, c, rank, bound);
        case ValueNode(_, _) =>
          failure := ResolveValueChild(id, ns, c, rank, bound);
        case TemplateNode(cid, _) =>
          // A partial is merged right into the current resolution.
          R.ChildrenFit(parsed.graph, rank, cid);
          var partialEdges := G.EdgesFrom(parsed.graph, cid);
          failure := ResolveNode(id, ns, partialEdges, rank, rank[cid]);
      }
    }

    /** A SECTION child: its own resolution, then an optional or section candidate for its key. */
    method ResolveSectionChild(id: string, ns: string, c: T.ParserNode, ghost rank: map<string, nat>, ghost bound: nat) returns (failure: Option<T.Failure>)
      requires Valid() && G.Ranked(parsed.graph, rank)
      requires id in rank && bound <= rank[id] && c.id in rank && rank[c.id] < bound
      requires id in resolutions.entries && c.SectionNode?
      modifies this
      ensures Valid()
      ensures var r := R.ResolveChild(old(parsed.graph), rank, old(resolutions), id, ns, c, bound);
        resolutions == r.table && failure == r.failure
      ensures utilityTypesUsed == old(utilityTypesUsed)
      decreases bound, 0, 0
    {
      R.ChildrenFit(parsed.graph, rank, c.id);
      R.ResolveChildWf(parsed.graph, rank, resolutions, id, ns, c, bound);
      var name := NestedName(ns, c.propertyKey);
      if name.Failure? {
        return Some(name.error);
      }
      failure := ResolveNode(c.id, name.value, G.EdgesFrom(parsed.graph, c.id), rank, rank[c.id]);
      if failure.Some? {
        return;
      }
      var section := resolutions.entries[c.id];
      if |section.keys| == 0 {
        AddCandidate(id, c.propertyKey, R.Optional);
        resolutions := R.Delete(resolutions, c.id);
      } else {
        AddCandidate(id, c.propertyKey, R.Section(section.typeName));
      }
    }

    /** A VALUE child: a leaf candidate, or a record of its own resolution when it has children. */
    method ResolveValueChild(id: string, ns: string, c: T.ParserNode, ghost rank: map<string, nat>, ghost bound: nat) returns (failure: Option<T.Failure>)
      requires Valid() && G.Ranked(parsed.graph, rank)
      requires id in rank && bound <= rank[id] && c.id in rank && rank[c.id] < bound
      requires id in resolutions.entries && c.ValueNode?
      modifies this
      ensures Valid()
      ensures var r := R.ResolveChild(old(parsed.graph), rank, old(resolutions), id, ns, c, bound);
        resolutions == r.table && failure == r.failure
      ensures utilityTypesUsed == old(utilityTypesUsed)
      decreases bound, 0, 0
    {
      R.ChildrenFit(parsed.graph, rank, c.id);
      R.ResolveChildWf(parsed.graph, rank, resolutions, id, ns, c, bound);
      failure := None;
      var key := c.propertyKey;
      var edges := G.EdgesFrom(parsed.graph, c.id);
      if |edges| == 0 {
        if key == "." {
          AddCandidate(id, key, R.Self(c.id));
        } else {
          AddCandidate(id, key, R.Value);
        }
      } else {
        var name := NestedName(ns, key);
        if name.Failure? {
          return Some(name.error);
        }
        failure := ResolveNode(c.id, name.value, edges, rank, rank[c.id]);
        if failure.Some? {
          return;
        }
        AddCandidate(id, key, R.Record(resolutions.entries[c.id].typeName));
      }
    }

    /** `resolveTemplate`: the template's children resolved under its namespace. */
    method ResolveTemplate(t: T.ParserNode, ghost rank: map<string, nat>) returns (failure: Option<T.Failure>)
      requires Valid() && G.Ranked(parsed.graph, rank)
      requires t.TemplateNode? && t.id in rank
      modifies this
      ensures Valid()
      ensures var r := R.ResolveTemplate(old(parsed.graph), rank, old(resolutions), t);
        resolutions == r.table && failure == r.failure
      ensures utilityTypesUsed == old(utilityTypesUsed)
    {
      var ns := NamespaceFor(t);
      if ns.Failure? {
        return Some(ns.error);
      }
      var children := G.EdgesFrom(parsed.graph, t.id);
      R.ChildrenFit(parsed.graph, rank, t.id);
      failure := ResolveNode(t.id, ns.value, children, rank, rank[t.id]);
    }

    /**
     * `propertyString`: the line for one property, recording the utility
     * types its fragments use; a SELF ends it with the placeholder.
     */
    method PropertyString(k: string, candidates: seq<R.Candidate>) returns (line: string)
      modifies this
      ensures line == PropertyLine(k, candidates)
      ensures utilityTypesUsed == old(utilityTypesUsed) + PropertyUtilities(candidates)
      ensures resolutions == old(resolutions)
    {
      var isOptional := false;
      var cs: seq<string> := [];
      var i := 0;
      while i < |candidates|
        invariant 0 <= i <= |candidates|
        invariant NoSelf(candidates[..i])
        invariant isOptional == MarksOptional(candidates[..i])
        invariant cs == Fragments(candidates[..i])
        invariant utilityTypesUsed == old(utilityTypesUsed) + Recorded(candidates[..i])
        invariant resolutions == old(resolutions)
      {
        var c := candidates[i];
        if c.Self? {
          FirstSelfAt(candidates, i);
          return SelfPlaceholder;
        }
        assert candidates[..i + 1] == candidates[..i] + [c];
        match c {
          case Record(name) =>
            cs := cs + ["MustacheRecord<" + name + ">"];
            utilityTypesUsed := utilityTypesUsed + {RecordType};
          case Section(name) =>
            isOptional := true;
            cs := cs + ["MustacheSection<" + name + ">"];
            utilityTypesUsed := utilityTypesUsed + {SectionLambdaType};
            utilityTypesUsed := utilityTypesUsed + {SectionType};
          case Value =>
            cs := cs + ["MustacheValue"];
            utilityTypesUsed := utilityTypesUsed + {ValueType};
          case Optional =>
            isOptional := true;
            cs := cs + ["MustacheSectionOptional"];
            utilityTypesUsed := utilityTypesUsed + {ValueType};
            utilityTypesUsed := utilityTypesUsed + {SectionLambdaType};
            utilityTypesUsed := utilityTypesUsed + {SectionOptionalType};
        }
        i := i + 1;
      }
      assert candidates[..i] == candidates;
      FirstSelfNone(candidates);
      line := "  " + k + (if isOptional then "?" else "") + ": " + JoinWith(Dedup(cs), " & ");
    }

    /**
     * `resolutionToTypeString`: an empty interface, the alias of the value
     * type (which records nothing), or an interface with one line per
     * property, recording what each property records.
     */
    method ResolutionToTypeString(r: R.Resolution) returns (s: string)
      requires KeysStored(r)
      modifies this
      ensures s == TypeString(r)
      ensures utilityTypesUsed == old(utilityTypesUsed) + TypeUtilities(r, AsWritten)
      ensures resolutions == old(resolutions)
    {
      var propStr := "";
      if |r.keys| > 0 {
        if AllSelf(r) {
          return "type " + r.typeName + " = MustacheValue";
        }
        var lines: seq<string> := [];
        var i := 0;
        while i < |r.keys|
          invariant 0 <= i <= |r.keys|
          invariant lines == PropertyLines(r)[..i]
          invariant utilityTypesUsed == old(utilityTypesUsed) + KeysUtilities(r, i)
          invariant resolutions == old(resolutions)
        {
          PropertyLinesStep(r, i);
          var line := PropertyString(r.keys[i], r.candidates[r.keys[i]]);
          lines := lines + [line];
          i := i + 1;
        }
        PrefixAll(PropertyLines(r), i);
        TypeStringFramed(r);
        propStr := JoinWith([""] + lines + [""], "\n");
      }
      s := "interface " + r.typeName + " {" + propStr + "}";
    }

    /**
     * The first loop of `toString`: every template node resolved in graph
     * order, its type name entered in the template map, its id in the
     * visited list; an error stops it.
     */
    method ResolveAllTemplates(ghost rank: map<string, nat>) returns (templateMap: seq<(string, string)>, templatesVisited: seq<string>, failure: Option<T.Failure>)
      requires Valid() && G.Ranked(parsed.graph, rank)
      modifies this
      ensures Valid() && utilityTypesUsed == old(utilityTypesUsed)
      ensures (NodesInRank(old(parsed.graph), rank);
        ResolveTemplates(old(parsed.graph), rank, old(resolutions), G.Nodes(old(parsed.graph)), []) == Pass(resolutions, templateMap, failure))
      ensures templatesVisited == Keys(templateMap)
    {
      ghost var g := parsed.graph;
      templateMap := [];
      templatesVisited := [];
      var nodes := G.Nodes(parsed.graph);
      NodesInRank(g, rank);
      var i := 0;
      while i < |nodes|
        invariant 0 <= i <= |nodes|
        invariant Valid() && utilityTypesUsed == old(utilityTypesUsed)
        invariant templatesVisited == Keys(templateMap)
        invariant InRank(rank, nodes[i..])
        invariant ResolveTemplates(g, rank, old(resolutions), nodes, [])
          == ResolveTemplates(g, rank, resolutions, nodes[i..], templateMap)
      {
        var n := nodes[i];
        ResolveTemplatesStep(g, rank, resolutions, nodes, i, templateMap);
        if n.TemplateNode? {
          failure := ResolveTemplate(n, rank);
          if failure.Some? {
            return;
          }
          KeysSnoc(templateMap, n.id, resolutions.entries[n.id].typeName);
          templateMap := templateMap + [(n.id, resolutions.entries[n.id].typeName)];
          templatesVisited := templatesVisited + [n.id];
        }
        i := i + 1;
      }
      assert nodes[i..] == [];
      failure := None;
    }

    /**
     * The loop of `toString` over the stored resolutions: each one's
     * declaration, in the order they were first stored.
     */
    method WriteDeclarations() returns (out: seq<string>)
      requires AllStored(resolutions)
      modifies this
      ensures resolutions == old(resolutions)
      ensures out == Declared(resolutions)
      ensures utilityTypesUsed == old(utilityTypesUsed) + DeclaredUtilities(resolutions, |resolutions.order|, AsWritten)
    {
      var table := resolutions;
      out := [];
      var k := 0;
      while k < |table.order|
        invariant 0 <= k <= |table.order|
        invariant resolutions == table
        invariant out == Declared(table)[..k]
        invariant utilityTypesUsed == old(utilityTypesUsed) + DeclaredUtilities(table, k, AsWritten)
      {
        var r := table.entries[table.order[k]];
        DeclaredStep(table, k, AsWritten);
        UnionStep(old(utilityTypesUsed), DeclaredUtilities(table, k, AsWritten), TypeUtilities(r, AsWritten));
        var s := ResolutionToTypeString(r);
        out := out + [s];
        k := k + 1;
      }
      PrefixAll(Declared(table), k);
    }

    /**
     * `toString`: resolves every template node in graph order, checks that
     * each was registered with the parser, and writes the utility types
     * used, the declarations, `TemplateMap`, `TemplateName` and `TEMPLATES`.
     */
    method ToString(ghost rank: map<string, nat>) returns (output: Result<string, T.Failure>)
      requires Valid() && G.Ranked(parsed.graph, rank)
      modifies this
      ensures Valid()
      ensures var r := Render(old(parsed.graph), rank, old(parsed.templateNames), old(resolutions), old(utilityTypesUsed), AsWritten);
        output == r.output && resolutions == r.table && utilityTypesUsed == r.used
    {
      NodesInRank(parsed.graph, rank);
      var templateMap, templatesVisited, failure := ResolveAllTemplates(rank);
      RenderAfterPass(parsed.graph, rank, parsed.templateNames, old(resolutions), old(utilityTypesUsed), AsWritten, Pass(resolutions, templateMap, failure));
      if failure.Some? {
        return Failure(failure.value);
      }
      // Every partial referenced must have been registered with the parser.
      var unknown := FirstUnknownTemplate(templatesVisited, parsed.Templates());
      if unknown.Some? {
        return Failure(T.UnknownTemplate(unknown.value));
      }
      var out := WriteDeclarations();
      var utilities := UtilityDefinitions(utilityTypesUsed);
      out := utilities + out;
      out := out + [TemplateMapText(templateMap), TemplateNameText, TemplatesText(templateMap)];
      output := Success(JoinWith(out, "\n\n"));
    }
  }

  /** The loop of `toString` over the visited templates: the first one the parser was never given. */
  method FirstUnknownTemplate(visited: seq<string>, parsedTemplates: seq<string>) returns (unknown: Option<string>)
    ensures unknown == FirstUnknown(visited, parsedTemplates)
  {
    var j := 0;
    while j < |visited|
      invariant 0 <= j <= |visited|
      invariant FirstUnknown(visited, parsedTemplates) == FirstUnknown(visited[j..], parsedTemplates)
    {
      assert visited[j..][0] == visited[j] && visited[j..][1..] == visited[j + 1..];
      if visited[j] !in parsedTemplates {
        return Some(visited[j]);
      }
      j := j + 1;
    }
    assert visited[j..] == [];
    return None;
  }

  /**
   * The loop of `toString` over the utility types: the definition of each
   * one in `used`, in the order they are declared.
   */
  method UtilityDefinitions(used: set<Utility>) returns (utilities: seq<string>)
    ensures utilities == UtilityTexts(UtilityOrder, used)
  {
    utilities := [];
    var u := 0;
    while u < |UtilityOrder|
      invariant 0 <= u <= |UtilityOrder|
      invariant utilities == UtilityTexts(UtilityOrder[..u], used)
    {
      UtilityTextsStep(UtilityOrder, u, used);
      if UtilityOrder[u] in used {
        utilities := utilities + [UtilityText(UtilityOrder[u])];
      }
      u := u + 1;
    }
    PrefixAll(UtilityOrder, u);
  }
}
