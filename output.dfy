/**
 * What `toString` in src/declarations/renderer.ts produces: every template
 * node resolved in graph order, the unknown-template check, then the
 * declarations, the utility types they use, the `TemplateMap` type and the
 * `TEMPLATES` list, joined by blank lines.
 */
module Output {
  import opened Wrappers
  import T = Types
  import G = Graph
  import P = Parser
  import opened Naming
  import opened Resolution
  import opened Declarations

  /** The table after the resolving loop, the template map it filled, and the error thrown, if any. */
  datatype Pass = Pass(table: Table, templateMap: seq<(string, string)>, failure: Option<T.Failure>)

  /** The whole result of `toString`: the text or the error, and the renderer's state afterwards. */
  datatype Rendered = Rendered(output: Result<string, T.Failure>, table: Table, used: set<Utility>)

  ghost predicate InRank(rank: map<string, nat>, nodes: seq<T.ParserNode>)
  {
    forall i :: 0 <= i < |nodes| ==> nodes[i].id in rank
  }

  lemma NodesInRank(g: G.Graph, rank: map<string, nat>)
    requires G.Valid(g) && G.Ranked(g, rank)
    ensures InRank(rank, G.Nodes(g))
  {
  }

  function Keys(m: seq<(string, string)>): (ks: seq<string>)
    ensures |ks| == |m|
  {
    seq(|m|, i requires 0 <= i < |m| => m[i].0)
  }

  lemma KeysSnoc(m: seq<(string, string)>, id: string, name: string)
    ensures Keys(m + [(id, name)]) == Keys(m) + [id]
  {
  }

  /** The ids of the template nodes among `nodes`, in order. */
  function TemplateIds(nodes: seq<T.ParserNode>): seq<string>
  {
    if nodes == [] then []
    else (if nodes[0].TemplateNode? then [nodes[0].id] else []) + TemplateIds(nodes[1..])
  }

  /**
   * The loop of `toString` over the graph's nodes: each template node is
   * resolved and its type name entered in the template map under its id.
   */
  function ResolveTemplates(g: G.Graph, rank: map<string, nat>, t: Table, nodes: seq<T.ParserNode>, templateMap: seq<(string, string)>): (p: Pass)
    requires G.Valid(g) && G.Ranked(g, rank) && InRank(rank, nodes)
    decreases |nodes|
  {
    if nodes == [] then Pass(t, templateMap, None)
    else if !nodes[0].TemplateNode? then ResolveTemplates(g, rank, t, nodes[1..], templateMap)
    else
      var s := ResolveTemplate(g, rank, t, nodes[0]);
      if s.failure.Some? then Pass(s.table, templateMap, s.failure)
      else ResolveTemplates(g, rank, s.table, nodes[1..], templateMap + [(nodes[0].id, s.table.entries[nodes[0].id].typeName)])
  }

  /** One turn of the loop over the nodes. */
  lemma ResolveTemplatesStep(g: G.Graph, rank: map<string, nat>, t: Table, nodes: seq<T.ParserNode>, i: nat, templateMap: seq<(string, string)>)
    requires G.Valid(g) && G.Ranked(g, rank) && InRank(rank, nodes) && i < |nodes|
    ensures InRank(rank, nodes[i..]) && InRank(rank, nodes[i + 1..])
    ensures var n := nodes[i];
      ResolveTemplates(g, rank, t, nodes[i..], templateMap)
        == if !n.TemplateNode? then ResolveTemplates(g, rank, t, nodes[i + 1..], templateMap)
           else
             var s := ResolveTemplate(g, rank, t, n);
             if s.failure.Some? then Pass(s.table, templateMap, s.failure)
             else ResolveTemplates(g, rank, s.table, nodes[i + 1..], templateMap + [(n.id, s.table.entries[n.id].typeName)])
  {
    assert nodes[i..][0] == nodes[i] && nodes[i..][1..] == nodes[i + 1..];
  }

  /**
   * A template resolved without error enters the type name of its
   * resolution in the template map: its namespace, unless the template
   * already had a resolution (as a partial met earlier, say).
   */
  lemma TemplateMapEntry(g: G.Graph, rank: map<string, nat>, t: Table, nodes: seq<T.ParserNode>, templateMap: seq<(string, string)>)
    requires G.Valid(g) && G.Ranked(g, rank) && InRank(rank, nodes)
    requires nodes != [] && nodes[0].TemplateNode?
    ensures var n := nodes[0];
      var s := ResolveTemplate(g, rank, t, n);
      s.failure.None? ==>
        && NamespaceFor(n).Success?
        && ResolveTemplates(g, rank, t, nodes, templateMap)
          == ResolveTemplates(g, rank, s.table, nodes[1..], templateMap + [(n.id, if n.id in t.entries then t.entries[n.id].typeName else NamespaceFor(n).value)])
  {
  }

  /** The first visited template that was never registered, if any. */
  function FirstUnknown(visited: seq<string>, templates: seq<string>): (r: Option<string>)
    ensures r.None? <==> forall i :: 0 <= i < |visited| ==> visited[i] in templates
    ensures r.Some? ==> r.value in visited && r.value !in templates
  {
    if visited == [] then None
    else if visited[0] !in templates then Some(visited[0])
    else
      var r := FirstUnknown(visited[1..], templates);
      assert forall i :: 1 <= i < |visited| ==> visited[i] == visited[1..][i - 1];
      r
  }

  ghost predicate AllStored(t: Table)
  {
    forall i :: 0 <= i < |t.order| ==> t.order[i] in t.entries && KeysStored(t.entries[t.order[i]])
  }

  lemma WfAllStored(t: Table)
    requires WfTable(t)
    ensures AllStored(t)
  {
  }

  /** The declaration of each stored resolution, in the table's order. */
  function Declared(t: Table): seq<string>
    requires AllStored(t)
  {
    seq(|t.order|, i requires 0 <= i < |t.order| => TypeString(t.entries[t.order[i]]))
  }

  /** What the declarations of the first `n` resolutions record. */
  function DeclaredUtilities(t: Table, n: nat, alias: Alias): set<Utility>
    requires n <= |t.order| && AllStored(t)
  {
    if n == 0 then {} else DeclaredUtilities(t, n - 1, alias) + TypeUtilities(t.entries[t.order[n - 1]], alias)
  }

  /** The definitions of the utility types among `us` that are in `used`, in the order of `us`. */
  function UtilityTexts(us: seq<Utility>, used: set<Utility>): seq<string>
  {
    if us == [] then []
    else UtilityTexts(us[..|us| - 1], used) + (if us[|us| - 1] in used then [UtilityText(us[|us| - 1])] else [])
  }

  /** One turn of the loop over the utility types. */
  lemma UtilityTextsStep(us: seq<Utility>, i: nat, used: set<Utility>)
    requires i < |us|
    ensures UtilityTexts(us[..i + 1], used) == UtilityTexts(us[..i], used) + (if us[i] in used then [UtilityText(us[i])] else [])
  {
    assert us[..i + 1][..i] == us[..i];
  }

  /** One turn of the loop over the stored resolutions. */
  lemma DeclaredStep(t: Table, k: nat, alias: Alias)
    requires AllStored(t) && k < |t.order|
    ensures Declared(t)[..k + 1] == Declared(t)[..k] + [TypeString(t.entries[t.order[k]])]
    ensures DeclaredUtilities(t, k + 1, alias) == DeclaredUtilities(t, k, alias) + TypeUtilities(t.entries[t.order[k]], alias)
  {
  }

  /** Recorded sets grow by union, one declaration at a time. */
  lemma UnionStep(a: set<Utility>, b: set<Utility>, c: set<Utility>)
    ensures (a + b) + c == a + (b + c)
  {
  }

  function MapLines(m: seq<(string, string)>): seq<string>
  {
    seq(|m|, i requires 0 <= i < |m| => "  '" + m[i].0 + "': " + m[i].1 + ",")
  }

  function NameLines(m: seq<(string, string)>): seq<string>
  {
    seq(|m|, i requires 0 <= i < |m| => "  '" + m[i].0 + "',")
  }

  function TemplateMapText(m: seq<(string, string)>): string
  {
    "export type TemplateMap = {\n" + JoinWith(MapLines(m), "\n") + "\n}"
  }

  const TemplateNameText: string := "export type TemplateName = keyof TemplateMap"

  function TemplatesText(m: seq<(string, string)>): string
  {
    "export const TEMPLATES = [\n" + JoinWith(NameLines(m), "\n") + "\n] as const"
  }

  /** The text `toString` assembles once every template is resolved and known. */
  function Assemble(t: Table, templateMap: seq<(string, string)>, used: set<Utility>): string
    requires AllStored(t)
  {
    JoinWith(UtilityTexts(UtilityOrder, used) + Declared(t) + [TemplateMapText(templateMap), TemplateNameText, TemplatesText(templateMap)], "\n\n")
  }

  /**
   * `toString`, from the renderer's table and recorded utility types: an
   * error from resolving, or an unknown template, stops it before any
   * utility type is recorded. `alias` says whether the alias of an
   * all-SELF resolution records the value type: the source's `toString` is
   * `Render` with `AsWritten`.
   */
  function Render(g: G.Graph, rank: map<string, nat>, templates: seq<string>, t: Table, used: set<Utility>, alias: Alias): (r: Rendered)
    requires G.Valid(g) && G.Ranked(g, rank) && WfTable(t)
    ensures used <= r.used
    ensures r.output.Failure? ==> r.used == used
    ensures r.output.Success? ==> WfTable(r.table) && AllStored(r.table)
  {
    NodesInRank(g, rank);
    var p := ResolveTemplates(g, rank, t, G.Nodes(g), []);
    if p.failure.Some? then Rendered(Failure(p.failure.value), p.table, used)
    else
      match FirstUnknown(Keys(p.templateMap), templates)
      case Some(name) => Rendered(Failure(T.UnknownTemplate(name)), p.table, used)
      case None =>
        ResolveTemplatesWf(g, rank, t, G.Nodes(g), []);
        WfAllStored(p.table);
        var used' := used + DeclaredUtilities(p.table, |p.table.order|, alias);
        Rendered(Success(Assemble(p.table, p.templateMap, used')), p.table, used')
  }

  /** `Render` once the resolving loop is done, for each way it can end. */
  lemma RenderAfterPass(g: G.Graph, rank: map<string, nat>, templates: seq<string>, t: Table, used: set<Utility>, alias: Alias, p: Pass)
    requires G.Valid(g) && G.Ranked(g, rank) && WfTable(t) && InRank(rank, G.Nodes(g))
    requires p == ResolveTemplates(g, rank, t, G.Nodes(g), [])
    ensures WfTable(p.table) && AllStored(p.table)
    ensures p.failure.Some? ==> Render(g, rank, templates, t, used, alias) == Rendered(Failure(p.failure.value), p.table, used)
    ensures p.failure.None? && FirstUnknown(Keys(p.templateMap), templates).Some? ==>
      Render(g, rank, templates, t, used, alias) == Rendered(Failure(T.UnknownTemplate(FirstUnknown(Keys(p.templateMap), templates).value)), p.table, used)
    ensures p.failure.None? && FirstUnknown(Keys(p.templateMap), templates).None? ==>
      var used' := used + DeclaredUtilities(p.table, |p.table.order|, alias);
      Render(g, rank, templates, t, used, alias) == Rendered(Success(Assemble(p.table, p.templateMap, used')), p.table, used')
  {
    ResolveTemplatesWf(g, rank, t, G.Nodes(g), []);
    WfAllStored(p.table);
  }

  lemma PrefixAll<X>(s: seq<X>, n: nat)
    requires n == |s|
    ensures s[..n] == s
  {
  }

  // ---------------------------------------------------------------------
  // What is proved about the output
  // ---------------------------------------------------------------------

  lemma {:induction false} ResolveTemplatesWf(g: G.Graph, rank: map<string, nat>, t: Table, nodes: seq<T.ParserNode>, templateMap: seq<(string, string)>)
    requires G.Valid(g) && G.Ranked(g, rank) && InRank(rank, nodes) && WfTable(t)
    ensures WfTable(ResolveTemplates(g, rank, t, nodes, templateMap).table)
    decreases |nodes|
  {
    if nodes != [] {
      var n := nodes[0];
      if n.TemplateNode? {
        var s := ResolveTemplate(g, rank, t, n);
        if NamespaceFor(n).Success? {
          ChildrenFit(g, rank, n.id);
          ResolveNodeWf(g, rank, t, n.id, NamespaceFor(n).value, G.EdgesFrom(g, n.id), rank[n.id]);
        }
        if s.failure.None? {
          ResolveTemplatesWf(g, rank, s.table, nodes[1..], templateMap + [(n.id, s.table.entries[n.id].typeName)]);
        }
      } else {
        ResolveTemplatesWf(g, rank, t, nodes[1..], templateMap);
      }
    }
  }

  /**
   * Without an error, the template map lists every template node once, in
   * the order of the graph's nodes; `TemplateMap` and `TEMPLATES` are both
   * written from it.
   */
  lemma {:induction false} TemplateMapOrder(g: G.Graph, rank: map<string, nat>, t: Table, nodes: seq<T.ParserNode>, templateMap: seq<(string, string)>)
    requires G.Valid(g) && G.Ranked(g, rank) && InRank(rank, nodes)
    ensures var p := ResolveTemplates(g, rank, t, nodes, templateMap);
      p.failure.None? ==> Keys(p.templateMap) == Keys(templateMap) + TemplateIds(nodes)
    decreases |nodes|
  {
    if nodes != [] {
      var n := nodes[0];
      ResolveTemplatesStep(g, rank, t, nodes, 0, templateMap);
      assert nodes[0..] == nodes;
      if n.TemplateNode? {
        var s := ResolveTemplate(g, rank, t, n);
        if s.failure.None? {
          var m := templateMap + [(n.id, s.table.entries[n.id].typeName)];
          assert TemplateIds(nodes) == [n.id] + TemplateIds(nodes[1..]);
          TemplateMapOrder(g, rank, s.table, nodes[1..], m);
          KeysSnoc(templateMap, n.id, s.table.entries[n.id].typeName);
        }
      } else {
        assert TemplateIds(nodes) == TemplateIds(nodes[1..]);
        TemplateMapOrder(g, rank, t, nodes[1..], templateMap);
      }
    }
  }

  ghost predicate DistinctIds(nodes: seq<T.ParserNode>)
  {
    forall i, j :: 0 <= i < j < |nodes| ==> nodes[i].id != nodes[j].id
  }

  lemma NodesDistinct(g: G.Graph)
    requires G.Valid(g)
    ensures DistinctIds(G.Nodes(g))
  {
  }

  lemma {:induction false} TemplateIdsFrom(nodes: seq<T.ParserNode>)
    ensures forall x :: x in TemplateIds(nodes) ==> exists i :: 0 <= i < |nodes| && nodes[i].id == x && nodes[i].TemplateNode?
  {
    if nodes != [] {
      TemplateIdsFrom(nodes[1..]);
      forall x | x in TemplateIds(nodes[1..])
        ensures exists i :: 0 <= i < |nodes| && nodes[i].id == x && nodes[i].TemplateNode?
      {
        var i :| 0 <= i < |nodes[1..]| && nodes[1..][i].id == x && nodes[1..][i].TemplateNode?;
        assert nodes[i + 1] == nodes[1..][i];
      }
    }
  }

  /** Node ids are distinct, so the template map never has a key entered twice. */
  lemma {:induction false} TemplateIdsDistinct(nodes: seq<T.ParserNode>)
    requires DistinctIds(nodes)
    ensures G.NoDuplicates(TemplateIds(nodes))
  {
    if nodes != [] {
      var rest := TemplateIds(nodes[1..]);
      TemplateIdsDistinct(nodes[1..]);
      TemplateIdsFrom(nodes[1..]);
      if nodes[0].TemplateNode? {
        forall k | 0 <= k < |rest| ensures rest[k] != nodes[0].id {
          assert rest[k] in rest;
          var i :| 0 <= i < |nodes[1..]| && nodes[1..][i].id == rest[k] && nodes[1..][i].TemplateNode?;
          assert nodes[i + 1] == nodes[1..][i];
        }
        assert TemplateIds(nodes) == [nodes[0].id] + rest;
      } else {
        assert TemplateIds(nodes) == rest;
      }
    }
  }

  /**
   * Without an error from resolving, `toString` fails exactly when some
   * template node was never registered, and names the first such node in
   * graph order; the recorded utility types are then left as they were.
   */
  lemma UnknownTemplateStops(g: G.Graph, rank: map<string, nat>, templates: seq<string>, t: Table, used: set<Utility>, alias: Alias)
    requires G.Valid(g) && G.Ranked(g, rank) && WfTable(t)
    ensures (NodesInRank(g, rank);
      var p := ResolveTemplates(g, rank, t, G.Nodes(g), []);
      var r := Render(g, rank, templates, t, used, alias);
      p.failure.None? ==>
        && (r.output.Failure? <==> exists i :: 0 <= i < |TemplateIds(G.Nodes(g))| && TemplateIds(G.Nodes(g))[i] !in templates)
        && (r.output.Failure? ==> r.output.error == T.UnknownTemplate(FirstUnknown(TemplateIds(G.Nodes(g)), templates).value) && r.used == used))
  {
    NodesInRank(g, rank);
    var p := ResolveTemplates(g, rank, t, G.Nodes(g), []);
    RenderAfterPass(g, rank, templates, t, used, alias, p);
    if p.failure.None? {
      TemplateMapOrder(g, rank, t, G.Nodes(g), []);
      assert Keys([]) == [];
      assert Keys(p.templateMap) == TemplateIds(G.Nodes(g));
    }
  }

  /** The emitted definitions are those of the recorded utility types among `us`, in the order of `us`. */
  lemma {:induction false} UtilityTextsChosen(us: seq<Utility>, used: set<Utility>)
    ensures forall u :: u in us && u in used ==> UtilityText(u) in UtilityTexts(us, used)
    ensures forall x :: x in UtilityTexts(us, used) ==> exists u :: u in us && u in used && x == UtilityText(u)
    ensures |UtilityTexts(us, used)| <= |us|
  {
    if us != [] {
      var init := us[..|us| - 1];
      UtilityTextsChosen(init, used);
      assert us == init + [us[|us| - 1]];
    }
  }

  /**
   * With the alias corrected, the utility types recorded for the first `n`
   * declarations cover the names they use, and bring their dependencies.
   */
  lemma {:induction false} DeclaredCover(t: Table, n: nat)
    requires n <= |t.order| && AllStored(t)
    ensures forall i :: 0 <= i < n ==> TypeNames(t.entries[t.order[i]]) <= DeclaredUtilities(t, n, Corrected)
    ensures Closed(DeclaredUtilities(t, n, Corrected))
  {
    if n > 0 {
      DeclaredCover(t, n - 1);
      TypeUtilitiesCover(t.entries[t.order[n - 1]]);
    }
  }

  lemma UtilityOrderComplete(u: Utility)
    ensures u in UtilityOrder
  {
  }

  /**
   * With the alias corrected, every utility type that a successful
   * `toString` names in a declaration has its definition emitted, and so
   * does every utility type those definitions use, provided the renderer
   * started from a closed set (a fresh renderer starts from none).
   */
  lemma RenderDefinesWhatItNames(g: G.Graph, rank: map<string, nat>, templates: seq<string>, t: Table, used: set<Utility>)
    requires G.Valid(g) && G.Ranked(g, rank) && WfTable(t) && Closed(used)
    ensures var r := Render(g, rank, templates, t, used, Corrected);
      r.output.Success? ==>
        && AllStored(r.table)
        && Closed(r.used)
        && (forall u :: u in r.used ==> UtilityText(u) in UtilityTexts(UtilityOrder, r.used))
        && (forall i :: 0 <= i < |r.table.order| ==> TypeNames(r.table.entries[r.table.order[i]]) <= r.used)
  {
    var r := Render(g, rank, templates, t, used, Corrected);
    if r.output.Success? {
      NodesInRank(g, rank);
      ResolveTemplatesWf(g, rank, t, G.Nodes(g), []);
      WfAllStored(r.table);
      DeclaredCover(r.table, |r.table.order|);
      UtilityTextsChosen(UtilityOrder, r.used);
      forall u | u in r.used ensures UtilityText(u) in UtilityTexts(UtilityOrder, r.used) {
        UtilityOrderComplete(u);
      }
    }
  }

  // ---------------------------------------------------------------------
  // The alias of the value type, end to end
  // ---------------------------------------------------------------------

  /** The graph of the one template `test`, `{{#items}}{{{.}}}{{/items}}`. */
  const ItemsGraph: G.Graph := G.Graph(
    map["test" := T.TemplateNode("test", "test"),
        "test_items" := T.SectionNode("test_items", "items"),
        "test_items_." := T.ValueNode("test_items_.", ".")],
    ["test", "test_items", "test_items_."],
    map["test" := ["test_items"], "test_items" := ["test_items_."]])

  const ItemsRank: map<string, nat> := map["test" := 2, "test_items" := 1, "test_items_." := 0]

  /** The graphs on the way: the root alone, then the root and its section. */
  const ItemsRootGraph: G.Graph := G.Graph(map["test" := T.TemplateNode("test", "test")], ["test"], map[])
  const ItemsSectionGraph: G.Graph := G.Graph(
    map["test" := T.TemplateNode("test", "test"), "test_items" := T.SectionNode("test_items", "items")],
    ["test", "test_items"],
    map["test" := ["test_items"]])

  lemma ItemsSpelling()
    ensures T.SpanTypeOf("&") == Some(T.UnescapedValue) && T.SpanTypeOf("#") == Some(T.Section)
    ensures P.Split("items") == ["items"]
    ensures P.JoinId("test", "items") == "test_items" && P.JoinId("test_items", ".") == "test_items_."
  {
    assert P.Split("") == [""];
    assert ['s'] + "" == "s" && [""][1..] == [];
    assert P.Split("s") == ["s"];
    assert "ms"[1..] == "s" && ['m'] + "s" == "ms" && P.Split("ms") == ["ms"];
    assert "ems"[1..] == "ms" && ['e'] + "ms" == "ems" && P.Split("ems") == ["ems"];
    assert "tems"[1..] == "ems" && ['t'] + "ems" == "tems" && P.Split("tems") == ["tems"];
    assert "items"[1..] == "tems" && ['i'] + "tems" == "items";
  }

  lemma ItemsSectionAdded()
    ensures P.WithChild(ItemsRootGraph, T.TemplateNode("test", "test"), T.SectionNode("test_items", "items")).0 == ItemsSectionGraph
  {
    ItemsIdsDistinct();
    var g1 := G.AddNode(ItemsRootGraph, T.SectionNode("test_items", "items"));
    assert g1.nodes == ItemsSectionGraph.nodes && g1.order == ItemsSectionGraph.order;
    assert G.Targets(g1, "test") == [] && [] + ["test_items"] == ["test_items"];
    assert g1.edges == map[];
  }

  lemma ItemsValueAdded()
    ensures P.WithChild(ItemsSectionGraph, T.SectionNode("test_items", "items"), T.ValueNode("test_items_.", ".")).0 == ItemsGraph
  {
    ItemsIdsDistinct();
    var g1 := G.AddNode(ItemsSectionGraph, T.ValueNode("test_items_.", "."));
    assert g1.nodes == ItemsGraph.nodes && g1.order == ItemsGraph.order;
    assert G.Targets(g1, "test_items") == [] && [] + ["test_items_."] == ["test_items_."];
    assert g1.edges == map["test" := ["test_items"]];
  }

  lemma ItemsInnerBuilt()
    ensures P.WithSpans(ItemsSectionGraph, T.SectionNode("test_items", "items"), [P.Span("&", ".", P.NotAnArray)])
      == P.Outcome(ItemsGraph, None)
  {
    var section := T.SectionNode("test_items", "items");
    var spans := [P.Span("&", ".", P.NotAnArray)];
    ItemsSpelling();
    ItemsValueAdded();
    assert P.WithValue(ItemsSectionGraph, section, ".") == ItemsGraph;
    assert P.WithSpan(ItemsSectionGraph, section, spans[0]) == P.Outcome(ItemsGraph, None);
    assert spans[1..] == [];
  }

  lemma ItemsSectionBuilt()
    ensures P.WithSection(ItemsRootGraph, T.TemplateNode("test", "test"), "items", [P.Span("&", ".", P.NotAnArray)])
      == P.Outcome(ItemsGraph, None)
  {
    ItemsSpelling();
    ItemsSectionAdded();
    ItemsInnerBuilt();
  }

  lemma ItemsRootAdded()
    ensures !G.Has(G.Empty, "test") && G.AddNode(G.Empty, T.TemplateNode("test", "test")) == ItemsRootGraph
  {
    assert G.Empty.nodes[T.TemplateNode("test", "test").id := T.TemplateNode("test", "test")] == ItemsRootGraph.nodes;
  }

  lemma ItemsOuterBuilt()
    ensures P.WithSpans(ItemsRootGraph, T.TemplateNode("test", "test"), [P.Span("#", "items", P.Spans([P.Span("&", ".", P.NotAnArray)]))])
      == P.Outcome(ItemsGraph, None)
  {
    var root := T.TemplateNode("test", "test");
    var spans := [P.Span("#", "items", P.Spans([P.Span("&", ".", P.NotAnArray)]))];
    ItemsSpelling();
    ItemsSectionBuilt();
    assert P.WithSpan(ItemsRootGraph, root, spans[0]) == P.Outcome(ItemsGraph, None);
    assert spans[1..] == [];
  }

  /** The graph builder makes `ItemsGraph` from the tokens of `{{#items}}{{{.}}}{{/items}}`. */
  lemma ItemsGraphBuilt()
    ensures P.WithTemplate(G.Empty, "test", [P.Span("#", "items", P.Spans([P.Span("&", ".", P.NotAnArray)]))])
      == P.Outcome(ItemsGraph, None)
  {
    ItemsRootAdded();
    ItemsOuterBuilt();
  }

  /** The table `toString` fills from `ItemsGraph`. */
  const ItemsTable: Table := Table(map["test" := ItemsRoot, "test_items" := ItemsAlias], ["test", "test_items"])

  /** The template's resolution: one property, the section. */
  const ItemsRoot: Resolution := Resolution("Test", ["items"], map["items" := [Section("TestItems")]])

  /** The section's resolution: one property, `.`, whose one candidate is a SELF. */
  const ItemsAlias: Resolution := Resolution("TestItems", ["."], map["." := [Self("test_items_.")]])

  /** The tables on the way: the template registered, the section registered, the section's property added. */
  const ItemsStart: Table := Store(EmptyTable, "test", Resolution("Test", [], map[]))
  const ItemsSection: Table := Store(ItemsStart, "test_items", Resolution("TestItems", [], map[]))
  const ItemsProperty: Table := AddTo(ItemsSection, "test_items", ".", Self("test_items_."))

  lemma ItemsIdsDistinct()
    ensures "test" != "test_items" && "test" != "test_items_." && "test_items" != "test_items_."
  {
    assert |"test"| == 4 && |"test_items"| == 10 && |"test_items_."| == 12;
  }

  lemma ItemsOrder()
    ensures G.NoDuplicates(ItemsGraph.order)
    ensures forall i :: 0 <= i < |ItemsGraph.order| ==> ItemsGraph.order[i] in ItemsGraph.nodes
    ensures forall id :: id in ItemsGraph.nodes ==> id in ItemsGraph.order
  {
    ItemsIdsDistinct();
  }

  lemma ItemsEdges()
    ensures forall from :: from in ItemsGraph.edges ==> from in ItemsGraph.nodes && G.NoDuplicates(ItemsGraph.edges[from])
    ensures forall from, to :: from in ItemsGraph.edges && to in ItemsGraph.edges[from] ==> to in ItemsGraph.nodes
  {
  }

  lemma ItemsKeyedRanked()
    ensures G.Keyed(ItemsGraph) && G.Ranked(ItemsGraph, ItemsRank)
  {
  }

  lemma ItemsGraphValid()
    ensures G.Valid(ItemsGraph) && G.Ranked(ItemsGraph, ItemsRank)
  {
    ItemsOrder();
    ItemsEdges();
    ItemsKeyedRanked();
  }

  lemma ItemsNodes()
    ensures G.Valid(ItemsGraph) && G.Ranked(ItemsGraph, ItemsRank)
    ensures G.Nodes(ItemsGraph)
      == [T.TemplateNode("test", "test"), T.SectionNode("test_items", "items"), T.ValueNode("test_items_.", ".")]
  {
    ItemsGraphValid();
  }

  lemma ItemsTargets()
    ensures G.Targets(ItemsGraph, "test") == ["test_items"]
    ensures G.Targets(ItemsGraph, "test_items") == ["test_items_."]
    ensures G.Targets(ItemsGraph, "test_items_.") == []
  {
    ItemsIdsDistinct();
  }

  lemma ItemsGraphShape()
    ensures G.Valid(ItemsGraph) && G.Ranked(ItemsGraph, ItemsRank)
    ensures G.EdgesFrom(ItemsGraph, "test") == [T.SectionNode("test_items", "items")]
    ensures G.EdgesFrom(ItemsGraph, "test_items") == [T.ValueNode("test_items_.", ".")]
    ensures G.EdgesFrom(ItemsGraph, "test_items_.") == []
  {
    ItemsGraphValid();
    ItemsTargets();
    ItemsIdsDistinct();
  }

  lemma ItemsRanks()
    ensures "test" in ItemsRank && "test_items" in ItemsRank && "test_items_." in ItemsRank
    ensures ItemsRank["test"] == 2 && ItemsRank["test_items"] == 1 && ItemsRank["test_items_."] == 0
  {
    ItemsIdsDistinct();
  }

  lemma ItemsNames()
    ensures NamespaceFor(T.TemplateNode("test", "test")) == Success("Test")
    ensures NestedName("Test", "items") == Success("TestItems")
  {
    assert Upper('t') == 'T' && Upper('i') == 'I';
    assert UpperFirst("test").value == "Test";
    assert AllWord("Test");
    SanitizeKeepsWords("Test");
    assert UpperFirst("items").value == "Items";
    assert "Test" + "Items" == "TestItems";
  }

  lemma ItemsPropertyResolved(g: G.Graph, rank: map<string, nat>)
    requires G.Valid(g) && G.Ranked(g, rank)
    requires "test_items" in rank && rank["test_items"] == 1 && "test_items_." in rank && rank["test_items_."] == 0
    requires G.EdgesFrom(g, "test_items_.") == []
    ensures ResolveNode(g, rank, ItemsStart, "test_items", "TestItems", [T.ValueNode("test_items_.", ".")], 1)
      == Step(ItemsProperty, None)
  {
    var vn := T.ValueNode("test_items_.", ".");
    assert ResolveChild(g, rank, ItemsSection, "test_items", "TestItems", vn, 1) == Step(ItemsProperty, None);
    assert ResolveChildren(g, rank, ItemsProperty, "test_items", "TestItems", [], 1) == Step(ItemsProperty, None);
  }

  lemma ItemsTableBuilt()
    ensures AddTo(ItemsProperty, "test", "items", Section("TestItems")) == ItemsTable
  {
    ItemsIdsDistinct();
    assert ItemsSection.entries["test_items"] == Resolution("TestItems", [], map[]);
    assert ItemsProperty.entries["test_items"] == ItemsAlias;
    assert ItemsProperty.entries["test"] == Resolution("Test", [], map[]);
    assert ItemsProperty.order == ["test", "test_items"];
    var u := AddTo(ItemsProperty, "test", "items", Section("TestItems"));
    assert u.entries["test"] == ItemsRoot;
    assert u.entries == ItemsTable.entries;
  }

  /** The shape of `ItemsGraph` that resolving it depends on. */
  ghost predicate ItemsShaped(g: G.Graph, rank: map<string, nat>)
  {
    && G.Valid(g) && G.Ranked(g, rank)
    && "test" in rank && rank["test"] == 2
    && "test_items" in rank && rank["test_items"] == 1
    && "test_items_." in rank && rank["test_items_."] == 0
    && G.EdgesFrom(g, "test") == [T.SectionNode("test_items", "items")]
    && G.EdgesFrom(g, "test_items") == [T.ValueNode("test_items_.", ".")]
    && G.EdgesFrom(g, "test_items_.") == []
  }

  lemma ItemsSectionResolved(g: G.Graph, rank: map<string, nat>)
    requires ItemsShaped(g, rank)
    ensures ResolveNode(g, rank, EmptyTable, "test", "Test", [T.SectionNode("test_items", "items")], 2)
      == Step(ItemsTable, None)
  {
    ItemsPropertyResolved(g, rank);
    ItemsTableBuilt();
    ItemsNames();
    var sn := T.SectionNode("test_items", "items");
    assert ResolveChild(g, rank, ItemsStart, "test", "Test", sn, 2) == Step(ItemsTable, None);
    assert ResolveChildren(g, rank, ItemsTable, "test", "Test", [], 2) == Step(ItemsTable, None);
  }

  lemma ItemsTemplateResolved(g: G.Graph, rank: map<string, nat>)
    requires ItemsShaped(g, rank)
    ensures ResolveTemplate(g, rank, EmptyTable, T.TemplateNode("test", "test")) == Step(ItemsTable, None)
  {
    ItemsSectionResolved(g, rank);
    ItemsNames();
  }

  /** The loop passes over nodes that are not templates. */
  lemma {:induction false} NoTemplatesLeft(g: G.Graph, rank: map<string, nat>, t: Table, nodes: seq<T.ParserNode>, m: seq<(string, string)>)
    requires G.Valid(g) && G.Ranked(g, rank) && InRank(rank, nodes)
    requires forall i :: 0 <= i < |nodes| ==> !nodes[i].TemplateNode?
    ensures ResolveTemplates(g, rank, t, nodes, m) == Pass(t, m, None)
    decreases |nodes|
  {
    if nodes != [] {
      NoTemplatesLeft(g, rank, t, nodes[1..], m);
    }
  }

  lemma ItemsTemplatesResolved(g: G.Graph, rank: map<string, nat>, nodes: seq<T.ParserNode>)
    requires ItemsShaped(g, rank) && InRank(rank, nodes)
    requires nodes == [T.TemplateNode("test", "test"), T.SectionNode("test_items", "items"), T.ValueNode("test_items_.", ".")]
    ensures ResolveTemplates(g, rank, EmptyTable, nodes, []) == Pass(ItemsTable, [("test", "Test")], None)
  {
    var m := [("test", "Test")];
    ItemsTemplateResolved(g, rank);
    var tn := nodes[0];
    assert ItemsTable.entries[tn.id].typeName == "Test";
    assert [] + [(tn.id, ItemsTable.entries[tn.id].typeName)] == m;
    NoTemplatesLeft(g, rank, ItemsTable, nodes[1..], m);
  }

  /** Resolving `ItemsGraph` fills `ItemsTable` and maps `test` to `Test`. */
  lemma ItemsResolved()
    ensures G.Valid(ItemsGraph) && G.Ranked(ItemsGraph, ItemsRank) && InRank(ItemsRank, G.Nodes(ItemsGraph))
    ensures ResolveTemplates(ItemsGraph, ItemsRank, EmptyTable, G.Nodes(ItemsGraph), []) == Pass(ItemsTable, [("test", "Test")], None)
  {
    ItemsNodes();
    ItemsGraphShape();
    ItemsRanks();
    NodesInRank(ItemsGraph, ItemsRank);
    ItemsTemplatesResolved(ItemsGraph, ItemsRank, G.Nodes(ItemsGraph));
  }

  lemma ItemsRootDeclared(alias: Alias)
    ensures WfResolution(ItemsRoot) && !AllSelf(ItemsRoot)
    ensures TypeUtilities(ItemsRoot, alias) == {SectionLambdaType, SectionType}
  {
    var cs := [Section("TestItems")];
    assert ItemsRoot.candidates["items"][0] == Section("TestItems");
    assert cs[..0] == [];
    assert Recorded(cs) == {SectionLambdaType, SectionType};
    assert FirstSelf(cs) == 1 && cs[..1] == cs;
    assert KeysUtilities(ItemsRoot, 1) == {SectionLambdaType, SectionType};
  }

  lemma ItemsAliasNames()
    ensures WfResolution(ItemsAlias) && AllSelf(ItemsAlias)
    ensures TypeNames(ItemsAlias) == {ValueType}
    ensures TypeUtilities(ItemsAlias, AsWritten) == {} && TypeUtilities(ItemsAlias, Corrected) == {ValueType}
  {
    assert ItemsAlias.candidates.Keys == {"."};
  }

  lemma ItemsAliasDeclared()
    ensures WfResolution(ItemsAlias)
    ensures TypeString(ItemsAlias) == "type TestItems = MustacheValue"
  {
    ItemsAliasNames();
  }

  lemma ItemsTableWf()
    ensures WfTable(ItemsTable) && AllStored(ItemsTable)
    ensures ItemsTable.entries[ItemsTable.order[0]] == ItemsRoot && ItemsTable.entries[ItemsTable.order[1]] == ItemsAlias
  {
    ItemsIdsDistinct();
    ItemsRootDeclared(AsWritten);
    ItemsAliasNames();
    assert WfTable(ItemsTable);
    WfAllStored(ItemsTable);
  }

  /** As written the declarations of `ItemsTable` record the section types only; corrected, the value type too. */
  lemma ItemsDeclared()
    ensures WfTable(ItemsTable) && AllStored(ItemsTable)
    ensures ValueType in TypeNames(ItemsTable.entries[ItemsTable.order[1]])
    ensures DeclaredUtilities(ItemsTable, 2, AsWritten) == {SectionLambdaType, SectionType}
    ensures ValueType in DeclaredUtilities(ItemsTable, 2, Corrected)
  {
    ItemsTableWf();
    ItemsRootDeclared(AsWritten);
    ItemsRootDeclared(Corrected);
    ItemsAliasNames();
    DeclaredStep(ItemsTable, 0, AsWritten);
    DeclaredStep(ItemsTable, 1, AsWritten);
    DeclaredStep(ItemsTable, 1, Corrected);
  }

  /** The second declaration is the alias of the value type. */
  lemma ItemsAliasText()
    ensures AllStored(ItemsTable) && Declared(ItemsTable)[1] == "type TestItems = MustacheValue"
  {
    ItemsTableWf();
    ItemsAliasDeclared();
  }

  /** A resolving pass without error whose every template is registered: `toString` succeeds. */
  lemma RenderSucceeds(g: G.Graph, rank: map<string, nat>, templates: seq<string>, t: Table, used: set<Utility>, alias: Alias, u: Table, m: seq<(string, string)>)
    requires G.Valid(g) && G.Ranked(g, rank) && WfTable(t) && InRank(rank, G.Nodes(g))
    requires ResolveTemplates(g, rank, t, G.Nodes(g), []) == Pass(u, m, None)
    requires FirstUnknown(Keys(m), templates).None?
    ensures AllStored(u)
    ensures var r := Render(g, rank, templates, t, used, alias);
      r.output.Success? && r.table == u && r.used == used + DeclaredUtilities(u, |u.order|, alias)
  {
    RenderAfterPass(g, rank, templates, t, used, alias, Pass(u, m, None));
  }

  lemma NoneUsedBefore(d: set<Utility>)
    ensures {} + d == d
  {
  }

  lemma ItemsRenderedAsWritten()
    ensures G.Valid(ItemsGraph) && G.Ranked(ItemsGraph, ItemsRank)
    ensures (ItemsTableWf(); var r := Render(ItemsGraph, ItemsRank, ["test"], EmptyTable, {}, AsWritten);
      r.output.Success? && r.table == ItemsTable && r.used == {} + DeclaredUtilities(ItemsTable, 2, AsWritten))
  {
    var m := [("test", "Test")];
    ItemsResolved();
    assert Keys(m) == ["test"];
    assert FirstUnknown(["test"], ["test"]) == None;
    RenderSucceeds(ItemsGraph, ItemsRank, ["test"], EmptyTable, {}, AsWritten, ItemsTable, m);
  }

  lemma ItemsRenderedCorrected()
    ensures G.Valid(ItemsGraph) && G.Ranked(ItemsGraph, ItemsRank)
    ensures (ItemsTableWf(); var r := Render(ItemsGraph, ItemsRank, ["test"], EmptyTable, {}, Corrected);
      r.output.Success? && r.used == {} + DeclaredUtilities(ItemsTable, 2, Corrected))
  {
    var m := [("test", "Test")];
    ItemsResolved();
    assert Keys(m) == ["test"];
    assert FirstUnknown(["test"], ["test"]) == None;
    RenderSucceeds(ItemsGraph, ItemsRank, ["test"], EmptyTable, {}, Corrected, ItemsTable, m);
  }

  lemma ItemsAsWrittenUsed()
    ensures G.Valid(ItemsGraph) && G.Ranked(ItemsGraph, ItemsRank)
    ensures var r := Render(ItemsGraph, ItemsRank, ["test"], EmptyTable, {}, AsWritten);
      r.output.Success? && r.table == ItemsTable && r.used == {SectionLambdaType, SectionType}
  {
    ItemsTableWf();
    var d := DeclaredUtilities(ItemsTable, 2, AsWritten);
    ItemsRenderedAsWritten();
    ItemsDeclared();
    NoneUsedBefore(d);
  }

  /**
   * As written, `toString` on `ItemsGraph` succeeds, and the declaration
   * of the section's resolution is the alias `type TestItems =
   * MustacheValue`; yet only the section types are recorded, and the
   * emitted definitions are those of the recorded types
   * (`UtilityTextsChosen`), so `MustacheValue` is left undefined.
   */
  lemma RenderLeavesValueUndefined()
    ensures G.Valid(ItemsGraph) && G.Ranked(ItemsGraph, ItemsRank)
    ensures var r := Render(ItemsGraph, ItemsRank, ["test"], EmptyTable, {}, AsWritten);
      r.output.Success? && r.table == ItemsTable && r.used == {SectionLambdaType, SectionType}
    ensures AllStored(ItemsTable) && Declared(ItemsTable)[1] == "type TestItems = MustacheValue"
    ensures ValueType in TypeNames(ItemsTable.entries[ItemsTable.order[1]])
  {
    ItemsAsWrittenUsed();
    ItemsAliasText();
    ItemsDeclared();
  }

  /** With the alias corrected, the same `toString` records the value type, and so defines it. */
  lemma RenderCorrectedDefinesValue()
    ensures G.Valid(ItemsGraph) && G.Ranked(ItemsGraph, ItemsRank)
    ensures var r := Render(ItemsGraph, ItemsRank, ["test"], EmptyTable, {}, Corrected);
      r.output.Success? && ValueType in r.used && UtilityText(ValueType) in UtilityTexts(UtilityOrder, r.used)
  {
    ItemsRenderedCorrected();
    ItemsDeclared();
    var r := Render(ItemsGraph, ItemsRank, ["test"], EmptyTable, {}, Corrected);
    UtilityOrderComplete(ValueType);
    UtilityTextsChosen(UtilityOrder, r.used);
  }
}
