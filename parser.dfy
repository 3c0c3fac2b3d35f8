/**
 * The graph builder (src/declarations/parser.ts). It folds each template's
 * token list into one shared graph of TEMPLATE, VALUE and SECTION nodes.
 *
 * The pure functions `With*` say what each builder operation does to the
 * graph; the class `Parser` performs the operations in place, and each of its
 * methods is proved to leave exactly the graph the matching function gives.
 */
module Parser {
  import opened Wrappers
  import opened Types
  import G = Graph

  /** What a section token carries after its name: a nested token list, or something else. */
  datatype Nested = NotAnArray | Spans(spans: seq<Span>)

  /** One Mustache token: its kind code, its name or path, and the nested tokens of a section. */
  datatype Span = Span(code: string, name: string, nested: Nested)

  /** The graph after an operation, and the error it threw, if any. */
  datatype Outcome = Outcome(graph: G.Graph, failure: Option<Failure>)

  function Size(s: Span): nat
  {
    1 + match s.nested
        case Spans(spans) => SizeAll(spans)
        case NotAnArray => 0
  }

  function SizeAll(spans: seq<Span>): nat
  {
    if spans == [] then 0 else Size(spans[0]) + SizeAll(spans[1..])
  }

  lemma {:induction false} SizeAllAt(spans: seq<Span>, i: nat)
    requires i < |spans|
    ensures Size(spans[i]) <= SizeAll(spans)
  {
    if i > 0 {
      SizeAllAt(spans[1..], i - 1);
    }
  }

  // ---------------------------------------------------------------------
  // Ids and dotted paths
  // ---------------------------------------------------------------------

  /** The id of the child `name` of the node `prefix`. */
  function JoinId(prefix: string, name: string): string
  {
    prefix + "_" + name
  }

  /** Under one parent, two names give the same child id exactly when they are the same name. */
  lemma JoinIdInjective(prefix: string, a: string, b: string)
    ensures JoinId(prefix, a) == JoinId(prefix, b) <==> a == b
  {
    if JoinId(prefix, a) == JoinId(prefix, b) {
      assert a == JoinId(prefix, a)[|prefix| + 1..];
      assert b == JoinId(prefix, b)[|prefix| + 1..];
    }
  }

  /** `s.split('.')`: the pieces between dots; never empty, and no piece holds a dot. */
  function Split(s: string): (parts: seq<string>)
    ensures |parts| >= 1
    ensures forall i :: 0 <= i < |parts| ==> '.' !in parts[i]
  {
    if s == [] then [""]
    else
      var rest := Split(s[1..]);
      if s[0] == '.' then [""] + rest
      else [[s[0]] + rest[0]] + rest[1..]
  }

  /** `parts.join('.')`. */
  function Join(parts: seq<string>): string
  {
    if |parts| == 0 then ""
    else if |parts| == 1 then parts[0]
    else parts[0] + "." + Join(parts[1..])
  }

  /** Joining the pieces of a split gives back the string. */
  lemma {:induction false} JoinSplit(s: string)
    ensures Join(Split(s)) == s
  {
    if s != [] {
      var rest := Split(s[1..]);
      JoinSplit(s[1..]);
      if s[0] == '.' {
        assert Split(s) == [""] + rest;
        assert ([""] + rest)[1..] == rest;
      } else {
        assert Split(s) == [[s[0]] + rest[0]] + rest[1..];
        if |rest| > 1 {
          assert ([[s[0]] + rest[0]] + rest[1..])[1..] == rest[1..];
        }
      }
    }
  }

  lemma {:induction false} SplitWithoutDot(s: string)
    requires '.' !in s
    ensures Split(s) == [s]
  {
    if s != [] {
      assert s[0] in s;
      assert forall c :: c in s[1..] ==> c in s;
      SplitWithoutDot(s[1..]);
      assert [s[0]] + s[1..] == s;
    }
  }

  lemma {:induction false} SplitAtDot(a: string, b: string)
    requires '.' !in a
    ensures Split(a + "." + b) == [a] + Split(b)
  {
    if a == [] {
      assert ("" + "." + b)[1..] == b;
    } else {
      assert (a + "." + b)[1..] == a[1..] + "." + b;
      SplitAtDot(a[1..], b);
      assert [a[0]] + a[1..] == a;
    }
  }

  /** Splitting a join of dot-free pieces gives back the pieces. */
  lemma {:induction false} SplitJoin(parts: seq<string>)
    requires |parts| >= 1
    requires forall i :: 0 <= i < |parts| ==> '.' !in parts[i]
    ensures Split(Join(parts)) == parts
  {
    if |parts| == 1 {
      SplitWithoutDot(parts[0]);
    } else {
      SplitAtDot(parts[0], Join(parts[1..]));
      SplitJoin(parts[1..]);
    }
  }

  /** `parts.join('.')` for the pieces after the first: what follows the first dot. */
  function Rest(s: string): (rest: string)
    requires |Split(s)| > 1
    ensures s == Split(s)[0] + "." + rest
    ensures Split(rest) == Split(s)[1..]
  {
    JoinSplit(s);
    SplitJoin(Split(s)[1..]);
    Join(Split(s)[1..])
  }

  /** The ids of the nodes a dotted path walks through, one per piece. */
  function ChainIds(prefix: string, parts: seq<string>): (ids: seq<string>)
    ensures |ids| == |parts|
    ensures forall i :: 0 <= i < |ids| ==> |ids[i]| > |prefix|
    decreases parts
  {
    if parts == [] then []
    else
      var id := JoinId(prefix, parts[0]);
      [id] + ChainIds(id, parts[1..])
  }

  // ---------------------------------------------------------------------
  // The builder operations as functions on the graph
  // ---------------------------------------------------------------------

  /**
   * `ensureChild`: adds `node` only when its id is absent, always records
   * the edge from `parent`, and returns the node stored under that id, which
   * an existing node keeps.
   */
  function WithChild(g: G.Graph, parent: ParserNode, node: ParserNode): (r: (G.Graph, ParserNode))
    ensures r.1 == if node.id in g.nodes then g.nodes[node.id] else node
    ensures r.0.nodes == if node.id in g.nodes then g.nodes else g.nodes[node.id := node]
    ensures G.Targets(r.0, parent.id) == G.Appended(G.Targets(g, parent.id), node.id)
    ensures forall f :: f != parent.id ==> G.Targets(r.0, f) == G.Targets(g, f)
  {
    var g1 := if G.Has(g, node.id) then g else G.AddNode(g, node);
    var g2 := G.AddEdge(g1, parent.id, node.id);
    (g2, G.GetNode(g2, node.id))
  }

  /** `ensureValue`: the VALUE child `name` of `parent`, stored or new. */
  function WithValueChild(g: G.Graph, parent: ParserNode, name: string): (r: (G.Graph, ParserNode))
  {
    WithChild(g, parent, ValueNode(JoinId(parent.id, name), name))
  }

  /**
   * `mergeValue`: walks a dotted path one piece at a time, ensuring a VALUE
   * child per piece. A bare `.` is kept whole only directly under a SECTION.
   */
  function WithValue(g: G.Graph, parent: ParserNode, fullName: string): G.Graph
    decreases |fullName|
  {
    if fullName == "." && parent.SectionNode? then
      WithValueChild(g, parent, ".").0
    else
      var parts := Split(fullName);
      var (g1, node) := WithValueChild(g, parent, parts[0]);
      if |parts| > 1 then WithValue(g1, node, Rest(fullName)) else g1
  }

  /** `mergePartial`: the TEMPLATE node named `name`, stored or new, linked from `parent`. */
  function WithPartial(g: G.Graph, parent: ParserNode, name: string): (h: G.Graph)
    ensures name in h.nodes
    ensures G.Targets(h, parent.id) == G.Appended(G.Targets(g, parent.id), name)
    ensures h.nodes == if name in g.nodes then g.nodes else g.nodes[name := TemplateNode(name, name)]
    ensures forall f :: f != parent.id ==> G.Targets(h, f) == G.Targets(g, f)
  {
    WithChild(g, parent, TemplateNode(name, name)).0
  }

  /**
   * `mergeSection`: every piece of the path but the last becomes a VALUE
   * node, the last a SECTION node, and the nested spans are merged into the
   * node stored under the last id.
   */
  function WithSection(g: G.Graph, parent: ParserNode, fullName: string, spans: seq<Span>): Outcome
    decreases SizeAll(spans), 2, |fullName|
  {
    var parts := Split(fullName);
    if |parts| > 1 then
      var (g1, node) := WithValueChild(g, parent, parts[0]);
      WithSection(g1, node, Rest(fullName), spans)
    else
      var (g1, node) := WithChild(g, parent, SectionNode(JoinId(parent.id, parts[0]), parts[0]));
      WithSpans(g1, node, spans)
  }

  /** One turn of the `mergeSpans` loop. */
  function WithSpan(g: G.Graph, parent: ParserNode, span: Span): Outcome
    decreases Size(span), 0, 0
  {
    match SpanTypeOf(span.code)
    case None => Outcome(g, None)
    case Some(t) =>
      match t
      case EscapedValue | UnescapedValue => Outcome(WithValue(g, parent, span.name), None)
      case Partial => Outcome(WithPartial(g, parent, span.name), None)
      case Section | Inverted =>
        (match span.nested
         case NotAnArray => Outcome(g, Some(MissingSpans))
         case Spans(nested) => WithSection(g, parent, span.name, nested))
      case Comment | Equal | RawValue => Outcome(g, None)
  }

  /** `mergeSpans`: the spans in order, stopping at the first error. */
  function WithSpans(g: G.Graph, parent: ParserNode, spans: seq<Span>): Outcome
    decreases SizeAll(spans), 1, 0
  {
    if spans == [] then Outcome(g, None)
    else
      var o := WithSpan(g, parent, spans[0]);
      if o.failure.Some? then o else WithSpans(o.graph, parent, spans[1..])
  }

  /** `addTemplate` on the graph: the root is created only if missing, then the spans are merged into it. */
  function WithTemplate(g: G.Graph, name: string, spans: seq<Span>): Outcome
  {
    var root := TemplateNode(name, name);
    var g1 := if G.Has(g, name) then g else G.AddNode(g, root);
    WithSpans(g1, root, spans)
  }

  // ---------------------------------------------------------------------
  // The graph's invariant is kept and the graph only grows
  // ---------------------------------------------------------------------

  /** `ensureChild` only extends the graph: stored nodes stay, edge lists only get longer. */
  lemma WithChildGrows(g: G.Graph, parent: ParserNode, node: ParserNode)
    ensures G.Grows(g, WithChild(g, parent, node).0)
  {
    var g1 := if G.Has(g, node.id) then g else G.AddNode(g, node);
    if !G.Has(g, node.id) {
      G.AddNodeValid(g, node);
    }
    G.AddEdgeValid(g1, parent.id, node.id);
    G.GrowsTransitive(g, g1, G.AddEdge(g1, parent.id, node.id));
  }

  /** `ensureChild` keeps every node under its own id, and then returns a node with the asked id. */
  lemma WithChildKeyed(g: G.Graph, parent: ParserNode, node: ParserNode)
    requires G.Keyed(g)
    ensures var r := WithChild(g, parent, node);
            G.Keyed(r.0) && r.1.id == node.id
  {
  }

  /** Under a stored parent, `ensureChild` keeps the graph's invariant. */
  lemma WithChildValid(g: G.Graph, parent: ParserNode, node: ParserNode)
    requires G.Valid(g) && parent.id in g.nodes
    ensures G.Valid(WithChild(g, parent, node).0)
  {
    var g1 := if G.Has(g, node.id) then g else G.AddNode(g, node);
    if !G.Has(g, node.id) {
      G.AddNodeValid(g, node);
    }
    G.AddEdgeValid(g1, parent.id, node.id);
  }

  lemma {:induction false} WithValueGrows(g: G.Graph, parent: ParserNode, fullName: string)
    ensures G.Grows(g, WithValue(g, parent, fullName))
    decreases |fullName|
  {
    if fullName == "." && parent.SectionNode? {
      WithChildGrows(g, parent, ValueNode(JoinId(parent.id, "."), "."));
    } else {
      var parts := Split(fullName);
      WithChildGrows(g, parent, ValueNode(JoinId(parent.id, parts[0]), parts[0]));
      var (g1, node) := WithValueChild(g, parent, parts[0]);
      if |parts| > 1 {
        WithValueGrows(g1, node, Rest(fullName));
        G.GrowsTransitive(g, g1, WithValue(g1, node, Rest(fullName)));
      }
    }
  }

  lemma {:induction false} WithValueValid(g: G.Graph, parent: ParserNode, fullName: string)
    requires G.Valid(g) && parent.id in g.nodes
    ensures G.Valid(WithValue(g, parent, fullName))
    decreases |fullName|
  {
    if fullName == "." && parent.SectionNode? {
      WithChildValid(g, parent, ValueNode(JoinId(parent.id, "."), "."));
    } else {
      var parts := Split(fullName);
      var child := ValueNode(JoinId(parent.id, parts[0]), parts[0]);
      WithChildValid(g, parent, child);
      WithChildKeyed(g, parent, child);
      var (g1, node) := WithValueChild(g, parent, parts[0]);
      if |parts| > 1 {
        WithValueValid(g1, node, Rest(fullName));
      }
    }
  }

  lemma {:induction false} WithSectionGrows(g: G.Graph, parent: ParserNode, fullName: string, spans: seq<Span>)
    ensures G.Grows(g, WithSection(g, parent, fullName, spans).graph)
    decreases SizeAll(spans), 2, |fullName|
  {
    var parts := Split(fullName);
    if |parts| > 1 {
      WithChildGrows(g, parent, ValueNode(JoinId(parent.id, parts[0]), parts[0]));
      var (g1, node) := WithValueChild(g, parent, parts[0]);
      WithSectionGrows(g1, node, Rest(fullName), spans);
      G.GrowsTransitive(g, g1, WithSection(g1, node, Rest(fullName), spans).graph);
    } else {
      var child := SectionNode(JoinId(parent.id, parts[0]), parts[0]);
      WithChildGrows(g, parent, child);
      var (g1, node) := WithChild(g, parent, child);
      WithSpansGrows(g1, node, spans);
      G.GrowsTransitive(g, g1, WithSpans(g1, node, spans).graph);
    }
  }

  lemma {:induction false} WithSpanGrows(g: G.Graph, parent: ParserNode, span: Span)
    ensures G.Grows(g, WithSpan(g, parent, span).graph)
    decreases Size(span), 0, 0
  {
    var o := WithSpan(g, parent, span);
    var k := SpanTypeOf(span.code);
    if k == Some(EscapedValue) || k == Some(UnescapedValue) {
      assert o.graph == WithValue(g, parent, span.name);
      WithValueGrows(g, parent, span.name);
    } else if k == Some(Partial) {
      assert o.graph == WithChild(g, parent, TemplateNode(span.name, span.name)).0;
      WithChildGrows(g, parent, TemplateNode(span.name, span.name));
    } else if (k == Some(Section) || k == Some(Inverted)) && span.nested.Spans? {
      assert o == WithSection(g, parent, span.name, span.nested.spans);
      WithSectionGrows(g, parent, span.name, span.nested.spans);
    } else {
      assert o.graph == g;
    }
  }

  lemma {:induction false} WithSpansGrows(g: G.Graph, parent: ParserNode, spans: seq<Span>)
    ensures G.Grows(g, WithSpans(g, parent, spans).graph)
    decreases SizeAll(spans), 1, 0
  {
    if spans != [] {
      WithSpanGrows(g, parent, spans[0]);
      var o := WithSpan(g, parent, spans[0]);
      if o.failure.None? {
        WithSpansGrows(o.graph, parent, spans[1..]);
        G.GrowsTransitive(g, o.graph, WithSpans(o.graph, parent, spans[1..]).graph);
      }
    }
  }

  lemma {:induction false} WithSectionValid(g: G.Graph, parent: ParserNode, fullName: string, spans: seq<Span>)
    requires G.Valid(g) && parent.id in g.nodes
    ensures G.Valid(WithSection(g, parent, fullName, spans).graph)
    decreases SizeAll(spans), 2, |fullName|
  {
    var parts := Split(fullName);
    var child := if |parts| > 1 then ValueNode(JoinId(parent.id, parts[0]), parts[0])
                 else SectionNode(JoinId(parent.id, parts[0]), parts[0]);
    WithChildValid(g, parent, child);
    WithChildKeyed(g, parent, child);
    var (g1, node) := WithChild(g, parent, child);
    if |parts| > 1 {
      WithSectionValid(g1, node, Rest(fullName), spans);
    } else {
      WithSpansValid(g1, node, spans);
    }
  }

  lemma {:induction false} WithSpanValid(g: G.Graph, parent: ParserNode, span: Span)
    requires G.Valid(g) && parent.id in g.nodes
    ensures G.Valid(WithSpan(g, parent, span).graph)
    decreases Size(span), 0, 0
  {
    var o := WithSpan(g, parent, span);
    var k := SpanTypeOf(span.code);
    if k == Some(EscapedValue) || k == Some(UnescapedValue) {
      assert o.graph == WithValue(g, parent, span.name);
      WithValueValid(g, parent, span.name);
    } else if k == Some(Partial) {
      assert o.graph == WithChild(g, parent, TemplateNode(span.name, span.name)).0;
      WithChildValid(g, parent, TemplateNode(span.name, span.name));
    } else if (k == Some(Section) || k == Some(Inverted)) && span.nested.Spans? {
      SectionSpan(g, parent, span);
      WithSectionValid(g, parent, span.name, span.nested.spans);
    } else {
      assert o.graph == g;
    }
  }

  lemma {:induction false} WithSpansValid(g: G.Graph, parent: ParserNode, spans: seq<Span>)
    requires G.Valid(g) && parent.id in g.nodes
    ensures G.Valid(WithSpans(g, parent, spans).graph)
    decreases SizeAll(spans), 1, 0
  {
    if spans != [] {
      WithSpanValid(g, parent, spans[0]);
      WithSpanGrows(g, parent, spans[0]);
      var o := WithSpan(g, parent, spans[0]);
      if o.failure.None? {
        WithSpansValid(o.graph, parent, spans[1..]);
      }
    }
  }

  /** Adding a template keeps the graph valid, only extends it, and leaves its root stored. */
  lemma WithTemplateValid(g: G.Graph, name: string, spans: seq<Span>)
    requires G.Valid(g)
    ensures var o := WithTemplate(g, name, spans);
            G.Valid(o.graph) && G.Grows(g, o.graph) && name in o.graph.nodes
  {
    var root := TemplateNode(name, name);
    var g1 := if G.Has(g, name) then g else G.AddNode(g, root);
    if !G.Has(g, name) {
      G.AddNodeValid(g, root);
    }
    WithSpansValid(g1, root, spans);
    WithSpansGrows(g1, root, spans);
    G.GrowsTransitive(g, g1, WithSpans(g1, root, spans).graph);
  }

  // ---------------------------------------------------------------------
  // What the builder operations promise
  // ---------------------------------------------------------------------

  /** A child already stored under its id and already linked from `parent` is left as it is. */
  lemma WithChildPresent(h: G.Graph, parent: ParserNode, node: ParserNode)
    requires node.id in h.nodes && node.id in G.Targets(h, parent.id)
    ensures WithChild(h, parent, node) == (h, h.nodes[node.id])
  {
  }

  /**
   * Merging a dotted path into any graph that already holds the result of
   * merging it once (same parent) changes nothing: a path seen again reuses
   * its nodes and edges.
   */
  lemma {:induction false} WithValueAbsorbed(g: G.Graph, h: G.Graph, parent: ParserNode, fullName: string)
    requires G.Grows(WithValue(g, parent, fullName), h)
    ensures WithValue(h, parent, fullName) == h
    decreases |fullName|
  {
    var w := WithValue(g, parent, fullName);
    if fullName == "." && parent.SectionNode? {
      var child := ValueNode(JoinId(parent.id, "."), ".");
      G.GrowsKeepsEdge(w, h, parent.id, child.id);
      WithChildPresent(h, parent, child);
    } else {
      var parts := Split(fullName);
      var child := ValueNode(JoinId(parent.id, parts[0]), parts[0]);
      var (g1, node) := WithChild(g, parent, child);
      if |parts| > 1 {
        assert w == WithValue(g1, node, Rest(fullName));
        WithValueGrows(g1, node, Rest(fullName));
        G.GrowsTransitive(g1, w, h);
      }
      G.GrowsKeepsEdge(g1, h, parent.id, child.id);
      WithChildPresent(h, parent, child);
      if |parts| > 1 {
        WithValueAbsorbed(g1, h, node, Rest(fullName));
      }
    }
  }

  /** Merging the same dotted path twice under the same parent is the same as merging it once. */
  lemma WithValueIdempotent(g: G.Graph, parent: ParserNode, fullName: string)
    ensures var once := WithValue(g, parent, fullName);
            WithValue(once, parent, fullName) == once
  {
    WithValueAbsorbed(g, WithValue(g, parent, fullName), parent, fullName);
  }

  /**
   * The path never reaches the case of a bare `.` under a SECTION: it is
   * not `.` itself under one, and no part after a dot is `.` (the path
   * does not end in `..`), where a node already stored as a SECTION would
   * keep the dot whole.
   */
  ghost predicate PlainPath(fullName: string, underSection: bool)
    decreases |fullName|
  {
    && !(fullName == "." && underSection)
    && (|Split(fullName)| > 1 ==> PlainPath(Rest(fullName), true))
  }

  /** A bare `.` splits into two empty pieces. */
  lemma SplitDot()
    ensures Split(".") == ["", ""]
  {
    assert Split(".") == ["", ""];
  }

  /** The node ids along a path under `prefix` are all different. */
  lemma ChainIdsDistinct(prefix: string, parts: seq<string>)
    ensures G.NoDuplicates(ChainIds(prefix, parts))
    decreases parts
  {
    if parts != [] {
      ChainIdsDistinct(JoinId(prefix, parts[0]), parts[1..]);
    }
  }

  /** The node a path piece becomes: a SECTION node or a VALUE node. */
  function PathNode(id: string, name: string, section: bool): ParserNode
  {
    if section then SectionNode(id, name) else ValueNode(id, name)
  }

  /**
   * Every id along a path is stored in `h`, and each one `g` did not hold is
   * a new VALUE node named by its piece, except that the last one is a
   * SECTION node when `sectionLast` holds.
   */
  ghost predicate NewAlong(g: G.Graph, h: G.Graph, ids: seq<string>, parts: seq<string>, sectionLast: bool)
    requires |ids| == |parts|
    decreases |ids|
  {
    ids != [] ==>
      && ids[0] in h.nodes
      && (ids[0] !in g.nodes ==>
            h.nodes[ids[0]] == PathNode(ids[0], parts[0], |ids| == 1 && sectionLast))
      && NewAlong(g, h, ids[1..], parts[1..], sectionLast)
  }

  /**
   * Along a path, the edges of each id's predecessor (the first one's is
   * `from`) are its edges in `g` with that id added last, unless it was
   * there already: nothing else is added, and nothing is reordered.
   */
  ghost predicate Linked(g: G.Graph, h: G.Graph, from: string, ids: seq<string>)
    decreases |ids|
  {
    ids != [] ==> G.Targets(h, from) == G.Appended(G.Targets(g, from), ids[0]) && Linked(g, h, ids[0], ids[1..])
  }

  /** `Linked` from a graph that changed only the edges of `x` carries over, for a path of ids longer than `x`. */
  lemma {:induction false} LinkedBefore(g: G.Graph, g1: G.Graph, h: G.Graph, x: string, from: string, ids: seq<string>)
    requires forall f :: f != x ==> G.Targets(g1, f) == G.Targets(g, f)
    requires |from| > |x| && forall i :: 0 <= i < |ids| ==> |ids[i]| > |x|
    requires Linked(g1, h, from, ids)
    ensures Linked(g, h, from, ids)
    decreases |ids|
  {
    if ids != [] {
      LinkedBefore(g, g1, h, x, ids[0], ids[1..]);
    }
  }

  /** `NewAlong` about ids longer than `x` carries over from a graph that adds at most `x`. */
  lemma {:induction false} NewAlongBefore(g: G.Graph, g1: G.Graph, h: G.Graph, x: string, ids: seq<string>, parts: seq<string>, sectionLast: bool)
    requires |ids| == |parts|
    requires forall id :: id in g1.nodes ==> id in g.nodes || id == x
    requires forall i :: 0 <= i < |ids| ==> |ids[i]| > |x|
    requires NewAlong(g1, h, ids, parts, sectionLast)
    ensures NewAlong(g, h, ids, parts, sectionLast)
    decreases |ids|
  {
    if ids != [] {
      NewAlongBefore(g, g1, h, x, ids[1..], parts[1..], sectionLast);
    }
  }

  /**
   * `mergeValue` on a plain path `a.b.c` under `parent` stores
   * exactly the nodes `parent_a`, `parent_a_b`, `parent_a_b_c` besides the
   * ones already there.
   */
  lemma {:induction false} WithValueChainKeys(g: G.Graph, parent: ParserNode, fullName: string)
    requires G.Keyed(g)
    requires PlainPath(fullName, parent.SectionNode?)
    ensures var h := WithValue(g, parent, fullName);
            var parts := Split(fullName);
            var ids := ChainIds(parent.id, parts);
            && (forall id :: id in h.nodes <==> id in g.nodes || id in ids)
    decreases |fullName|
  {
    var h := WithValue(g, parent, fullName);
    var parts := Split(fullName);
    var ids := ChainIds(parent.id, parts);
    var child := ValueNode(JoinId(parent.id, parts[0]), parts[0]);
    WithChildKeyed(g, parent, child);
    var (g1, node) := WithChild(g, parent, child);
    if |parts| > 1 {
      var rest := Rest(fullName);
      assert h == WithValue(g1, node, rest);
      var tail := ChainIds(node.id, parts[1..]);
      assert forall id :: id in h.nodes <==> id in g1.nodes || id in tail by {
        WithValueChainKeys(g1, node, rest);
      }
      assert ids == [ids[0]] + tail;
      assert forall id :: id in ids <==> id == ids[0] || id in tail;
    } else {
      assert h == g1 by {
        SplitDot();
        assert fullName != ".";
      }
      assert ids == [node.id];
    }
  }

  /** Each node along a merged plain path that was not stored before is a VALUE node named by its piece. */
  lemma {:induction false} WithValueChainNodes(g: G.Graph, parent: ParserNode, fullName: string)
    requires G.Keyed(g)
    requires PlainPath(fullName, parent.SectionNode?)
    ensures var h := WithValue(g, parent, fullName);
            var parts := Split(fullName);
            var ids := ChainIds(parent.id, parts);
            && NewAlong(g, h, ids, parts, false)
    decreases |fullName|, 1
  {
    var parts := Split(fullName);
    if |parts| > 1 {
      WithValueChainNodesLonger(g, parent, fullName);
    } else {
      var h := WithValue(g, parent, fullName);
      var child := ValueNode(JoinId(parent.id, parts[0]), parts[0]);
      WithChildKeyed(g, parent, child);
      var (g1, node) := WithChild(g, parent, child);
      assert h == g1 by {
        SplitDot();
        assert fullName != ".";
      }
      assert ChainIds(parent.id, parts) == [node.id];
    }
  }

  /** The case of `WithValueChainNodes` with more than one piece. */
  lemma {:induction false} WithValueChainNodesLonger(g: G.Graph, parent: ParserNode, fullName: string)
    requires G.Keyed(g)
    requires PlainPath(fullName, parent.SectionNode?) && |Split(fullName)| > 1
    ensures var h := WithValue(g, parent, fullName);
            var parts := Split(fullName);
            var ids := ChainIds(parent.id, parts);
            && NewAlong(g, h, ids, parts, false)
    decreases |fullName|, 0
  {
    var h := WithValue(g, parent, fullName);
    var parts := Split(fullName);
    var ids := ChainIds(parent.id, parts);
    var child := ValueNode(JoinId(parent.id, parts[0]), parts[0]);
    WithChildKeyed(g, parent, child);
    var (g1, node) := WithChild(g, parent, child);
    var rest := Rest(fullName);
    assert h == WithValue(g1, node, rest);
    WithValueChainNodes(g1, node, rest);
    WithValueGrows(g1, node, rest);
    var tail := ChainIds(node.id, parts[1..]);
    assert ids[0] == node.id && ids[1..] == tail;
    NewAlongBefore(g, g1, h, node.id, tail, parts[1..], false);
    assert h.nodes[node.id] == g1.nodes[node.id];
    NewAlongCons(g, h, ids, parts, false);
  }

  lemma NewAlongCons(g: G.Graph, h: G.Graph, ids: seq<string>, parts: seq<string>, sectionLast: bool)
    requires |ids| == |parts| > 1
    requires ids[0] in h.nodes && (ids[0] !in g.nodes ==> h.nodes[ids[0]] == PathNode(ids[0], parts[0], false))
    requires NewAlong(g, h, ids[1..], parts[1..], sectionLast)
    ensures NewAlong(g, h, ids, parts, sectionLast)
  {
  }

  /**
   * `mergeValue` on a plain path `a.b.c` under `parent` links
   * `parent` to `parent_a`, `parent_a` to `parent_a_b` and so on, and leaves
   * every other node's edges alone.
   */
  lemma {:induction false} WithValueChainEdges(g: G.Graph, parent: ParserNode, fullName: string)
    requires G.Keyed(g)
    requires PlainPath(fullName, parent.SectionNode?)
    ensures var h := WithValue(g, parent, fullName);
            var ids := ChainIds(parent.id, Split(fullName));
            && Linked(g, h, parent.id, ids)
            && (forall f :: f != parent.id && f !in ids ==> G.Targets(h, f) == G.Targets(g, f))
    decreases |fullName|, 1
  {
    var parts := Split(fullName);
    if |parts| > 1 {
      WithValueChainEdgesLonger(g, parent, fullName);
    } else {
      var h := WithValue(g, parent, fullName);
      var child := ValueNode(JoinId(parent.id, parts[0]), parts[0]);
      var (g1, node) := WithChild(g, parent, child);
      assert h == g1 by {
        SplitDot();
        assert fullName != ".";
      }
      assert ChainIds(parent.id, parts) == [node.id];
    }
  }

  /** The case of `WithValueChainEdges` with more than one piece. */
  lemma {:induction false} WithValueChainEdgesLonger(g: G.Graph, parent: ParserNode, fullName: string)
    requires G.Keyed(g)
    requires PlainPath(fullName, parent.SectionNode?) && |Split(fullName)| > 1
    ensures var h := WithValue(g, parent, fullName);
            var ids := ChainIds(parent.id, Split(fullName));
            && Linked(g, h, parent.id, ids)
            && (forall f :: f != parent.id && f !in ids ==> G.Targets(h, f) == G.Targets(g, f))
    decreases |fullName|, 0
  {
    var h := WithValue(g, parent, fullName);
    var parts := Split(fullName);
    var ids := ChainIds(parent.id, parts);
    var child := ValueNode(JoinId(parent.id, parts[0]), parts[0]);
    WithChildKeyed(g, parent, child);
    var (g1, node) := WithChild(g, parent, child);
    var rest := Rest(fullName);
    assert h == WithValue(g1, node, rest);
    var tail := ChainIds(node.id, parts[1..]);
    assert Linked(g1, h, node.id, tail) && forall f :: f != node.id && f !in tail ==> G.Targets(h, f) == G.Targets(g1, f) by {
      WithValueChainEdges(g1, node, rest);
    }
    assert ids == [ids[0]] + tail;
    assert G.Targets(h, parent.id) == G.Targets(g1, parent.id);
    LinkedBefore(g, g1, h, parent.id, node.id, tail);
    forall f | f != parent.id && f !in ids
      ensures G.Targets(h, f) == G.Targets(g, f)
    {
      assert f != ids[0] && f !in tail;
    }
  }


  /** A bare `.` directly inside a SECTION becomes one VALUE child keyed `.`. */
  lemma DotUnderSection(g: G.Graph, parent: ParserNode)
    requires parent.SectionNode?
    ensures var h := WithValue(g, parent, ".");
            var id := JoinId(parent.id, ".");
            && h.nodes.Keys == g.nodes.Keys + {id}
            && (id !in g.nodes ==> h.nodes[id] == ValueNode(id, "."))
            && id in G.Targets(h, parent.id)
  {
  }

  /**
   * Anywhere else a bare `.` takes the generic path: it splits into two
   * empty pieces and yields two VALUE nodes keyed by the empty string.
   */
  lemma DotElsewhere(g: G.Graph, parent: ParserNode)
    requires G.Keyed(g) && !parent.SectionNode?
    ensures var h := WithValue(g, parent, ".");
            var first := JoinId(parent.id, "");
            var second := JoinId(first, "");
            && h.nodes.Keys == g.nodes.Keys + {first, second}
            && (first !in g.nodes ==> h.nodes[first] == ValueNode(first, ""))
            && (second !in g.nodes ==> h.nodes[second] == ValueNode(second, ""))
  {
    SplitDot();
    assert Rest(".") == "";
    var first := JoinId(parent.id, "");
    var second := JoinId(first, "");
    var child := ValueNode(first, "");
    WithChildKeyed(g, parent, child);
    var (g1, node) := WithChild(g, parent, child);
    assert WithValue(g, parent, ".") == WithValue(g1, node, "");
    assert Split("") == [""];
    assert WithValue(g1, node, "") == WithChild(g1, node, ValueNode(second, "")).0;
    assert |second| > |first|;
  }

  /**
   * `mergeSection` first builds the path as for an empty section and then
   * merges the nested spans into the node stored under the path's last id.
   */
  lemma {:induction false} WithSectionFillsLast(g: G.Graph, parent: ParserNode, fullName: string, spans: seq<Span>)
    requires G.Keyed(g)
    ensures var empty := WithSection(g, parent, fullName, []).graph;
            var ids := ChainIds(parent.id, Split(fullName));
            && ids[|ids| - 1] in empty.nodes
            && WithSection(g, parent, fullName, spans) == WithSpans(empty, empty.nodes[ids[|ids| - 1]], spans)
    decreases |fullName|
  {
    var parts := Split(fullName);
    var ids := ChainIds(parent.id, parts);
    if |parts| > 1 {
      var child := ValueNode(JoinId(parent.id, parts[0]), parts[0]);
      WithChildKeyed(g, parent, child);
      var (g1, node) := WithChild(g, parent, child);
      var rest := Rest(fullName);
      assert WithSection(g, parent, fullName, spans) == WithSection(g1, node, rest, spans);
      assert WithSection(g, parent, fullName, []) == WithSection(g1, node, rest, []);
      WithSectionFillsLast(g1, node, rest, spans);
      assert ids[1..] == ChainIds(node.id, parts[1..]);
    } else {
      var child := SectionNode(JoinId(parent.id, parts[0]), parts[0]);
      WithChildKeyed(g, parent, child);
      var (g1, node) := WithChild(g, parent, child);
      assert WithSection(g, parent, fullName, spans) == WithSpans(g1, node, spans);
      assert WithSection(g, parent, fullName, []) == Outcome(g1, None);
      assert ids == [node.id];
    }
  }

  /**
   * `mergeSection` on an empty section and a path `a.b.c` under `parent`
   * succeeds and stores exactly the path's nodes besides the ones already
   * there.
   */
  lemma {:induction false} WithSectionChainKeys(g: G.Graph, parent: ParserNode, fullName: string)
    requires G.Keyed(g)
    ensures var o := WithSection(g, parent, fullName, []);
            var h := o.graph;
            var parts := Split(fullName);
            var ids := ChainIds(parent.id, parts);
            && o.failure == None
            && (forall id :: id in h.nodes <==> id in g.nodes || id in ids)
    decreases |fullName|
  {
    var o := WithSection(g, parent, fullName, []);
    var h := o.graph;
    var parts := Split(fullName);
    var ids := ChainIds(parent.id, parts);
    if |parts| > 1 {
      var child := ValueNode(JoinId(parent.id, parts[0]), parts[0]);
      WithChildKeyed(g, parent, child);
      var (g1, node) := WithChild(g, parent, child);
      var rest := Rest(fullName);
      assert o == WithSection(g1, node, rest, []);
      WithSectionChainKeys(g1, node, rest);
      WithSectionGrows(g1, node, rest, []);
      var tail := ChainIds(node.id, parts[1..]);
      assert ids == [ids[0]] + tail;
      assert forall id :: id in ids <==> id == ids[0] || id in tail;
    } else {
      var child := SectionNode(JoinId(parent.id, parts[0]), parts[0]);
      WithChildKeyed(g, parent, child);
      var (g1, node) := WithChild(g, parent, child);
      assert o == WithSpans(g1, node, []);
      assert ids == [node.id];
    }
  }

  /** Of the nodes along an empty section's path that were not stored before, the last is a SECTION node and the others VALUE nodes. */
  lemma {:induction false} WithSectionChainNodes(g: G.Graph, parent: ParserNode, fullName: string)
    requires G.Keyed(g)
    ensures var o := WithSection(g, parent, fullName, []);
            var h := o.graph;
            var parts := Split(fullName);
            var ids := ChainIds(parent.id, parts);
            && o.failure == None
            && NewAlong(g, h, ids, parts, true)
    decreases |fullName|, 1
  {
    var parts := Split(fullName);
    if |parts| > 1 {
      WithSectionChainNodesLonger(g, parent, fullName);
    } else {
      var o := WithSection(g, parent, fullName, []);
      var child := SectionNode(JoinId(parent.id, parts[0]), parts[0]);
      WithChildKeyed(g, parent, child);
      var (g1, node) := WithChild(g, parent, child);
      assert o == WithSpans(g1, node, []);
      assert ChainIds(parent.id, parts) == [node.id];
    }
  }

  /** The case of `WithSectionChainNodes` with more than one piece. */
  lemma {:induction false} WithSectionChainNodesLonger(g: G.Graph, parent: ParserNode, fullName: string)
    requires G.Keyed(g)
    requires |Split(fullName)| > 1
    ensures var o := WithSection(g, parent, fullName, []);
            var h := o.graph;
            var parts := Split(fullName);
            var ids := ChainIds(parent.id, parts);
            && o.failure == None
            && NewAlong(g, h, ids, parts, true)
    decreases |fullName|, 0
  {
    var o := WithSection(g, parent, fullName, []);
    var h := o.graph;
    var parts := Split(fullName);
    var ids := ChainIds(parent.id, parts);
    var child := ValueNode(JoinId(parent.id, parts[0]), parts[0]);
    WithChildKeyed(g, parent, child);
    var (g1, node) := WithChild(g, parent, child);
    var rest := Rest(fullName);
    assert o == WithSection(g1, node, rest, []);
    var tail := ChainIds(node.id, parts[1..]);
    assert ids[0] == node.id && ids[1..] == tail;
    assert o.failure == None && NewAlong(g1, h, tail, parts[1..], true) by {
      WithSectionChainNodes(g1, node, rest);
    }
    assert h.nodes[node.id] == g1.nodes[node.id] by {
      WithSectionGrows(g1, node, rest, []);
    }
    NewAlongBefore(g, g1, h, node.id, tail, parts[1..], true);
    NewAlongCons(g, h, ids, parts, true);
  }

  /**
   * `mergeSection` on an empty section links each node of the path from its
   * predecessor, the first from `parent`, and leaves every other node's
   * edges alone.
   */
  lemma {:induction false} WithSectionChainEdges(g: G.Graph, parent: ParserNode, fullName: string)
    requires G.Keyed(g)
    ensures var h := WithSection(g, parent, fullName, []).graph;
            var ids := ChainIds(parent.id, Split(fullName));
            && Linked(g, h, parent.id, ids)
            && (forall f :: f != parent.id && f !in ids ==> G.Targets(h, f) == G.Targets(g, f))
    decreases |fullName|
  {
    var h := WithSection(g, parent, fullName, []).graph;
    var parts := Split(fullName);
    var ids := ChainIds(parent.id, parts);
    if |parts| > 1 {
      var child := ValueNode(JoinId(parent.id, parts[0]), parts[0]);
      WithChildKeyed(g, parent, child);
      var (g1, node) := WithChild(g, parent, child);
      var rest := Rest(fullName);
      assert h == WithSection(g1, node, rest, []).graph;
      WithSectionChainEdges(g1, node, rest);
      var tail := ChainIds(node.id, parts[1..]);
      assert ids == [ids[0]] + tail;
      assert G.Targets(h, parent.id) == G.Targets(g1, parent.id);
      LinkedBefore(g, g1, h, parent.id, node.id, tail);
      forall f | f != parent.id && f !in ids
        ensures G.Targets(h, f) == G.Targets(g, f)
      {
        assert f != ids[0] && f !in tail;
      }
    } else {
      var child := SectionNode(JoinId(parent.id, parts[0]), parts[0]);
      WithChildKeyed(g, parent, child);
      var (g1, node) := WithChild(g, parent, child);
      assert h == WithSpans(g1, node, []).graph;
      assert ids == [node.id];
    }
  }

  /** Text, comment and delimiter spans (and codes outside the eight) leave the graph alone. */
  predicate Inert(span: Span)
  {
    match SpanTypeOf(span.code)
    case None => true
    case Some(t) => t == RawValue || t == Comment || t == Equal
  }

  lemma {:induction false} InertSpansChangeNothing(g: G.Graph, parent: ParserNode, spans: seq<Span>)
    requires G.Valid(g) && parent.id in g.nodes
    requires forall i :: 0 <= i < |spans| ==> Inert(spans[i])
    ensures WithSpans(g, parent, spans) == Outcome(g, None)
    decreases |spans|
  {
    if spans != [] {
      assert Inert(spans[0]);
      InertSpansChangeNothing(g, parent, spans[1..]);
    }
  }

  /** A section or inverted span without a nested list fails the merge at once, leaving the graph as it was. */
  lemma MissingSpansStop(g: G.Graph, parent: ParserNode, code: string, name: string, rest: seq<Span>)
    requires G.Valid(g) && parent.id in g.nodes
    requires code == "#" || code == "^"
    ensures WithSpans(g, parent, [Span(code, name, NotAnArray)] + rest) == Outcome(g, Some(MissingSpans))
  {
    var spans := [Span(code, name, NotAnArray)] + rest;
    assert spans[0] == Span(code, name, NotAnArray);
    if code == "#" {
      assert SpanTypeOf(code) == Some(Section);
    } else {
      assert SpanTypeOf(code) == Some(Inverted);
    }
    assert WithSpan(g, parent, spans[0]) == Outcome(g, Some(MissingSpans));
  }

  /** A section or inverted span with a nested list merges that list as a section. */
  lemma SectionSpan(g: G.Graph, parent: ParserNode, span: Span)
    requires G.Valid(g) && parent.id in g.nodes
    requires SpanTypeOf(span.code) == Some(Section) || SpanTypeOf(span.code) == Some(Inverted)
    requires span.nested.Spans?
    ensures WithSpan(g, parent, span) == WithSection(g, parent, span.name, span.nested.spans)
  {
    var t := SpanTypeOf(span.code).value;
    assert t.Section? || t.Inverted?;
  }

  /** An inverted section leaves exactly the graph a normal section with the same name and spans leaves. */
  lemma InvertedLikeSection(g: G.Graph, parent: ParserNode, name: string, nested: Nested)
    requires G.Valid(g) && parent.id in g.nodes
    ensures WithSpan(g, parent, Span("^", name, nested)) == WithSpan(g, parent, Span("#", name, nested))
  {
    assert SpanTypeOf("^") == Some(Inverted);
    assert SpanTypeOf("#") == Some(Section);
    if nested.Spans? {
      SectionSpan(g, parent, Span("^", name, nested));
      SectionSpan(g, parent, Span("#", name, nested));
    } else {
      assert WithSpan(g, parent, Span("^", name, nested)) == Outcome(g, Some(MissingSpans));
      assert WithSpan(g, parent, Span("#", name, nested)) == Outcome(g, Some(MissingSpans));
    }
  }

  // ---------------------------------------------------------------------
  // The builder itself, updating its graph in place
  // ---------------------------------------------------------------------

  class Parser {
    /** The graph the builder extends with every template. */
    var graph: G.Graph
    /** The names passed to `AddTemplate`, in call order. */
    var templateNames: seq<string>

    ghost predicate Valid()
      reads this
    {
      G.Valid(graph)
    }

    constructor ()
      ensures Valid() && graph == G.Empty && templateNames == []
    {
      graph := G.Empty;
      templateNames := [];
    }

    /** The `templates` getter: the registered names in call order, as a value of their own. */
    function Templates(): (names: seq<string>)
      reads this
      ensures names == templateNames
    {
      templateNames
    }

    method EnsureChild(parentNode: ParserNode, node: ParserNode) returns (stored: ParserNode)
      requires Valid() && parentNode.id in graph.nodes
      modifies this
      ensures Valid() && G.Grows(old(graph), graph) && templateNames == old(templateNames)
      ensures (graph, stored) == WithChild(old(graph), parentNode, node)
      ensures stored.id == node.id
    {
      WithChildValid(graph, parentNode, node);
      WithChildGrows(graph, parentNode, node);
      WithChildKeyed(graph, parentNode, node);
      if !G.Has(graph, node.id) {
        graph := G.AddNode(graph, node);
      }
      graph := G.AddEdge(graph, parentNode.id, node.id);
      stored := G.GetNode(graph, node.id);
    }

    method EnsureValue(parentNode: ParserNode, name: string) returns (stored: ParserNode)
      requires Valid() && parentNode.id in graph.nodes
      modifies this
      ensures Valid() && G.Grows(old(graph), graph) && templateNames == old(templateNames)
      ensures (graph, stored) == WithValueChild(old(graph), parentNode, name)
      ensures stored.id == JoinId(parentNode.id, name)
    {
      stored := EnsureChild(parentNode, ValueNode(JoinId(parentNode.id, name), name));
    }

    method MergeValue(parentNode: ParserNode, fullName: string)
      requires Valid() && parentNode.id in graph.nodes
      modifies this
      ensures Valid() && G.Grows(old(graph), graph) && templateNames == old(templateNames)
      ensures graph == WithValue(old(graph), parentNode, fullName)
      decreases |fullName|
    {
      WithValueGrows(graph, parentNode, fullName);
      if fullName == "." && parentNode.SectionNode? {
        var _ := EnsureValue(parentNode, ".");
        return;
      }
      var parts := Split(fullName);
      var node := EnsureValue(parentNode, parts[0]);
      if |parts| > 1 {
        MergeValue(node, Rest(fullName));
      }
    }

    method MergePartial(parentNode: ParserNode, name: string)
      requires Valid() && parentNode.id in graph.nodes
      modifies this
      ensures Valid() && G.Grows(old(graph), graph) && templateNames == old(templateNames)
      ensures graph == WithPartial(old(graph), parentNode, name)
    {
      var _ := EnsureChild(parentNode, TemplateNode(name, name));
    }

    method MergeSection(parentNode: ParserNode, fullName: string, spans: seq<Span>) returns (failure: Option<Failure>)
      requires Valid() && parentNode.id in graph.nodes
      modifies this
      ensures Valid() && G.Grows(old(graph), graph) && templateNames == old(templateNames)
      ensures Outcome(graph, failure) == WithSection(old(graph), parentNode, fullName, spans)
      decreases SizeAll(spans), 2, |fullName|
    {
      WithSectionGrows(graph, parentNode, fullName, spans);
      var parts := Split(fullName);
      if |parts| > 1 {
        var node := EnsureValue(parentNode, parts[0]);
        failure := MergeSection(node, Rest(fullName), spans);
        return;
      }
      var node := EnsureChild(parentNode, SectionNode(JoinId(parentNode.id, parts[0]), parts[0]));
      failure := MergeSpans(node, spans);
    }

    /** The body of the `mergeSpans` loop: one span dispatched on its kind code. */
    method MergeSpan(parentNode: ParserNode, span: Span) returns (failure: Option<Failure>)
      requires Valid() && parentNode.id in graph.nodes
      modifies this
      ensures Valid() && G.Grows(old(graph), graph) && templateNames == old(templateNames)
      ensures Outcome(graph, failure) == WithSpan(old(graph), parentNode, span)
      decreases Size(span), 0, 0
    {
      WithSpanGrows(graph, parentNode, span);
      failure := None;
      match SpanTypeOf(span.code) {
        case None =>
        case Some(t) =>
          match t {
            case EscapedValue | UnescapedValue =>
              MergeValue(parentNode, span.name);
            case Partial =>
              MergePartial(parentNode, span.name);
            case Section | Inverted =>
              match span.nested {
                case NotAnArray =>
                  failure := Some(MissingSpans);
                case Spans(nested) =>
                  failure := MergeSection(parentNode, span.name, nested);
              }
            case Comment | Equal | RawValue =>
          }
      }
    }

    method MergeSpans(parentNode: ParserNode, spans: seq<Span>) returns (failure: Option<Failure>)
      requires Valid() && parentNode.id in graph.nodes
      modifies this
      ensures Valid() && G.Grows(old(graph), graph) && templateNames == old(templateNames)
      ensures Outcome(graph, failure) == WithSpans(old(graph), parentNode, spans)
      decreases SizeAll(spans), 1, 0
    {
      WithSpansGrows(graph, parentNode, spans);
      for i := 0 to |spans|
        invariant Valid() && parentNode.id in graph.nodes && templateNames == old(templateNames)
        invariant WithSpans(old(graph), parentNode, spans) == WithSpans(graph, parentNode, spans[i..])
      {
        assert spans[i..][0] == spans[i] && spans[i..][1..] == spans[i + 1..];
        SizeAllAt(spans, i);
        failure := MergeSpan(parentNode, spans[i]);
        if failure.Some? {
          return;
        }
      }
      failure := None;
    }

    method AddTemplate(templateName: string, spans: seq<Span>) returns (failure: Option<Failure>)
      requires Valid()
      modifies this
      ensures Valid() && G.Grows(old(graph), graph) && templateName in graph.nodes
      ensures Outcome(graph, failure) == WithTemplate(old(graph), templateName, spans)
      ensures templateNames == if failure.None? then old(templateNames) + [templateName] else old(templateNames)
    {
      WithTemplateValid(graph, templateName, spans);
      ghost var before := graph;
      var root := TemplateNode(templateName, templateName);
      if !G.Has(graph, root.id) {
        G.AddNodeValid(graph, root);
        graph := G.AddNode(graph, root);
      }
      assert WithTemplate(before, templateName, spans) == WithSpans(graph, root, spans);
      failure := MergeSpans(root, spans);
      if failure.None? {
        templateNames := templateNames + [templateName];
      }
    }
  }
}
