/**
 * What the resolver builds from the structure graph (`resolveNode` and
 * `addCandidate` in src/declarations/renderer.ts): a table from node id to
 * a `Resolution`, a type name plus, for each property key, the list of
 * candidate hints gathered for it.
 *
 * The functions here say what resolving does to the table. The graph must be
 * acyclic for the recursion to end; a rank that every edge lowers witnesses
 * that, and the recursion descends along it.
 */
module Resolution {
  import opened Wrappers
  import T = Types
  import G = Graph
  import opened Naming

  /** One hint about the type of a property. */
  datatype Candidate =
    | Value
    | Optional
    | Record(typeName: string)
    | Section(typeName: string)
    | Self(typeName: string)

  /**
   * A resolution: its type name, its property keys in the order they were
   * first given a candidate, and each key's candidates in the order added.
   */
  datatype Resolution = Resolution(typeName: string, keys: seq<string>, candidates: map<string, seq<Candidate>>)

  /** The keys list each key of `candidates` once, and every key has at least one candidate. */
  ghost predicate WfResolution(r: Resolution)
  {
    && G.NoDuplicates(r.keys)
    && (forall i :: 0 <= i < |r.keys| ==> r.keys[i] in r.candidates)
    && (forall k :: k in r.candidates ==> k in r.keys && r.candidates[k] != [])
  }

  /** `addCandidate`: appends to the key's list, creating the list on the key's first candidate. */
  function AddCandidate(r: Resolution, key: string, c: Candidate): (r': Resolution)
  {
    if key in r.candidates then r.(candidates := r.candidates[key := r.candidates[key] + [c]])
    else r.(keys := r.keys + [key], candidates := r.candidates[key := [c]])
  }

  /** One resolution is another with candidates appended: same type name, keys and lists only grow. */
  ghost predicate Extends(r: Resolution, s: Resolution)
  {
    && s.typeName == r.typeName
    && r.keys <= s.keys
    && (forall k :: k in r.candidates ==> k in s.candidates && r.candidates[k] <= s.candidates[k])
  }

  /**
   * Adding a candidate keeps the type name and every other key's list, puts
   * the candidate last in the key's list, and keeps the resolution well formed.
   */
  lemma AddCandidateAppends(r: Resolution, key: string, c: Candidate)
    ensures Extends(r, AddCandidate(r, key, c))
    ensures key in AddCandidate(r, key, c).candidates
    ensures AddCandidate(r, key, c).candidates[key] == (if key in r.candidates then r.candidates[key] else []) + [c]
    ensures forall k :: k != key ==> (k in r.candidates <==> k in AddCandidate(r, key, c).candidates)
    ensures forall k :: k != key && k in r.candidates ==> AddCandidate(r, key, c).candidates[k] == r.candidates[k]
    ensures WfResolution(r) ==> WfResolution(AddCandidate(r, key, c))
  {
  }

  // ---------------------------------------------------------------------
  // The table: a map from node id to resolution that remembers the order
  // in which ids were first stored, as a JavaScript Map does
  // ---------------------------------------------------------------------

  datatype Table = Table(entries: map<string, Resolution>, order: seq<string>)

  const EmptyTable: Table := Table(map[], [])

  ghost predicate WfTable(t: Table)
  {
    && G.NoDuplicates(t.order)
    && (forall i :: 0 <= i < |t.order| ==> t.order[i] in t.entries)
    && (forall id :: id in t.entries ==> id in t.order && WfResolution(t.entries[id]))
  }

  /** `Map.set`: a new id goes last in the order; an id already there keeps its place. */
  function Store(t: Table, id: string, r: Resolution): (u: Table)
    ensures u.entries == t.entries[id := r]
  {
    Table(t.entries[id := r], if id in t.entries then t.order else t.order + [id])
  }

  /** `s` without the element `x`. */
  function Remove(s: seq<string>, x: string): (r: seq<string>)
    ensures x !in r
    ensures forall y :: y != x ==> (y in r <==> y in s)
  {
    if s == [] then []
    else if s[0] == x then Remove(s[1..], x)
    else [s[0]] + Remove(s[1..], x)
  }

  lemma {:induction false} RemoveNoDuplicates(s: seq<string>, x: string)
    requires G.NoDuplicates(s)
    ensures G.NoDuplicates(Remove(s, x))
  {
    if s != [] {
      RemoveNoDuplicates(s[1..], x);
      if s[0] != x {
        assert s[0] !in s[1..];
        assert s[0] !in Remove(s[1..], x);
      }
    }
  }

  /** `Map.delete`. */
  function Delete(t: Table, id: string): (u: Table)
    ensures u.entries == t.entries - {id}
  {
    Table(t.entries - {id}, Remove(t.order, id))
  }

  /** Storing again what is already stored changes nothing. */
  lemma StoreSame(t: Table, id: string)
    requires id in t.entries
    ensures Store(t, id, t.entries[id]) == t
  {
    assert t.entries[id := t.entries[id]] == t.entries;
  }

  lemma StoreWf(t: Table, id: string, r: Resolution)
    requires WfTable(t) && WfResolution(r)
    ensures WfTable(Store(t, id, r))
  {
  }

  lemma DeleteWf(t: Table, id: string)
    requires WfTable(t)
    ensures WfTable(Delete(t, id))
  {
    RemoveNoDuplicates(t.order, id);
    var u := Delete(t, id);
    forall i | 0 <= i < |u.order|
      ensures u.order[i] in u.entries
    {
      assert u.order[i] in Remove(t.order, id);
    }
  }

  /** `addCandidate` applied to the resolution stored under `id`, which stays where it is. */
  function AddTo(t: Table, id: string, key: string, c: Candidate): Table
    requires id in t.entries
  {
    Store(t, id, AddCandidate(t.entries[id], key, c))
  }

  // ---------------------------------------------------------------------
  // Resolving
  // ---------------------------------------------------------------------

  /** The table after resolving, and the error thrown, if any. */
  datatype Step = Step(table: Table, failure: Option<T.Failure>)

  /** Every node in `children` lies strictly below `bound`. */
  ghost predicate Fits(rank: map<string, nat>, children: seq<T.ParserNode>, bound: nat)
  {
    forall i :: 0 <= i < |children| ==> children[i].id in rank && rank[children[i].id] < bound
  }

  lemma FitsFrom(rank: map<string, nat>, children: seq<T.ParserNode>, i: nat, bound: nat)
    requires Fits(rank, children, bound) && i <= |children|
    ensures Fits(rank, children[i..], bound)
  {
  }

  lemma ChildrenFit(g: G.Graph, rank: map<string, nat>, from: string)
    requires G.Valid(g) && G.Ranked(g, rank) && from in rank
    ensures Fits(rank, G.EdgesFrom(g, from), rank[from])
  {
  }

  /** Every stored id at or above `bound` is still stored. */
  ghost predicate Keeps(t: Table, u: Table, rank: map<string, nat>, bound: nat)
  {
    forall x :: x in t.entries && x in rank && rank[x] >= bound ==> x in u.entries
  }

  /**
   * `resolveNode(id, ns, children)`: registers a resolution named `ns` for
   * `id` when there is none, then folds each child into it. Every child
   * lies below `bound`, and `id` does not, so nothing the recursion deletes
   * is `id` itself: the resolution the source keeps a reference to is always
   * the one stored under `id`.
   */
  function ResolveNode(g: G.Graph, rank: map<string, nat>, t: Table, id: string, ns: string, children: seq<T.ParserNode>, bound: nat): (r: Step)
    requires G.Valid(g) && G.Ranked(g, rank)
    requires id in rank && bound <= rank[id] && Fits(rank, children, bound)
    ensures id in r.table.entries && Keeps(t, r.table, rank, bound)
    decreases bound, 1, 0
  {
    var start := if id in t.entries then t else Store(t, id, Resolution(ns, [], map[]));
    ResolveChildren(g, rank, start, id, ns, children, bound)
  }

  /** The loop of `resolveNode` over its children, stopping at the first error. */
  function ResolveChildren(g: G.Graph, rank: map<string, nat>, t: Table, id: string, ns: string, children: seq<T.ParserNode>, bound: nat): (r: Step)
    requires G.Valid(g) && G.Ranked(g, rank)
    requires id in rank && bound <= rank[id] && Fits(rank, children, bound)
    requires id in t.entries
    ensures Keeps(t, r.table, rank, bound)
    decreases bound, 0, |children|
  {
    if children == [] then Step(t, None)
    else
      var s := ResolveChild(g, rank, t, id, ns, children[0], bound);
      if s.failure.Some? then s
      else ResolveChildren(g, rank, s.table, id, ns, children[1..], bound)
  }

  /** One pass of the loop: the child `c` folded into the resolution of `id`. */
  function ResolveChild(g: G.Graph, rank: map<string, nat>, t: Table, id: string, ns: string, c: T.ParserNode, bound: nat): (r: Step)
    requires G.Valid(g) && G.Ranked(g, rank)
    requires id in rank && bound <= rank[id] && c.id in rank && rank[c.id] < bound
    requires id in t.entries
    ensures Keeps(t, r.table, rank, bound)
    decreases bound, 0, 0
  {
    ChildrenFit(g, rank, c.id);
    match c
    case SectionNode(cid, key) =>
      (match NestedName(ns, key)
       case Failure(e) => Step(t, Some(e))
       case Success(name) =>
         var s := ResolveNode(g, rank, t, cid, name, G.EdgesFrom(g, cid), rank[cid]);
         if s.failure.Some? then s
         else
           var section := s.table.entries[cid];
           if |section.keys| == 0 then Step(Delete(AddTo(s.table, id, key, Optional), cid), None)
           else Step(AddTo(s.table, id, key, Section(section.typeName)), None))
    case ValueNode(cid, key) =>
      var edges := G.EdgesFrom(g, cid);
      if |edges| == 0 then
        Step(AddTo(t, id, key, if key == "." then Self(cid) else Value), None)
      else
        (match NestedName(ns, key)
         case Failure(e) => Step(t, Some(e))
         case Success(name) =>
           var s := ResolveNode(g, rank, t, cid, name, edges, rank[cid]);
           if s.failure.Some? then s
           else Step(AddTo(s.table, id, key, Record(s.table.entries[cid].typeName)), None))
    case TemplateNode(cid, _) =>
      ResolveNode(g, rank, t, id, ns, G.EdgesFrom(g, cid), rank[cid])
  }

  /** `resolveNode` starts from the stored resolution of `id`, or a fresh one named `ns`. */
  lemma ResolveNodeStart(g: G.Graph, rank: map<string, nat>, t: Table, id: string, ns: string, children: seq<T.ParserNode>, bound: nat)
    requires G.Valid(g) && G.Ranked(g, rank)
    requires id in rank && bound <= rank[id] && Fits(rank, children, bound)
    ensures var start := if id in t.entries then t else Store(t, id, Resolution(ns, [], map[]));
      ResolveNode(g, rank, t, id, ns, children, bound) == ResolveChildren(g, rank, start, id, ns, children, bound)
  {
  }

  /** One turn of the loop of `resolveNode`: the child at `i`, then the rest unless it failed. */
  lemma ChildrenStep(g: G.Graph, rank: map<string, nat>, t: Table, id: string, ns: string, children: seq<T.ParserNode>, i: nat, bound: nat)
    requires G.Valid(g) && G.Ranked(g, rank)
    requires id in rank && bound <= rank[id] && Fits(rank, children, bound)
    requires id in t.entries && i < |children|
    ensures var s := ResolveChild(g, rank, t, id, ns, children[i], bound);
      ResolveChildren(g, rank, t, id, ns, children[i..], bound)
        == if s.failure.Some? then s else ResolveChildren(g, rank, s.table, id, ns, children[i + 1..], bound)
  {
    assert children[i..][0] == children[i] && children[i..][1..] == children[i + 1..];
  }

  /**
   * `resolveTemplate`: the template's own children resolved under its
   * namespace. Without an error the template has a resolution, named by its
   * namespace unless it had one already; a template without a namespace
   * changes nothing.
   */
  function ResolveTemplate(g: G.Graph, rank: map<string, nat>, t: Table, n: T.ParserNode): (r: Step)
    requires G.Valid(g) && G.Ranked(g, rank)
    requires n.TemplateNode? && n.id in rank
    ensures NamespaceFor(n).Failure? ==> r.failure.Some? && r.table == t
    ensures r.failure.None? ==> n.id in r.table.entries
    ensures r.failure.None? ==>
      r.table.entries[n.id].typeName == if n.id in t.entries then t.entries[n.id].typeName else NamespaceFor(n).value
  {
    match NamespaceFor(n)
    case Failure(e) => Step(t, Some(e))
    case Success(ns) =>
      ChildrenFit(g, rank, n.id);
      ResolveNodeSettled(g, rank, t, n.id, ns, G.EdgesFrom(g, n.id), rank[n.id]);
      ResolveNode(g, rank, t, n.id, ns, G.EdgesFrom(g, n.id), rank[n.id])
  }

  // ---------------------------------------------------------------------
  // What resolving keeps
  // ---------------------------------------------------------------------

  lemma ExtendsTransitive(a: Resolution, b: Resolution, c: Resolution)
    requires Extends(a, b) && Extends(b, c)
    ensures Extends(a, c)
  {
  }

  /**
   * Resolving below `bound` into the resolution of `id`: the resolution of
   * `id` only gains candidates, and every other stored id at or above
   * `bound` keeps its resolution untouched.
   */
  ghost predicate Settled(t: Table, u: Table, rank: map<string, nat>, bound: nat, id: string)
  {
    && (id in t.entries ==> id in u.entries && Extends(t.entries[id], u.entries[id]))
    && (forall x :: x in t.entries && x in rank && rank[x] >= bound && x != id ==> x in u.entries && u.entries[x] == t.entries[x])
  }

  /** Appending a candidate for `id` after a settled step leaves the step settled. */
  lemma AddToSettled(t: Table, s: Table, rank: map<string, nat>, bound: nat, id: string, key: string, c: Candidate)
    requires Settled(t, s, rank, bound, id) && id in s.entries
    ensures Settled(t, AddTo(s, id, key, c), rank, bound, id)
  {
    AddCandidateAppends(s.entries[id], key, c);
    if id in t.entries {
      ExtendsTransitive(t.entries[id], s.entries[id], AddTo(s, id, key, c).entries[id]);
    }
  }

  /** A step below `bound` that settles nothing about `id` yet. */
  lemma NestedSettled(t: Table, s: Table, rank: map<string, nat>, bound: nat, id: string, cid: string)
    requires cid in rank && rank[cid] < bound && Settled(t, s, rank, rank[cid], cid)
    requires id in t.entries && id in rank && rank[id] >= bound
    ensures Settled(t, s, rank, bound, id)
  {
  }

  /**
   * `resolveNode` creates the resolution of `id`, named `ns`, only when
   * there is none; an existing one keeps its name, and its candidate lists
   * are only ever appended to.
   */
  lemma {:induction false} ResolveNodeSettled(g: G.Graph, rank: map<string, nat>, t: Table, id: string, ns: string, children: seq<T.ParserNode>, bound: nat)
    requires G.Valid(g) && G.Ranked(g, rank)
    requires id in rank && bound <= rank[id] && Fits(rank, children, bound)
    ensures Settled(t, ResolveNode(g, rank, t, id, ns, children, bound).table, rank, bound, id)
    ensures ResolveNode(g, rank, t, id, ns, children, bound).table.entries[id].typeName == if id in t.entries then t.entries[id].typeName else ns
    decreases bound, 1, 0
  {
    var start := if id in t.entries then t else Store(t, id, Resolution(ns, [], map[]));
    ResolveChildrenSettled(g, rank, start, id, ns, children, bound);
  }

  lemma {:induction false} ResolveChildrenSettled(g: G.Graph, rank: map<string, nat>, t: Table, id: string, ns: string, children: seq<T.ParserNode>, bound: nat)
    requires G.Valid(g) && G.Ranked(g, rank)
    requires id in rank && bound <= rank[id] && Fits(rank, children, bound)
    requires id in t.entries
    ensures Settled(t, ResolveChildren(g, rank, t, id, ns, children, bound).table, rank, bound, id)
    decreases bound, 0, |children| + 1
  {
    if children != [] {
      var s := ResolveChild(g, rank, t, id, ns, children[0], bound);
      ResolveChildSettled(g, rank, t, id, ns, children[0], bound);
      if s.failure.None? {
        var r := ResolveChildren(g, rank, s.table, id, ns, children[1..], bound);
        assert r == ResolveChildren(g, rank, t, id, ns, children, bound);
        ResolveChildrenSettled(g, rank, s.table, id, ns, children[1..], bound);
        ExtendsTransitive(t.entries[id], s.table.entries[id], r.table.entries[id]);
      }
    }
  }

  lemma {:induction false} ResolveChildSettled(g: G.Graph, rank: map<string, nat>, t: Table, id: string, ns: string, c: T.ParserNode, bound: nat)
    requires G.Valid(g) && G.Ranked(g, rank)
    requires id in rank && bound <= rank[id] && c.id in rank && rank[c.id] < bound
    requires id in t.entries
    ensures Settled(t, ResolveChild(g, rank, t, id, ns, c, bound).table, rank, bound, id)
    decreases bound, 0, 1
  {
    ChildrenFit(g, rank, c.id);
    match c {
      case SectionNode(_, _) =>
        SectionChildSettled(g, rank, t, id, ns, c, bound);
      case ValueNode(_, _) =>
        ValueChildSettled(g, rank, t, id, ns, c, bound);
      case TemplateNode(cid, _) =>
        ResolveNodeSettled(g, rank, t, id, ns, G.EdgesFrom(g, cid), rank[cid]);
    }
  }

  lemma {:induction false} SectionChildSettled(g: G.Graph, rank: map<string, nat>, t: Table, id: string, ns: string, c: T.ParserNode, bound: nat)
    requires G.Valid(g) && G.Ranked(g, rank)
    requires id in rank && bound <= rank[id] && c.id in rank && rank[c.id] < bound
    requires id in t.entries && c.SectionNode?
    ensures Settled(t, ResolveChild(g, rank, t, id, ns, c, bound).table, rank, bound, id)
    decreases bound, 0, 0
  {
    ChildrenFit(g, rank, c.id);
    var r := ResolveChild(g, rank, t, id, ns, c, bound);
    var nested := NestedName(ns, c.propertyKey);
    if nested.Failure? {
      assert r.table == t;
    } else {
      var s := ResolveNode(g, rank, t, c.id, nested.value, G.EdgesFrom(g, c.id), rank[c.id]);
      ResolveNodeSettled(g, rank, t, c.id, nested.value, G.EdgesFrom(g, c.id), rank[c.id]);
      NestedSettled(t, s.table, rank, bound, id, c.id);
      if s.failure.Some? {
        assert r == s;
      } else {
        var section := s.table.entries[c.id];
        var cand := if |section.keys| == 0 then Optional else Section(section.typeName);
        var added := AddTo(s.table, id, c.propertyKey, cand);
        AddToSettled(t, s.table, rank, bound, id, c.propertyKey, cand);
        if |section.keys| == 0 {
          assert r.table == Delete(added, c.id);
        } else {
          assert r.table == added;
        }
      }
    }
  }

  lemma {:induction false} ValueChildSettled(g: G.Graph, rank: map<string, nat>, t: Table, id: string, ns: string, c: T.ParserNode, bound: nat)
    requires G.Valid(g) && G.Ranked(g, rank)
    requires id in rank && bound <= rank[id] && c.id in rank && rank[c.id] < bound
    requires id in t.entries && c.ValueNode?
    ensures Settled(t, ResolveChild(g, rank, t, id, ns, c, bound).table, rank, bound, id)
    decreases bound, 0, 0
  {
    ChildrenFit(g, rank, c.id);
    var r := ResolveChild(g, rank, t, id, ns, c, bound);
    var edges := G.EdgesFrom(g, c.id);
    if |edges| == 0 {
      var cand := if c.propertyKey == "." then Self(c.id) else Value;
      assert r.table == AddTo(t, id, c.propertyKey, cand);
      AddToSettled(t, t, rank, bound, id, c.propertyKey, cand);
    } else {
      var nested := NestedName(ns, c.propertyKey);
      if nested.Failure? {
        assert r.table == t;
      } else {
        var s := ResolveNode(g, rank, t, c.id, nested.value, edges, rank[c.id]);
        ResolveNodeSettled(g, rank, t, c.id, nested.value, edges, rank[c.id]);
        NestedSettled(t, s.table, rank, bound, id, c.id);
        if s.failure.Some? {
          assert r == s;
        } else {
          var cand := Record(s.table.entries[c.id].typeName);
          assert r.table == AddTo(s.table, id, c.propertyKey, cand);
          AddToSettled(t, s.table, rank, bound, id, c.propertyKey, cand);
        }
      }
    }
  }

  // ---------------------------------------------------------------------
  // Resolving keeps the table well formed
  // ---------------------------------------------------------------------

  lemma AddToWf(t: Table, id: string, key: string, c: Candidate)
    requires WfTable(t) && id in t.entries
    ensures WfTable(AddTo(t, id, key, c))
  {
    AddCandidateAppends(t.entries[id], key, c);
    StoreWf(t, id, AddCandidate(t.entries[id], key, c));
  }

  /** The order lists every stored id once, and every resolution lists its keys once, each with a candidate. */
  lemma {:induction false} ResolveNodeWf(g: G.Graph, rank: map<string, nat>, t: Table, id: string, ns: string, children: seq<T.ParserNode>, bound: nat)
    requires G.Valid(g) && G.Ranked(g, rank)
    requires id in rank && bound <= rank[id] && Fits(rank, children, bound)
    requires WfTable(t)
    ensures WfTable(ResolveNode(g, rank, t, id, ns, children, bound).table)
    decreases bound, 1, 0
  {
    if id !in t.entries {
      StoreWf(t, id, Resolution(ns, [], map[]));
    }
    var start := if id in t.entries then t else Store(t, id, Resolution(ns, [], map[]));
    ResolveChildrenWf(g, rank, start, id, ns, children, bound);
  }

  lemma {:induction false} ResolveChildrenWf(g: G.Graph, rank: map<string, nat>, t: Table, id: string, ns: string, children: seq<T.ParserNode>, bound: nat)
    requires G.Valid(g) && G.Ranked(g, rank)
    requires id in rank && bound <= rank[id] && Fits(rank, children, bound)
    requires id in t.entries && WfTable(t)
    ensures WfTable(ResolveChildren(g, rank, t, id, ns, children, bound).table)
    decreases bound, 0, |children| + 1
  {
    if children != [] {
      var s := ResolveChild(g, rank, t, id, ns, children[0], bound);
      ResolveChildWf(g, rank, t, id, ns, children[0], bound);
      if s.failure.None? {
        assert ResolveChildren(g, rank, t, id, ns, children, bound) == ResolveChildren(g, rank, s.table, id, ns, children[1..], bound);
        ResolveChildrenWf(g, rank, s.table, id, ns, children[1..], bound);
      }
    }
  }

  lemma {:induction false} ResolveChildWf(g: G.Graph, rank: map<string, nat>, t: Table, id: string, ns: string, c: T.ParserNode, bound: nat)
    requires G.Valid(g) && G.Ranked(g, rank)
    requires id in rank && bound <= rank[id] && c.id in rank && rank[c.id] < bound
    requires id in t.entries && WfTable(t)
    ensures WfTable(ResolveChild(g, rank, t, id, ns, c, bound).table)
    decreases bound, 0, 1
  {
    ChildrenFit(g, rank, c.id);
    var r := ResolveChild(g, rank, t, id, ns, c, bound);
    match c {
      case SectionNode(cid, key) =>
        var nested := NestedName(ns, key);
        if nested.Success? {
          var s := ResolveNode(g, rank, t, cid, nested.value, G.EdgesFrom(g, cid), rank[cid]);
          ResolveNodeWf(g, rank, t, cid, nested.value, G.EdgesFrom(g, cid), rank[cid]);
          if s.failure.None? {
            var section := s.table.entries[cid];
            var cand := if |section.keys| == 0 then Optional else Section(section.typeName);
            AddToWf(s.table, id, key, cand);
            if |section.keys| == 0 {
              DeleteWf(AddTo(s.table, id, key, cand), cid);
              assert r.table == Delete(AddTo(s.table, id, key, cand), cid);
            } else {
              assert r.table == AddTo(s.table, id, key, cand);
            }
          }
        }
      case ValueNode(cid, key) =>
        var edges := G.EdgesFrom(g, cid);
        if |edges| == 0 {
          AddToWf(t, id, key, if key == "." then Self(cid) else Value);
        } else {
          var nested := NestedName(ns, key);
          if nested.Success? {
            var s := ResolveNode(g, rank, t, cid, nested.value, edges, rank[cid]);
            ResolveNodeWf(g, rank, t, cid, nested.value, edges, rank[cid]);
            if s.failure.None? {
              AddToWf(s.table, id, key, Record(s.table.entries[cid].typeName));
            }
          }
        }
      case TemplateNode(cid, _) =>
        ResolveNodeWf(g, rank, t, id, ns, G.EdgesFrom(g, cid), rank[cid]);
    }
  }

  // ---------------------------------------------------------------------
  // What each kind of child contributes
  // ---------------------------------------------------------------------

  /**
   * A section child: with an empty key the call throws and nothing is
   * added. Otherwise the section is resolved under `ns` followed by the
   * upper-cased key; an error there stops the loop, and without one the
   * parent gains one candidate for the key. A section that ended up with no
   * keys of its own becomes `Optional` and its resolution is deleted; any
   * other becomes `Section` of its type and keeps its resolution.
   */
  lemma SectionChildOutcome(g: G.Graph, rank: map<string, nat>, t: Table, id: string, ns: string, c: T.ParserNode, bound: nat)
    requires G.Valid(g) && G.Ranked(g, rank)
    requires id in rank && bound <= rank[id] && c.id in rank && rank[c.id] < bound
    requires id in t.entries && c.SectionNode?
    ensures var r := ResolveChild(g, rank, t, id, ns, c, bound);
      c.propertyKey == "" ==> r == Step(t, Some(T.UpperFirstOfEmpty))
    ensures (ChildrenFit(g, rank, c.id);
      var r := ResolveChild(g, rank, t, id, ns, c, bound);
      c.propertyKey != "" ==>
        var name := ns + UpperFirst(c.propertyKey).value;
        var s := ResolveNode(g, rank, t, c.id, name, G.EdgesFrom(g, c.id), rank[c.id]);
        && (c.id !in t.entries ==> s.table.entries[c.id].typeName == name)
        && (s.failure.Some? ==> r == s)
        && (s.failure.None? && s.table.entries[c.id].keys == [] ==>
              && r.failure.None? && c.id !in r.table.entries
              && r.table.entries[id] == AddCandidate(t.entries[id], c.propertyKey, Optional))
        && (s.failure.None? && s.table.entries[c.id].keys != [] ==>
              && r.failure.None? && c.id in r.table.entries && r.table.entries[c.id] == s.table.entries[c.id]
              && r.table.entries[id] == AddCandidate(t.entries[id], c.propertyKey, Section(s.table.entries[c.id].typeName))))
  {
    ChildrenFit(g, rank, c.id);
    if c.propertyKey != "" {
      var name := ns + UpperFirst(c.propertyKey).value;
      assert NestedName(ns, c.propertyKey) == Success(name);
      var s := ResolveNode(g, rank, t, c.id, name, G.EdgesFrom(g, c.id), rank[c.id]);
      ResolveNodeSettled(g, rank, t, c.id, name, G.EdgesFrom(g, c.id), rank[c.id]);
      if s.failure.None? {
        assert s.table.entries[id] == t.entries[id];
      }
    }
  }

  /** Deleting an id just stored last gives the old order back. */
  lemma {:induction false} RemoveLast(s: seq<string>, x: string)
    requires x !in s
    ensures Remove(s + [x], x) == s
  {
    if s != [] {
      assert (s + [x])[1..] == s[1..] + [x];
      RemoveLast(s[1..], x);
    } else {
      assert Remove([x][1..], x) == [];
    }
  }

  /** Storing `cid` afresh, adding a candidate to `id`, then deleting `cid` adds the candidate alone. */
  lemma DeleteStored(t: Table, id: string, cid: string, key: string, c: Candidate, r: Resolution)
    requires WfTable(t) && id in t.entries && cid !in t.entries
    ensures Delete(AddTo(Store(t, cid, r), id, key, c), cid) == AddTo(t, id, key, c)
  {
    assert cid !in t.order;
    RemoveLast(t.order, cid);
    assert (t.entries[cid := r][id := AddCandidate(t.entries[id], key, c)]) - {cid} == t.entries[id := AddCandidate(t.entries[id], key, c)];
  }

  /**
   * An empty section not resolved before (`{{#list}}{{/list}}`) leaves no
   * trace but an `Optional` candidate for its key in the parent: the
   * resolution it was given is deleted again, and the table's order is as
   * it was.
   */
  lemma EmptySectionOptional(g: G.Graph, rank: map<string, nat>, t: Table, id: string, ns: string, c: T.ParserNode, bound: nat)
    requires G.Valid(g) && G.Ranked(g, rank) && WfTable(t)
    requires id in rank && bound <= rank[id] && c.id in rank && rank[c.id] < bound
    requires id in t.entries && c.SectionNode? && c.propertyKey != ""
    requires G.EdgesFrom(g, c.id) == [] && c.id !in t.entries
    ensures ResolveChild(g, rank, t, id, ns, c, bound) == Step(AddTo(t, id, c.propertyKey, Optional), None)
  {
    var name := NestedName(ns, c.propertyKey).value;
    var created := Store(t, c.id, Resolution(name, [], map[]));
    assert ResolveNode(g, rank, t, c.id, name, [], rank[c.id]) == Step(created, None);
    assert ResolveChild(g, rank, t, id, ns, c, bound) == Step(Delete(AddTo(created, id, c.propertyKey, Optional), c.id), None);
    DeleteStored(t, id, c.id, c.propertyKey, Optional, Resolution(name, [], map[]));
  }

  /**
   * A value child without children of its own adds `Self` when its key is
   * `.` and `Value` otherwise, and changes nothing else.
   */
  lemma LeafValueOutcome(g: G.Graph, rank: map<string, nat>, t: Table, id: string, ns: string, c: T.ParserNode, bound: nat)
    requires G.Valid(g) && G.Ranked(g, rank)
    requires id in rank && bound <= rank[id] && c.id in rank && rank[c.id] < bound
    requires id in t.entries && c.ValueNode? && G.EdgesFrom(g, c.id) == []
    ensures var r := ResolveChild(g, rank, t, id, ns, c, bound);
      && r.failure.None?
      && r.table.entries == t.entries[id := AddCandidate(t.entries[id], c.propertyKey, if c.propertyKey == "." then Self(c.id) else Value)]
      && r.table.order == t.order
  {
  }

  /**
   * A value child with children of its own (a dotted name) is resolved as
   * a nested record named `ns` followed by the upper-cased key, and the
   * parent gains `Record` of that type; an empty key throws.
   */
  lemma NestedValueOutcome(g: G.Graph, rank: map<string, nat>, t: Table, id: string, ns: string, c: T.ParserNode, bound: nat)
    requires G.Valid(g) && G.Ranked(g, rank)
    requires id in rank && bound <= rank[id] && c.id in rank && rank[c.id] < bound
    requires id in t.entries && c.ValueNode? && G.EdgesFrom(g, c.id) != []
    ensures var r := ResolveChild(g, rank, t, id, ns, c, bound);
      && (c.propertyKey == "" ==> r == Step(t, Some(T.UpperFirstOfEmpty)))
      && (r.failure.None? ==>
            && c.id in r.table.entries
            && r.table.entries[id] == AddCandidate(t.entries[id], c.propertyKey, Record(r.table.entries[c.id].typeName))
            && (c.id !in t.entries ==> r.table.entries[c.id].typeName == ns + UpperFirst(c.propertyKey).value))
  {
    ChildrenFit(g, rank, c.id);
    var edges := G.EdgesFrom(g, c.id);
    var nested := NestedName(ns, c.propertyKey);
    if nested.Success? {
      var s := ResolveNode(g, rank, t, c.id, nested.value, edges, rank[c.id]);
      ResolveNodeSettled(g, rank, t, c.id, nested.value, edges, rank[c.id]);
      if s.failure.None? {
        assert s.table.entries[id] == t.entries[id];
        assert ResolveChild(g, rank, t, id, ns, c, bound).table == AddTo(s.table, id, c.propertyKey, Record(s.table.entries[c.id].typeName));
      }
    }
  }

  /**
   * A partial is inlined: its children are resolved straight into the
   * resolution that includes it, under that resolution's namespace, and a
   * partial with no children changes nothing.
   */
  lemma PartialInlined(g: G.Graph, rank: map<string, nat>, t: Table, id: string, ns: string, c: T.ParserNode, bound: nat)
    requires G.Valid(g) && G.Ranked(g, rank)
    requires id in rank && bound <= rank[id] && c.id in rank && rank[c.id] < bound
    requires id in t.entries && c.TemplateNode?
    ensures (ChildrenFit(g, rank, c.id);
      ResolveChild(g, rank, t, id, ns, c, bound) == ResolveChildren(g, rank, t, id, ns, G.EdgesFrom(g, c.id), rank[c.id]))
    ensures G.EdgesFrom(g, c.id) == [] ==> ResolveChild(g, rank, t, id, ns, c, bound) == Step(t, None)
  {
    ChildrenFit(g, rank, c.id);
  }
}
