/**
 * The text the resolver emits for each resolution (`propertyString` and
 * `resolutionToTypeString` in src/declarations/renderer.ts), and the utility
 * types those declarations lean on (`utilityTypes`).
 */
module Declarations {
  import opened Resolution
  import G = Graph

  /** The keys of `utilityTypes`, in declaration order. */
  datatype Utility = ValueType | RecordType | SectionLambdaType | SectionOptionalType | SectionType

  const UtilityOrder: seq<Utility> := [ValueType, RecordType, SectionLambdaType, SectionOptionalType, SectionType]

  /** The definition emitted for each utility type. */
  function UtilityText(u: Utility): string
  {
    match u
    case ValueType => "type MustacheValue = string | number | boolean | (() => MustacheValue)"
    case RecordType => "type MustacheRecord<T> = T"
    case SectionLambdaType =>
      "/**\n *  Placeholder for evaluating a lambda invoked as a Section value.\n *\n"
      + " *  @see {@link https://github.com/mustache/spec/blob/master/specs/~lambdas.yml}\n */\n"
      + "interface MustacheSectionLambda<T> {\n  (template: string, render: (...args: any[]) => string): string\n}"
    case SectionOptionalType => "type MustacheSectionOptional = MustacheValue | MustacheSectionLambda<any>"
    case SectionType => "type MustacheSection<T> = T[] | T | () => MustacheSectionLambda<T>"
  }

  /** The other utility types whose names a utility's own definition uses. */
  function Needs(u: Utility): set<Utility>
  {
    match u
    case SectionOptionalType => {ValueType, SectionLambdaType}
    case SectionType => {SectionLambdaType}
    case _ => {}
  }

  /** A set of utility types that brings along every type its members use. */
  predicate Closed(used: set<Utility>)
  {
    forall u :: u in used ==> Needs(u) <= used
  }

  // ---------------------------------------------------------------------
  // One property
  // ---------------------------------------------------------------------

  /** The line a property whose candidates include a SELF becomes. */
  const SelfPlaceholder: string := "  // self-reference ({{.}}) intentionally left blank"

  predicate NoSelf(cs: seq<Candidate>)
  {
    forall j :: 0 <= j < |cs| ==> !cs[j].Self?
  }

  /** The position of the first SELF candidate, or the length when there is none. */
  function FirstSelf(cs: seq<Candidate>): (n: nat)
    ensures n <= |cs| && NoSelf(cs[..n])
    ensures n < |cs| ==> cs[n].Self?
  {
    if cs == [] then 0
    else if cs[0].Self? then 0
    else
      var n := 1 + FirstSelf(cs[1..]);
      assert forall j :: 1 <= j < n ==> cs[j] == cs[1..][j - 1];
      n
  }

  /** The type fragment each candidate other than SELF contributes. */
  function Fragment(c: Candidate): string
    requires !c.Self?
  {
    match c
    case Record(name) => "MustacheRecord<" + name + ">"
    case Section(name) => "MustacheSection<" + name + ">"
    case Value => "MustacheValue"
    case Optional => "MustacheSectionOptional"
  }

  /** The utility types each candidate records as used. */
  function UtilitiesOf(c: Candidate): set<Utility>
  {
    match c
    case Record(_) => {RecordType}
    case Section(_) => {SectionLambdaType, SectionType}
    case Value => {ValueType}
    case Optional => {ValueType, SectionLambdaType, SectionOptionalType}
    case Self(_) => {}
  }

  function Fragments(cs: seq<Candidate>): (fs: seq<string>)
    requires NoSelf(cs)
  {
    if cs == [] then [] else Fragments(cs[..|cs| - 1]) + [Fragment(cs[|cs| - 1])]
  }

  function Recorded(cs: seq<Candidate>): set<Utility>
  {
    if cs == [] then {} else Recorded(cs[..|cs| - 1]) + UtilitiesOf(cs[|cs| - 1])
  }

  /** Some candidate is a SECTION or an OPTIONAL. */
  predicate MarksOptional(cs: seq<Candidate>)
  {
    exists j :: 0 <= j < |cs| && (cs[j].Section? || cs[j].Optional?)
  }

  /** `Array.from(new Set(s))`: each element once, where it first occurs. */
  function Dedup(s: seq<string>): seq<string>
  {
    if s == [] then []
    else
      var d := Dedup(s[..|s| - 1]);
      if s[|s| - 1] in d then d else d + [s[|s| - 1]]
  }

  /** `Array.prototype.join`. */
  function JoinWith(parts: seq<string>, sep: string): string
  {
    if parts == [] then ""
    else if |parts| == 1 then parts[0]
    else parts[0] + sep + JoinWith(parts[1..], sep)
  }

  /**
   * `propertyString(k, candidates)`: the placeholder as soon as a SELF is
   * met; otherwise the key, marked optional when a SECTION or OPTIONAL is
   * among its candidates, and the distinct fragments joined with ` & `.
   */
  function PropertyLine(key: string, cs: seq<Candidate>): string
  {
    var n := FirstSelf(cs);
    if n < |cs| then SelfPlaceholder
    else "  " + key + (if MarksOptional(cs) then "?" else "") + ": " + JoinWith(Dedup(Fragments(cs)), " & ")
  }

  /** The utility types `propertyString` records: those of the candidates before the first SELF. */
  function PropertyUtilities(cs: seq<Candidate>): set<Utility>
  {
    Recorded(cs[..FirstSelf(cs)])
  }

  // ---------------------------------------------------------------------
  // What is proved about one property
  // ---------------------------------------------------------------------

  lemma {:induction false} DedupElements(s: seq<string>)
    ensures forall x :: x in Dedup(s) <==> x in s
    ensures G.NoDuplicates(Dedup(s))
  {
    if s != [] {
      DedupElements(s[..|s| - 1]);
      assert s == s[..|s| - 1] + [s[|s| - 1]];
    }
  }

  /** A list without repeats is its own de-duplication. */
  lemma {:induction false} DedupDistinct(s: seq<string>)
    requires G.NoDuplicates(s)
    ensures Dedup(s) == s
  {
    if s != [] {
      DedupDistinct(s[..|s| - 1]);
      assert s[|s| - 1] !in s[..|s| - 1];
      assert s == s[..|s| - 1] + [s[|s| - 1]];
    }
  }

  /** The de-duplication of a prefix is a prefix of the de-duplication: first occurrences keep their order. */
  lemma {:induction false} DedupPrefix(s: seq<string>, i: nat)
    requires i <= |s|
    ensures Dedup(s[..i]) <= Dedup(s)
    decreases |s|
  {
    if i < |s| {
      DedupPrefix(s[..|s| - 1], i);
      assert s[..|s| - 1][..i] == s[..i];
    } else {
      assert s[..i] == s;
    }
  }

  /** Repeating elements that are already there adds nothing. */
  lemma {:induction false} DedupAbsorbs(a: seq<string>, b: seq<string>)
    requires forall x :: x in b ==> x in a
    ensures Dedup(a + b) == Dedup(a)
    decreases |b|
  {
    if b == [] {
      assert a + b == a;
    } else {
      var c := a + b;
      assert c[..|c| - 1] == a + b[..|b| - 1];
      DedupAbsorbs(a, b[..|b| - 1]);
      DedupElements(a);
      assert c[|c| - 1] == b[|b| - 1];
    }
  }

  lemma {:induction false} FragmentsAppend(a: seq<Candidate>, b: seq<Candidate>)
    requires NoSelf(a) && NoSelf(b)
    ensures NoSelf(a + b) && Fragments(a + b) == Fragments(a) + Fragments(b)
    decreases |b|
  {
    if b != [] {
      var c := a + b;
      assert c[..|c| - 1] == a + b[..|b| - 1];
      FragmentsAppend(a, b[..|b| - 1]);
    } else {
      assert a + b == a;
    }
  }

  lemma {:induction false} FragmentsElements(cs: seq<Candidate>, x: string)
    requires NoSelf(cs)
    ensures x in Fragments(cs) <==> exists j :: 0 <= j < |cs| && Fragment(cs[j]) == x
  {
    if cs != [] {
      FragmentsElements(cs[..|cs| - 1], x);
      assert forall j :: 0 <= j < |cs| - 1 ==> cs[..|cs| - 1][j] == cs[j];
    }
  }

  lemma {:induction false} RecordedElements(cs: seq<Candidate>, u: Utility)
    ensures u in Recorded(cs) <==> exists j :: 0 <= j < |cs| && u in UtilitiesOf(cs[j])
  {
    if cs != [] {
      RecordedElements(cs[..|cs| - 1], u);
      assert forall j :: 0 <= j < |cs| - 1 ==> cs[..|cs| - 1][j] == cs[j];
    }
  }

  /** No SELF comes before the first one. */
  lemma {:induction false} FirstSelfAtMost(cs: seq<Candidate>, j: nat)
    requires j < |cs| && cs[j].Self?
    ensures FirstSelf(cs) <= j
  {
    if !cs[0].Self? {
      assert cs[1..][j - 1] == cs[j];
      FirstSelfAtMost(cs[1..], j - 1);
    }
  }

  /** A SELF anywhere among the candidates turns the line into the placeholder. */
  lemma PropertyLineSelf(key: string, cs: seq<Candidate>, j: nat)
    requires j < |cs| && cs[j].Self?
    ensures PropertyLine(key, cs) == SelfPlaceholder
  {
    FirstSelfAtMost(cs, j);
  }

  /**
   * Without a SELF the line starts with the key, followed by `?` exactly
   * when the property is optional.
   */
  lemma PropertyLineKey(key: string, cs: seq<Candidate>)
    requires NoSelf(cs)
    ensures var line := PropertyLine(key, cs);
      && |line| > 2 + |key|
      && line[..2 + |key|] == "  " + key
      && (line[2 + |key|] == '?' <==> MarksOptional(cs))
  {
    FirstSelfNone(cs);
    var head := "  " + key;
    var mark := if MarksOptional(cs) then "?" else "";
    var rest := mark + ": " + JoinWith(Dedup(Fragments(cs)), " & ");
    assert PropertyLine(key, cs) == head + rest;
    assert rest[0] == (mark + ": ")[0];
    assert (head + rest)[..|head|] == head;
    assert (head + rest)[|head|] == rest[0];
  }

  /** What `propertyString` records: the utility types of each candidate before the first SELF. */
  lemma PropertyUtilitiesBeforeSelf(cs: seq<Candidate>, u: Utility)
    ensures u in PropertyUtilities(cs) <==> exists j :: 0 <= j < FirstSelf(cs) && u in UtilitiesOf(cs[j])
  {
    var before := cs[..FirstSelf(cs)];
    RecordedElements(before, u);
    assert forall j :: 0 <= j < |before| ==> before[j] == cs[j];
  }

  /** Without a SELF, a property is marked optional exactly when it records the lambda type. */
  lemma OptionalIffLambda(cs: seq<Candidate>)
    requires NoSelf(cs)
    ensures MarksOptional(cs) <==> SectionLambdaType in PropertyUtilities(cs)
  {
    FirstSelfNone(cs);
    PropertyUtilitiesBeforeSelf(cs, SectionLambdaType);
    if MarksOptional(cs) {
      var j :| 0 <= j < |cs| && (cs[j].Section? || cs[j].Optional?);
      assert SectionLambdaType in UtilitiesOf(cs[j]);
    }
    if SectionLambdaType in PropertyUtilities(cs) {
      var j :| 0 <= j < |cs| && SectionLambdaType in UtilitiesOf(cs[j]);
      assert cs[j].Section? || cs[j].Optional?;
    }
  }

  /** What a property records brings along every utility type it uses. */
  lemma {:induction false} RecordedClosed(cs: seq<Candidate>)
    ensures Closed(Recorded(cs))
  {
    if cs != [] {
      RecordedClosed(cs[..|cs| - 1]);
    }
  }

  lemma MarksOptionalAbsorbs(a: seq<Candidate>, b: seq<Candidate>)
    requires forall x :: x in b ==> x in a
    ensures MarksOptional(a + b) == MarksOptional(a)
  {
    if MarksOptional(a + b) {
      var j :| 0 <= j < |a + b| && ((a + b)[j].Section? || (a + b)[j].Optional?);
      if j >= |a| {
        assert b[j - |a|] in b;
        var k :| 0 <= k < |a| && a[k] == b[j - |a|];
      }
    }
    if MarksOptional(a) {
      var j :| 0 <= j < |a| && (a[j].Section? || a[j].Optional?);
      assert (a + b)[j] == a[j];
    }
  }

  lemma RecordedAbsorbs(a: seq<Candidate>, b: seq<Candidate>)
    requires forall x :: x in b ==> x in a
    ensures Recorded(a + b) == Recorded(a)
  {
    forall u ensures u in Recorded(a + b) <==> u in Recorded(a) {
      RecordedElements(a + b, u);
      RecordedElements(a, u);
      if u in Recorded(a + b) {
        var j :| 0 <= j < |a + b| && u in UtilitiesOf((a + b)[j]);
        if j >= |a| {
          assert b[j - |a|] in b;
          var k :| 0 <= k < |a| && a[k] == b[j - |a|];
        }
      }
      if u in Recorded(a) {
        var j :| 0 <= j < |a| && u in UtilitiesOf(a[j]);
        assert (a + b)[j] == a[j];
      }
    }
  }

  lemma FragmentsAbsorb(a: seq<Candidate>, b: seq<Candidate>)
    requires NoSelf(a) && NoSelf(b)
    requires forall x :: x in b ==> x in a
    ensures NoSelf(a + b) && Dedup(Fragments(a + b)) == Dedup(Fragments(a))
  {
    FragmentsAppend(a, b);
    forall x | x in Fragments(b) ensures x in Fragments(a) {
      FragmentsElements(b, x);
      var j :| 0 <= j < |b| && Fragment(b[j]) == x;
      assert b[j] in b;
      var k :| 0 <= k < |a| && a[k] == b[j];
      FragmentsElements(a, x);
    }
    DedupAbsorbs(Fragments(a), Fragments(b));
  }

  /**
   * Candidates that repeat ones already present change neither the line nor
   * what it records.
   */
  lemma PropertyLineAbsorbs(key: string, a: seq<Candidate>, b: seq<Candidate>)
    requires forall x :: x in b ==> x in a
    ensures PropertyLine(key, a + b) == PropertyLine(key, a)
    ensures PropertyUtilities(a + b) == PropertyUtilities(a)
  {
    var n := FirstSelf(a);
    if n < |a| {
      FirstSelfPrefix(a, b);
      assert (a + b)[..n] == a[..n];
    } else {
      assert a[..n] == a;
      assert NoSelf(b) by {
        forall j | 0 <= j < |b| ensures !b[j].Self? {
          assert b[j] in b;
          var k :| 0 <= k < |a| && a[k] == b[j];
        }
      }
      FragmentsAbsorb(a, b);
      FirstSelfNone(a + b);
      assert (a + b)[..|a + b|] == a + b;
      MarksOptionalAbsorbs(a, b);
      RecordedAbsorbs(a, b);
    }
  }

  /** Without a SELF the first SELF is at the end. */
  lemma FirstSelfNone(cs: seq<Candidate>)
    requires NoSelf(cs)
    ensures FirstSelf(cs) == |cs|
  {
  }

  /** A SELF with none before it is the first. */
  lemma FirstSelfAt(cs: seq<Candidate>, i: nat)
    requires i < |cs| && NoSelf(cs[..i]) && cs[i].Self?
    ensures FirstSelf(cs) == i
  {
  }

  /** `['', ...lines, ''].join(sep)`: the lines joined, with a separator before and after. */
  lemma {:induction false} JoinFramed(lines: seq<string>, sep: string)
    requires lines != []
    ensures JoinWith([""] + lines + [""], sep) == sep + JoinWith(lines, sep) + sep
  {
    JoinLast(lines, sep);
    assert ([""] + lines + [""])[1..] == lines + [""];
  }

  /** Joining with one more element appends the separator and that element. */
  lemma {:induction false} JoinLast(lines: seq<string>, sep: string)
    requires lines != []
    ensures JoinWith(lines + [""], sep) == JoinWith(lines, sep) + sep
  {
    if |lines| > 1 {
      JoinLast(lines[1..], sep);
      assert (lines + [""])[1..] == lines[1..] + [""];
    }
  }

  /** The first SELF of `a`, if any, is the first SELF of `a + b`. */
  lemma FirstSelfPrefix(a: seq<Candidate>, b: seq<Candidate>)
    requires FirstSelf(a) < |a|
    ensures FirstSelf(a + b) == FirstSelf(a)
  {
    var m := FirstSelf(a);
    assert (a + b)[m] == a[m];
    assert forall j :: 0 <= j < m ==> (a + b)[j] == a[..m][j];
  }

  // ---------------------------------------------------------------------
  // One resolution
  // ---------------------------------------------------------------------

  /** Every candidate of every property is a SELF. */
  predicate AllSelf(r: Resolution)
  {
    forall k :: k in r.candidates ==> forall j :: 0 <= j < |r.candidates[k]| ==> r.candidates[k][j].Self?
  }

  ghost predicate KeysStored(r: Resolution)
  {
    forall i :: 0 <= i < |r.keys| ==> r.keys[i] in r.candidates
  }

  /** One line per property, in key order. */
  function PropertyLines(r: Resolution): (lines: seq<string>)
    requires KeysStored(r)
  {
    seq(|r.keys|, i requires 0 <= i < |r.keys| => PropertyLine(r.keys[i], r.candidates[r.keys[i]]))
  }

  /** What the properties of the first `n` keys record, in turn. */
  function KeysUtilities(r: Resolution, n: nat): set<Utility>
    requires n <= |r.keys| && KeysStored(r)
  {
    if n == 0 then {} else KeysUtilities(r, n - 1) + PropertyUtilities(r.candidates[r.keys[n - 1]])
  }

  /**
   * `resolutionToTypeString`: an empty interface for a resolution without
   * properties, an alias of the value type when every candidate is a SELF,
   * and otherwise an interface with one line per property.
   */
  function TypeString(r: Resolution): string
    requires KeysStored(r)
  {
    if |r.keys| == 0 then "interface " + r.typeName + " {}"
    else if AllSelf(r) then "type " + r.typeName + " = MustacheValue"
    else "interface " + r.typeName + " {\n" + JoinWith(PropertyLines(r), "\n") + "\n}"
  }


  /** One turn of the loop over the keys. */
  lemma PropertyLinesStep(r: Resolution, i: nat)
    requires KeysStored(r) && i < |r.keys|
    ensures PropertyLines(r)[..i + 1] == PropertyLines(r)[..i] + [PropertyLine(r.keys[i], r.candidates[r.keys[i]])]
    ensures KeysUtilities(r, i + 1) == KeysUtilities(r, i) + PropertyUtilities(r.candidates[r.keys[i]])
  {
  }

  /** The interface text as `resolutionToTypeString` assembles it: the lines between two empty ones. */
  lemma TypeStringFramed(r: Resolution)
    requires KeysStored(r) && |r.keys| > 0 && !AllSelf(r)
    ensures TypeString(r) == "interface " + r.typeName + " {" + JoinWith([""] + PropertyLines(r) + [""], "\n") + "}"
  {
    JoinFramed(PropertyLines(r), "\n");
  }

  /**
   * What the alias of an all-SELF resolution records: nothing, as the source
   * is written, although it names the value type; or, corrected, that type.
   */
  datatype Alias = AsWritten | Corrected

  /** The utility types `resolutionToTypeString` records. */
  function TypeUtilities(r: Resolution, alias: Alias): set<Utility>
    requires KeysStored(r)
  {
    if |r.keys| == 0 then {}
    else if AllSelf(r) then (if alias == Corrected then {ValueType} else {})
    else KeysUtilities(r, |r.keys|)
  }

  /** The utility type whose name each fragment spells out. */
  function FragmentNames(c: Candidate): set<Utility>
  {
    match c
    case Record(_) => {RecordType}
    case Section(_) => {SectionType}
    case Value => {ValueType}
    case Optional => {SectionOptionalType}
    case Self(_) => {}
  }

  function Named(cs: seq<Candidate>): set<Utility>
  {
    if cs == [] then {} else Named(cs[..|cs| - 1]) + FragmentNames(cs[|cs| - 1])
  }

  /** The utility types a property line names: none for the placeholder. */
  function LineNames(cs: seq<Candidate>): set<Utility>
  {
    if FirstSelf(cs) < |cs| then {} else Named(cs)
  }

  function KeysNames(r: Resolution, n: nat): set<Utility>
    requires n <= |r.keys| && KeysStored(r)
  {
    if n == 0 then {} else KeysNames(r, n - 1) + LineNames(r.candidates[r.keys[n - 1]])
  }

  /** The utility types the declaration of `r` names. */
  function TypeNames(r: Resolution): set<Utility>
    requires KeysStored(r)
  {
    if |r.keys| == 0 then {}
    else if AllSelf(r) then {ValueType}
    else KeysNames(r, |r.keys|)
  }

  lemma {:induction false} NamedRecorded(cs: seq<Candidate>)
    ensures Named(cs) <= Recorded(cs)
  {
    if cs != [] {
      NamedRecorded(cs[..|cs| - 1]);
    }
  }

  lemma {:induction false} KeysUtilitiesCover(r: Resolution, n: nat)
    requires n <= |r.keys| && KeysStored(r)
    ensures KeysNames(r, n) <= KeysUtilities(r, n)
    ensures Closed(KeysUtilities(r, n))
  {
    if n > 0 {
      KeysUtilitiesCover(r, n - 1);
      var cs := r.candidates[r.keys[n - 1]];
      RecordedClosed(cs[..FirstSelf(cs)]);
      if FirstSelf(cs) == |cs| {
        assert cs[..FirstSelf(cs)] == cs;
        NamedRecorded(cs);
      }
    }
  }

  /**
   * With the alias corrected, every utility type a declaration names is
   * recorded, together with every type those use: emitting the recorded
   * types leaves no name undefined.
   */
  lemma TypeUtilitiesCover(r: Resolution)
    requires KeysStored(r)
    ensures TypeNames(r) <= TypeUtilities(r, Corrected)
    ensures Closed(TypeUtilities(r, Corrected))
  {
    KeysUtilitiesCover(r, |r.keys|);
  }

  /**
   * As written, the alias for a resolution whose one property is a `{{.}}`
   * names `MustacheValue` without recording it (the section body of
   * `{{#items}}{{{.}}}{{/items}}`).
   */
  lemma AliasLeavesValueUndefined()
    ensures var r := Resolution("TestItems", ["."], map["." := [Self("test_items_.")]]);
      && KeysStored(r)
      && TypeString(r) == "type TestItems = MustacheValue"
      && ValueType in TypeNames(r)
      && ValueType !in TypeUtilities(r, AsWritten)
  {
    var r := Resolution("TestItems", ["."], map["." := [Self("test_items_.")]]);
    assert r.candidates.Keys == {"."};
    assert AllSelf(r);
  }
}
