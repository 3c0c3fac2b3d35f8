/**
 * The type names the resolver derives from template names and property keys
 * (`upperFirst` and `namespaceFor` in src/declarations/renderer.ts).
 */
module Naming {
  import opened Wrappers
  import opened Types

  /** `toUpperCase` on one character, for the ASCII letters only. */
  function Upper(c: char): (u: char)
    ensures 'a' <= c <= 'z' ==> 'A' <= u <= 'Z' && u as int == c as int - 32
    ensures !('a' <= c <= 'z') ==> u == c
  {
    if 'a' <= c <= 'z' then (c as int - 32) as char else c
  }

  /**
   * `upperFirst`: the first character upper-cased, the rest unchanged. On the
   * empty string `str[0]` is undefined and the call throws.
   */
  function UpperFirst(s: string): (r: Result<string, Failure>)
    ensures r.Failure? <==> s == ""
    ensures r.Failure? ==> r.error == UpperFirstOfEmpty
    ensures r.Success? ==> |r.value| == |s| && r.value[0] == Upper(s[0]) && r.value[1..] == s[1..]
  {
    if s == "" then Failure(UpperFirstOfEmpty) else Success([Upper(s[0])] + s[1..])
  }

  /** Upper-casing the first character a second time changes nothing. */
  lemma UpperFirstIdempotent(s: string)
    requires s != ""
    ensures UpperFirst(UpperFirst(s).value) == UpperFirst(s)
  {
  }

  /** The characters `[a-z0-9_]` matches case-insensitively. */
  predicate IsWord(c: char)
  {
    'a' <= c <= 'z' || 'A' <= c <= 'Z' || '0' <= c <= '9' || c == '_'
  }

  predicate AllWord(s: string)
  {
    forall i :: 0 <= i < |s| ==> IsWord(s[i])
  }

  /** What is left after the run of non-word characters at the start of `s`. */
  function SkipRun(s: string): (r: string)
    ensures |r| <= |s|
    ensures r == [] || IsWord(r[0])
    ensures r == s[|s| - |r|..]
  {
    if s == [] || IsWord(s[0]) then s else SkipRun(s[1..])
  }

  /** `.replace(/[^a-z0-9_]+/gi, '_')`: every maximal run of non-word characters becomes one `_`. */
  function Sanitize(s: string): string
    decreases |s|
  {
    if s == [] then []
    else if IsWord(s[0]) then [s[0]] + Sanitize(s[1..])
    else "_" + Sanitize(SkipRun(s[1..]))
  }

  /** The sanitised name is made of word characters only. */
  lemma {:induction false} SanitizeAllWord(s: string)
    ensures AllWord(Sanitize(s))
    decreases |s|
  {
    if s == [] {
    } else if IsWord(s[0]) {
      SanitizeAllWord(s[1..]);
    } else {
      SanitizeAllWord(SkipRun(s[1..]));
    }
  }

  /** A name made of word characters is left as it is. */
  lemma {:induction false} SanitizeKeepsWords(s: string)
    requires AllWord(s)
    ensures Sanitize(s) == s
    decreases |s|
  {
    if s != [] {
      assert IsWord(s[0]);
      SanitizeKeepsWords(s[1..]);
    }
  }

  /** Sanitising twice is sanitising once. */
  lemma SanitizeIdempotent(s: string)
    ensures Sanitize(Sanitize(s)) == Sanitize(s)
  {
    SanitizeAllWord(s);
    SanitizeKeepsWords(Sanitize(s));
  }

  /** Sanitising never lengthens a name, and keeps a non-empty name non-empty. */
  lemma {:induction false} SanitizeLength(s: string)
    ensures |Sanitize(s)| <= |s|
    ensures s != [] ==> Sanitize(s) != []
    decreases |s|
  {
    if s == [] {
    } else if IsWord(s[0]) {
      SanitizeLength(s[1..]);
    } else {
      SanitizeLength(SkipRun(s[1..]));
    }
  }

  /** A whole run of non-word characters, however long, becomes a single `_`. */
  lemma SanitizeRun(s: string)
    requires s != [] && forall i :: 0 <= i < |s| ==> !IsWord(s[i])
    ensures Sanitize(s) == "_"
  {
    assert SkipRun(s[1..]) == [];
  }

  /** `namespaceFor`: the template's property key, first character upper-cased, then sanitised. */
  function NamespaceFor(t: ParserNode): (r: Result<string, Failure>)
    requires t.TemplateNode?
  {
    match UpperFirst(t.propertyKey)
    case Failure(e) => Failure(e)
    case Success(up) => Success(Sanitize(up))
  }

  /**
   * A template name gives a namespace exactly when it is not empty; the
   * namespace is a non-empty identifier of word characters, and an
   * identifier that already starts with a capital is kept as it is.
   */
  lemma NamespaceForShape(t: ParserNode)
    requires t.TemplateNode?
    ensures NamespaceFor(t).Failure? <==> t.propertyKey == ""
    ensures NamespaceFor(t).Success? ==> NamespaceFor(t).value != "" && AllWord(NamespaceFor(t).value)
    ensures AllWord(t.propertyKey) && t.propertyKey != "" && 'A' <= t.propertyKey[0] <= 'Z' ==> NamespaceFor(t) == Success(t.propertyKey)
  {
    var key := t.propertyKey;
    if key != "" {
      var up := UpperFirst(key).value;
      SanitizeAllWord(up);
      SanitizeLength(up);
      if AllWord(key) && 'A' <= key[0] <= 'Z' {
        assert up == key;
        SanitizeKeepsWords(key);
      }
    }
  }

  /** The name of a type nested in the namespace `ns` under `key`: no sanitising here. */
  function NestedName(ns: string, key: string): (r: Result<string, Failure>)
    ensures r.Failure? <==> key == ""
    ensures r.Success? ==> r.value == ns + [Upper(key[0])] + key[1..]
  {
    match UpperFirst(key)
    case Failure(e) => Failure(e)
    case Success(up) =>
      assert up == [Upper(key[0])] + key[1..];
      Success(ns + up)
  }
}
