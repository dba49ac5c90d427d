/** Capsule paths: slash-separated text and component sequences (src/extraction.rs). */
module Paths {
  import opened Basics

  /** `s.split('/')`: always at least one component. */
  function Split(s: string): (cs: seq<string>)
    ensures cs != []
    ensures forall i :: 0 <= i < |cs| ==> '/' !in cs[i]
  {
    if s == "" then [""]
    else
      var rest := Split(s[1..]);
      if s[0] == '/' then [""] + rest else [[s[0]] + rest[0]] + rest[1..]
  }

  /** Components put together with slashes. */
  function Join(cs: seq<string>): string
    requires cs != []
  {
    if |cs| == 1 then cs[0] else cs[0] + "/" + Join(cs[1..])
  }

  lemma {:induction false} JoinSplit(s: string)
    ensures Join(Split(s)) == s
  {
    if s != "" {
      JoinSplit(s[1..]);
      var rest := Split(s[1..]);
      assert s == [s[0]] + s[1..];
      if s[0] == '/' {
        assert ([""] + rest)[1..] == rest;
      } else {
        assert Split(s)[1..] == rest[1..];
      }
    }
  }

  lemma {:induction false} SplitText(text: string)
    requires '/' !in text
    ensures Split(text) == [text]
  {
    if text != "" {
      SplitText(text[1..]);
      assert [text[0]] + text[1..] == text;
    }
  }

  lemma {:induction false} SplitFirst(text: string, tail: string)
    requires '/' !in text
    ensures Split(text + "/" + tail) == [text] + Split(tail)
  {
    var s := text + "/" + tail;
    if text == "" {
      assert s[1..] == tail;
    } else {
      assert s[1..] == text[1..] + "/" + tail;
      SplitFirst(text[1..], tail);
      assert [text[0]] + text[1..] == text;
    }
  }

  lemma {:induction false} SplitJoin(cs: seq<string>)
    requires cs != [] && forall i :: 0 <= i < |cs| ==> '/' !in cs[i]
    ensures Split(Join(cs)) == cs
  {
    if |cs| == 1 {
      SplitText(cs[0]);
      assert cs == [cs[0]];
    } else {
      SplitJoin(cs[1..]);
      SplitFirst(cs[0], Join(cs[1..]));
      assert cs == [cs[0]] + cs[1..];
    }
  }

  /** Joining one more component. */
  lemma {:induction false} JoinAppend(cs: seq<string>, last: string)
    requires cs != []
    ensures Join(cs + [last]) == Join(cs) + "/" + last
  {
    if |cs| == 1 {
      assert (cs + [last])[1..] == [last];
    } else {
      assert (cs + [last])[1..] == cs[1..] + [last];
      JoinAppend(cs[1..], last);
      assert cs[0] + "/" + (Join(cs[1..]) + "/" + last) == cs[0] + "/" + Join(cs[1..]) + "/" + last;
    }
  }

  predicate ValidComponent(component: string) {
    && component != "" && component != "." && component != ".."
    && '\\' !in component && ':' !in component && '\0' !in component
  }

  /** `portable_path`: the components of a path that can be materialised. */
  function PortablePath(path: string): (r: Option<seq<string>>)
    ensures r.Some? ==> r.value == Split(path) && r.value != []
  {
    if path == "" || path[0] == '/' then None
    else if forall component :: component in Split(path) ==> ValidComponent(component) then Some(Split(path))
    else None
  }

  lemma PortableInjective(a: string, b: string)
    requires PortablePath(a).Some? && PortablePath(a) == PortablePath(b)
    ensures a == b
  {
    JoinSplit(a);
    JoinSplit(b);
  }

  // ---- Portable paths are those that resolve to themselves -----------------------------------

  /** Lexical resolution of further components from a resolved base: empty components and `.` are
      dropped, `..` removes the last component. */
  function Resolve(base: seq<string>, components: seq<string>): seq<string>
    decreases |components|
  {
    if components == [] then base
    else
      var first, rest := components[0], components[1..];
      if first == "" || first == "." then Resolve(base, rest)
      else if first == ".." then Resolve(if base == [] then [] else base[..|base| - 1], rest)
      else Resolve(base + [first], rest)
  }

  /** Ordinary names, that resolution keeps. */
  predicate Ordinary(components: seq<string>) {
    forall c :: c in components ==> c != "" && c != "." && c != ".."
  }

  lemma {:induction false} ResolveLength(base: seq<string>, components: seq<string>)
    ensures |Resolve(base, components)| <= |base| + |components|
    decreases |components|
  {
    if components != [] {
      var first, rest := components[0], components[1..];
      ResolveLength(base, rest);
      ResolveLength(base + [first], rest);
      ResolveLength(if base == [] then [] else base[..|base| - 1], rest);
    }
  }

  lemma OrdinaryAppend(a: seq<string>, b: seq<string>)
    ensures Ordinary(a + b) <==> Ordinary(a) && Ordinary(b)
  {
    assert forall c :: c in a + b <==> c in a || c in b;
    assert Ordinary(a + b) ==> (forall c :: c in a ==> c in a + b) && (forall c :: c in b ==> c in a + b);
  }

  /** Resolution keeps all components exactly when they are all ordinary names. */
  lemma {:induction false} ResolveIff(base: seq<string>, components: seq<string>)
    ensures Resolve(base, components) == base + components <==> Ordinary(components)
    decreases |components|
  {
    if components == [] {
      assert base + components == base;
    } else {
      var first, rest := components[0], components[1..];
      OrdinaryFirst(first, rest);
      assert components == [first] + rest;
      assert |base + components| == |base| + 1 + |rest|;
      hide Ordinary;
      if first != "" && first != "." && first != ".." {
        ResolveIff(base + [first], rest);
        assert (base + [first]) + rest == base + components;
      } else {
        ResolveLength(if first != ".." then base else if base == [] then [] else base[..|base| - 1], rest);
      }
    }
  }

  lemma OrdinaryFirst(first: string, rest: seq<string>)
    ensures Ordinary([first] + rest) <==> first != "" && first != "." && first != ".." && Ordinary(rest)
  {
    assert forall c :: c in [first] + rest <==> c == first || c in rest;
    assert first in [first] + rest;
  }

  /** No backslash, colon or NUL. */
  predicate Plain(text: string) {
    '\\' !in text && ':' !in text && '\0' !in text
  }

  lemma {:induction false} PlainComponents(s: string)
    ensures Plain(s) <==> forall c :: c in Split(s) ==> Plain(c)
  {
    if s != "" {
      var rest := Split(s[1..]);
      PlainComponents(s[1..]);
      assert rest == [rest[0]] + rest[1..];
      assert s == [s[0]] + s[1..];
      if s[0] == '/' {
        assert Split(s) == [""] + rest;
      } else {
        assert Split(s) == [[s[0]] + rest[0]] + rest[1..];
        assert Plain([s[0]] + rest[0]) <==> Plain([s[0]]) && Plain(rest[0]);
        assert Plain([s[0]] + rest[0]) ==> Plain(rest[0]);
      }
    }
  }

  /** A path is portable exactly when it has no such character and, from any base, resolving its
      components keeps every one of them: it leads below the base and nowhere else. */
  lemma PortableIff(path: string, base: seq<string>)
    ensures PortablePath(path).Some? <==> Plain(path) && Resolve(base, Split(path)) == base + Split(path)
  {
    ResolveIff(base, Split(path));
    PlainComponents(path);
    if path == "" || path[0] == '/' {
      assert Split(path)[0] == "";
      assert Split(path)[0] in Split(path);
    }
  }
}
