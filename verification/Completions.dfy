/** Completions of GN labels: splitting into segments, a trie of segments, and its first branching. */
module LabelSegments {
  import opened Machine
  import opened Strings

  function Concat(segments: seq<string>): (s: string) {
    if segments == [] then "" else segments[0] + Concat(segments[1..])
  }

  lemma {:induction false} ConcatAppend(a: seq<string>, b: seq<string>)
    ensures Concat(a + b) == Concat(a) + Concat(b)
    decreases |a|
  {
    if a == [] {
      assert a + b == b;
    } else {
      assert (a + b)[1..] == a[1..] + b;
      ConcatAppend(a[1..], b);
      Regroup(a[0], Concat(a[1..]), Concat(b));
    }
  }

  /** str.rindex for one character: the index of the last `c`, or -1 for the ValueError. */
  function LastIndexOf(s: string, c: char): (i: int)
    ensures -1 <= i < |s|
    ensures i >= 0 ==> s[i] == c
    ensures forall j :: i < j < |s| ==> s[j] != c
  {
    if s == "" then -1
    else if s[|s| - 1] == c then |s| - 1
    else LastIndexOf(s[..|s| - 1], c)
  }

  /** The index of the first '/' after position 0, or -1. */
  function NextSlash(s: string): (i: int)
    ensures i == -1 || (0 < i < |s| && s[i] == '/')
    ensures forall j :: 1 <= j < (if i == -1 then |s| else i) ==> s[j] != '/'
  {
    if s == "" then -1
    else
      var i := 1 + IndexOf(s[1..], '/');
      if i < |s| then i else -1
  }

  /** A segment that is cut at its slashes: none after its first character. */
  predicate Cut(segment: string) {
    segment != "" && '/' !in segment[1..]
  }

  /** All segments are cut, and each but the first begins with its slash. */
  predicate AllCut(segments: seq<string>) {
    && (forall i :: 0 <= i < |segments| ==> Cut(segments[i]))
    && (forall i :: 0 < i < |segments| ==> segments[i][0] == '/')
  }

  lemma ConcatSnoc(segments: seq<string>, s: string, from: nat, to: nat)
    requires from <= to <= |s| && Concat(segments) == s[..from]
    ensures Concat(segments + [s[from..to]]) == s[..to]
  {
    ConcatAppend(segments, [s[from..to]]);
    assert Concat([s[from..to]]) == s[from..to] + "";
    assert s[..from] + s[from..to] == s[..to];
  }

  /** The loop over the directory part: cut before every slash but one at the beginning. */
  method SplitPath(path: string) returns (segments: seq<string>)
    ensures Concat(segments) == path
    ensures AllCut(segments)
  {
    segments := [];
    var pos := 0;
    while true
      invariant pos <= |path| && Concat(segments) == path[..pos]
      invariant AllCut(segments)
      invariant pos > 0 ==> pos < |path| && path[pos] == '/'
      decreases |path| - pos
    {
      var rest := path[pos..];
      var i := NextSlash(rest);
      if i > 0 {
        ConcatSnoc(segments, path, pos, pos + i);
        segments := segments + [path[pos..pos + i]];
        pos := pos + i;
      } else {
        if rest != "" {
          ConcatSnoc(segments, path, pos, |path|);
          assert path[pos..|path|] == rest;
          segments := segments + [rest];
        }
        assert path[..|path|] == path;
        break;
      }
    }
  }

  lemma ConcatLast(init: seq<string>, x: string)
    ensures Concat(init + [x]) == Concat(init) + x
  {
    ConcatAppend(init, [x]);
    assert Concat([x]) == x + Concat([]);
  }

  lemma GlueRebuild(init: seq<string>, last: string, t: string)
    ensures Concat(init + [last + t]) == Concat(init + [last]) + t
  {
    ConcatLast(init, last);
    ConcatLast(init, last + t);
    Regroup(Concat(init), last, t);
  }

  /** A toolchain is what follows the last opening parenthesis of a text that ends with a closing one. */
  predicate IsToolchain(t: string) {
    t != "" && t[0] == '(' && '(' !in t[1..] && t[|t| - 1] == ')'
  }

  /** The parts of a label: a leading "//", cut path segments, a target with its colon, a toolchain. */
  datatype Parts = Parts(absolute: bool, path: seq<string>, leaf: string, toolchain: string) {

    function Dir(): (s: string) {
      (if absolute then "//" else "") + Concat(path)
    }

    ghost predicate Of(text: string) {
      && text == Dir() + leaf + toolchain
      && AllCut(path)
      && ':' !in Dir()
      && (leaf != "" ==> leaf[0] == ':')
      && (!absolute ==> !("//" <= Concat(path)))
      && (toolchain != "" ==> IsToolchain(toolchain))
      && (toolchain == "" ==> text == "" || text[|text| - 1] != ')')
    }

    /** The segments before the toolchain. */
    function Body(): (r: seq<string>) {
      (if absolute then ["//"] else []) + path + (if leaf != "" then [leaf] else [])
    }

    function Segments(): (r: seq<string>) {
      var body := Body();
      if toolchain == "" then body
      else if body == [] then [toolchain]
      else body[..|body| - 1] + [body[|body| - 1] + toolchain]
    }

    lemma BodyRebuild()
      ensures Concat(Body()) == Dir() + leaf
    {
      var root := if absolute then ["//"] else [];
      var last := if leaf != "" then [leaf] else [];
      ConcatAppend(root, path);
      ConcatAppend(root + path, last);
      assert Concat(root) == if absolute then "//" + "" else "";
      assert Concat(last) == if leaf != "" then leaf + "" else "";
    }

    lemma SegmentsRebuild()
      ensures Concat(Segments()) == Dir() + leaf + toolchain
    {
      var body := Body();
      BodyRebuild();
      if body == [] {
        ConcatLast([], toolchain);
      } else {
        assert body == body[..|body| - 1] + [body[|body| - 1]];
        GlueRebuild(body[..|body| - 1], body[|body| - 1], toolchain);
      }
    }
  }

  method SplitToolchain(text: string) returns (r: Option<(string, string)>)
    requires text != ""
    ensures r.None? <==> text[|text| - 1] == ')' && '(' !in text
    ensures r.Some? ==> text == r.value.0 + r.value.1
    ensures r.Some? ==> if text[|text| - 1] == ')' then IsToolchain(r.value.1) else r.value.1 == ""
  {
    if text[|text| - 1] == ')' {
      var i := LastIndexOf(text, '(');
      if i < 0 {
        return None;
      }
      assert text[i] in text;
      r := Some((text[..i], text[i..]));
    } else {
      r := Some((text, ""));
    }
  }

  /** Everything before the toolchain. */
  method SplitBody(body: string, toolchain: string) returns (parts: Parts)
    ensures parts.Dir() + parts.leaf == body && parts.toolchain == toolchain
    ensures AllCut(parts.path) && ':' !in parts.Dir()
    ensures parts.leaf != "" ==> parts.leaf[0] == ':'
    ensures !parts.absolute ==> !("//" <= Concat(parts.path))
  {
    var i := IndexOf(body, ':');
    var leaf, dir := body[i..], body[..i];
    assert dir + leaf == body;
    if "//" <= dir {
      var path := SplitPath(dir[2..]);
      assert dir == "//" + dir[2..];
      parts := Parts(true, path, leaf, toolchain);
    } else {
      var path := SplitPath(dir);
      parts := Parts(false, path, leaf, toolchain);
      assert "" + dir == dir;
    }
  }

  // ---------------------------------------------------------------------------------------------
  // Where the segments of a label begin
  // ---------------------------------------------------------------------------------------------

  /** Some segment begins at position `k` of the joined text. */
  predicate BeginsAt(segments: seq<string>, k: nat) {
    segments != [] && (k == 0 || (k >= |segments[0]| && BeginsAt(segments[1..], k - |segments[0]|)))
  }

  predicate NoneEmpty(segments: seq<string>) {
    forall i :: 0 <= i < |segments| ==> segments[i] != ""
  }

  /** Where the toolchain of a label begins; a label without one ends there. */
  function ToolchainAt(text: string): (t: nat)
    ensures t <= |text|
  {
    var i := LastIndexOf(text, '(');
    if text != "" && text[|text| - 1] == ')' && i >= 0 then i else |text|
  }

  /** Where the target of a label begins: at the first colon before the toolchain. */
  function TargetAt(text: string): (c: nat)
    ensures c <= ToolchainAt(text)
  {
    IndexOf(text[..ToolchainAt(text)], ':')
  }

  /**
   * A segment of a label begins at its start; and, before the toolchain, behind a leading "//", at the
   * colon of the target, and at each slash of the directory but one that is its first character.
   */
  predicate ShouldBegin(text: string, k: nat) {
    var t, c := ToolchainAt(text), TargetAt(text);
    var root := if "//" <= text[..c] then 2 else 0;
    k == 0 || (k < t && (k == root || k == c || (root < k < c && text[k] == '/')))
  }

  /** `r` is the list of segments that split_label is documented to yield for `text`. */
  ghost predicate Segmented(text: string, r: seq<string>) {
    if text == "" then r == [""]
    else
      && NoneEmpty(r) && Concat(r) == text
      && forall k :: 0 <= k < |text| ==> (BeginsAt(r, k) <==> ShouldBegin(text, k))
  }

  lemma FirstCut(a: seq<string>, b: seq<string>)
    requires a != [] && b != [] && NoneEmpty(a) && NoneEmpty(b) && Concat(a) == Concat(b)
    requires forall k :: 0 <= k < |Concat(a)| ==> (BeginsAt(a, k) <==> BeginsAt(b, k))
    ensures |a[0]| >= |b[0]|
  {
    if |a[0]| < |b[0]| {
      assert |Concat(a)| >= |b[0]|;
      assert a[1..] != [];
      assert BeginsAt(a, |a[0]|);
    }
  }

  lemma {:induction false} SameBeginnings(a: seq<string>, b: seq<string>)
    requires NoneEmpty(a) && NoneEmpty(b) && Concat(a) == Concat(b)
    requires forall k :: 0 <= k < |Concat(a)| ==> (BeginsAt(a, k) <==> BeginsAt(b, k))
    ensures a == b
    decreases |a|
  {
    if a != [] && b != [] {
      var n := |a[0]|;
      FirstCut(a, b);
      FirstCut(b, a);
      assert a[0] == Concat(a)[..n] && b[0] == Concat(b)[..n];
      assert Concat(a[1..]) == Concat(a)[n..] && Concat(b[1..]) == Concat(b)[n..];
      forall k | 0 <= k < |Concat(a[1..])|
        ensures BeginsAt(a[1..], k) <==> BeginsAt(b[1..], k)
      {
        assert BeginsAt(a, n + k) <==> BeginsAt(b, n + k);
      }
      SameBeginnings(a[1..], b[1..]);
    }
  }

  /** That leaves no choice. */
  lemma SegmentsUnique(text: string, a: seq<string>, b: seq<string>)
    requires Segmented(text, a) && Segmented(text, b)
    ensures a == b
  {
    if text != "" {
      SameBeginnings(a, b);
    }
  }

  lemma {:induction false} BeginsAppend(a: seq<string>, b: seq<string>, k: nat)
    ensures BeginsAt(a + b, k) <==> BeginsAt(a, k) || (k >= |Concat(a)| && BeginsAt(b, k - |Concat(a)|))
    decreases |a|
  {
    if a == [] {
      assert a + b == b;
    } else {
      assert (a + b)[1..] == a[1..] + b && (a + b)[0] == a[0];
      if k >= |a[0]| {
        BeginsAppend(a[1..], b, k - |a[0]|);
      }
    }
  }

  lemma {:induction false} BeginsInside(segments: seq<string>, k: nat)
    requires NoneEmpty(segments) && BeginsAt(segments, k)
    ensures k < |Concat(segments)|
    decreases |segments|
  {
    if k >= |segments[0]| {
      BeginsInside(segments[1..], k - |segments[0]|);
    }
  }

  lemma BeginsSnoc(init: seq<string>, x: string, k: nat)
    ensures BeginsAt(init + [x], k) <==> BeginsAt(init, k) || k == |Concat(init)|
  {
    BeginsAppend(init, [x], k);
    assert [x][1..] == [];
  }

  /** Cut segments begin at the start and at the slashes. */
  lemma {:induction false} PathBegins(path: seq<string>, k: nat)
    requires AllCut(path) && k < |Concat(path)|
    ensures BeginsAt(path, k) <==> k == 0 || Concat(path)[k] == '/'
    decreases |path|
  {
    if path != [] {
      var init, last := path[..|path| - 1], path[|path| - 1];
      assert path == init + [last];
      ConcatLast(init, last);
      BeginsSnoc(init, last, k);
      if k < |Concat(init)| {
        PathBegins(init, k);
      } else {
        if BeginsAt(init, k) {
          BeginsInside(init, k);
        }
        assert Concat(path)[k] == last[k - |Concat(init)|];
        assert k > |Concat(init)| ==> last[k - |Concat(init)|] == last[1..][k - |Concat(init)| - 1];
        if k == |Concat(init)| && init != [] {
          assert last[0] == '/';
        }
      }
    }
  }

  lemma ToolchainLies(body: string, toolchain: string)
    requires toolchain != "" ==> IsToolchain(toolchain)
    requires toolchain == "" && body != "" ==> body[|body| - 1] != ')'
    ensures ToolchainAt(body + toolchain) == |body|
  {
    var text := body + toolchain;
    if toolchain == "" {
      assert text == body;
    } else {
      assert text[|body|] == '(' && text[|text| - 1] == ')';
      assert forall j :: |body| < j < |text| ==> text[j] == toolchain[1..][j - |body| - 1];
    }
  }

  lemma TargetLies(dir: string, leaf: string)
    requires ':' !in dir && (leaf != "" ==> leaf[0] == ':')
    ensures IndexOf(dir + leaf, ':') == |dir|
  {
    if leaf == "" {
      assert dir + leaf == dir;
      IndexOfNone(dir, ':');
    } else {
      assert dir + leaf == dir + [':'] + leaf[1..];
      IndexOfFirst(dir, leaf[1..], ':');
    }
  }

  lemma RootLies(parts: Parts, text: string)
    requires parts.Of(text)
    ensures parts.absolute <==> "//" <= parts.Dir()
  {
    assert !parts.absolute ==> parts.Dir() == Concat(parts.path);
  }

  /** The parts of a label lie where they should. */
  lemma PartsLie(parts: Parts, text: string)
    requires parts.Of(text) && text != ""
    ensures ToolchainAt(text) == |parts.Dir() + parts.leaf| && TargetAt(text) == |parts.Dir()|
    ensures text[..TargetAt(text)] == parts.Dir()
  {
    var dir, leaf, toolchain := parts.Dir(), parts.leaf, parts.toolchain;
    assert toolchain == "" ==> text == dir + leaf;
    ToolchainLies(dir + leaf, toolchain);
    TargetLies(dir, leaf);
    assert text[..|dir + leaf|] == dir + leaf;
    assert text[..|dir|] == dir;
  }

  /** The segments of the directory. */
  lemma DirBegins(parts: Parts, k: nat)
    requires AllCut(parts.path)
    ensures var root, first := if parts.absolute then 2 else 0, if parts.absolute then ["//"] else [];
            && Concat(first + parts.path) == parts.Dir()
            && (BeginsAt(first + parts.path, k) <==>
                (parts.absolute && k == 0) || (root <= k < |parts.Dir()| && (k == root || parts.Dir()[k] == '/')))
  {
    var root, first := if parts.absolute then 2 else 0, if parts.absolute then ["//"] else [];
    assert Concat(first) == (if parts.absolute then "//" + "" else "") && ["//"][1..] == [];
    ConcatAppend(first, parts.path);
    BeginsAppend(first, parts.path, k);
    if root <= k < |parts.Dir()| {
      PathBegins(parts.path, k - root);
      assert parts.Dir()[k] == Concat(parts.path)[k - root];
    } else if k >= root && BeginsAt(parts.path, k - root) {
      BeginsInside(parts.path, k - root);
    }
  }

  /** The segments before the toolchain is attached. */
  lemma BodyBegins(parts: Parts, k: nat)
    requires AllCut(parts.path)
    ensures var root := if parts.absolute then 2 else 0;
            BeginsAt(parts.Body(), k) <==>
            && k < |parts.Dir() + parts.leaf|
            && (k == 0 || k == root || k == |parts.Dir()| || (root < k < |parts.Dir()| && parts.Dir()[k] == '/'))
  {
    var first, last := if parts.absolute then ["//"] else [], if parts.leaf != "" then [parts.leaf] else [];
    DirBegins(parts, k);
    BeginsAppend(first + parts.path, last, k);
    assert [parts.leaf][1..] == [];
  }

  /** A text attached to the last segment begins none. */
  lemma GlueBegins(segments: seq<string>, t: string, k: nat)
    requires segments != []
    ensures var i := |segments| - 1;
            BeginsAt(segments[..i] + [segments[i] + t], k) <==> BeginsAt(segments, k)
  {
    var i := |segments| - 1;
    assert segments == segments[..i] + [segments[i]];
    BeginsSnoc(segments[..i], segments[i], k);
    BeginsSnoc(segments[..i], segments[i] + t, k);
  }

  lemma BodyNotEmpty(parts: Parts)
    requires AllCut(parts.path) && parts.Body() != []
    ensures parts.Dir() + parts.leaf != ""
  {
    if !parts.absolute && parts.path != [] {
      assert parts.path[0] != "";
    }
  }

  lemma AttachedBegins(parts: Parts, k: nat)
    requires parts.Body() != []
    ensures BeginsAt(parts.Segments(), k) <==> BeginsAt(parts.Body(), k)
  {
    if parts.toolchain != "" {
      GlueBegins(parts.Body(), parts.toolchain, k);
    }
  }

  /** The positions of a label's segments, in terms of its parts. */
  lemma ShouldBeginAt(parts: Parts, text: string, k: nat)
    requires parts.Of(text) && text != ""
    ensures var root := if parts.absolute then 2 else 0;
            ShouldBegin(text, k) <==>
            || k == 0
            || (&& k < |parts.Dir() + parts.leaf|
                && (k == root || k == |parts.Dir()| || (root < k < |parts.Dir()| && parts.Dir()[k] == '/')))
  {
    PartsLie(parts, text);
    RootLies(parts, text);
    assert k < |parts.Dir()| ==> text[k] == parts.Dir()[k];
  }

  lemma SegmentsBegin(parts: Parts, text: string, k: nat)
    requires parts.Of(text) && text != ""
    ensures BeginsAt(parts.Segments(), k) <==> ShouldBegin(text, k)
  {
    ShouldBeginAt(parts, text, k);
    if parts.Body() == [] {
      assert parts.Segments() == [parts.toolchain] && [parts.toolchain][1..] == [];
      parts.BodyRebuild();
    } else {
      AttachedBegins(parts, k);
      BodyBegins(parts, k);
      BodyNotEmpty(parts);
    }
  }

  /** The segments of the parts of a label are those that are documented. */
  lemma PartsSegmented(parts: Parts, text: string)
    requires parts.Of(text) && text != ""
    ensures Segmented(text, parts.Segments())
  {
    parts.SegmentsRebuild();
    forall k | 0 <= k < |text|
      ensures BeginsAt(parts.Segments(), k) <==> ShouldBegin(text, k)
    {
      SegmentsBegin(parts, text, k);
    }
  }

  /** split_label; None is the ValueError for a closing parenthesis without an opening one. */
  method SplitLabel(text: string) returns (r: Option<seq<string>>)
    ensures r.None? <==> text != "" && text[|text| - 1] == ')' && '(' !in text
    ensures r.Some? ==> r.value != [] && Segmented(text, r.value) && Concat(r.value) == text
  {
    if text == "" {
      ConcatLast([], "");
      return Some([""]);
    }
    var split := SplitToolchain(text);
    if split.None? {
      return None;
    }
    var parts := SplitBody(split.value.0, split.value.1);
    assert parts.Of(text);
    PartsSegmented(parts, text);
    r := Some(parts.Segments());
    assert Concat([]) == "";
  }
}

/** The trie of inserted labels and the completions read off it. */
module Completing {
  import opened Machine
  import opened LabelSegments

  datatype Trie = Trie(children: map<string, Trie>)

  const EMPTY := Trie(map[])

  function Insert(t: Trie, segments: seq<string>): (r: Trie)
    decreases |segments|
  {
    if segments == [] then t
    else
      var s := segments[0];
      var child := if s in t.children then t.children[s] else EMPTY;
      Trie(t.children[s := Insert(child, segments[1..])])
  }

  predicate IsPath(t: Trie, p: seq<string>)
    decreases |p|
  {
    p == [] || (p[0] in t.children && IsPath(t.children[p[0]], p[1..]))
  }

  /** Inserting a list of segments adds exactly its prefixes. */
  lemma {:induction false} InsertPaths(t: Trie, segments: seq<string>, p: seq<string>)
    ensures IsPath(Insert(t, segments), p) <==> IsPath(t, p) || p <= segments
    decreases |segments|
  {
    if segments != [] && p != [] {
      var s := segments[0];
      var child := if s in t.children then t.children[s] else EMPTY;
      if p[0] == s {
        InsertPaths(child, segments[1..], p[1..]);
        assert p <= segments <==> p[1..] <= segments[1..] by {
          assert p == [s] + p[1..] && segments == [s] + segments[1..];
        }
      }
    }
  }

  /** The node at the end of a path. */
  function At(t: Trie, p: seq<string>): (r: Trie)
    requires IsPath(t, p)
    decreases |p|
  {
    if p == [] then t else At(t.children[p[0]], p[1..])
  }

  lemma {:induction false} PathExtends(t: Trie, p: seq<string>, s: string)
    requires IsPath(t, p)
    ensures IsPath(t, p + [s]) <==> s in At(t, p).children
    ensures IsPath(t, p + [s]) ==> At(t, p + [s]) == At(t, p).children[s]
    decreases |p|
  {
    if p != [] {
      assert (p + [s])[1..] == p[1..] + [s];
      PathExtends(t.children[p[0]], p[1..], s);
    } else {
      assert (p + [s])[1..] == [];
    }
  }

  /** The trie holds exactly the prefixes of the inserted lists of segments. */
  ghost predicate Holds(t: Trie, lists: set<seq<string>>) {
    forall p :: p != [] ==> (IsPath(t, p) <==> exists l :: l in lists && p <= l)
  }

  lemma InsertHolds(t: Trie, lists: set<seq<string>>, l: seq<string>)
    requires Holds(t, lists)
    ensures Holds(Insert(t, l), lists + {l})
  {
    forall p: seq<string> | p != []
      ensures IsPath(Insert(t, l), p) <==> exists k :: k in lists + {l} && p <= k
    {
      InsertPaths(t, l, p);
      if k :| k in lists && p <= k {
        assert k in lists + {l};
      }
    }
  }

  /** Up to its end, the stem is the only way down. */
  ghost predicate OnlyWay(t: Trie, stem: seq<string>) {
    && IsPath(t, stem)
    && forall p :: IsPath(t, p) ==> p <= stem || stem <= p
  }

  lemma {:induction false} PathPrefix(t: Trie, p: seq<string>, k: nat)
    requires IsPath(t, p) && k <= |p|
    ensures IsPath(t, p[..k])
    decreases |p|
  {
    if k > 0 {
      PathPrefix(t.children[p[0]], p[1..], k - 1);
      assert p[..k][1..] == p[1..][..k - 1];
    }
  }

  lemma OnlyWayNext(t: Trie, stem: seq<string>, s: string)
    requires OnlyWay(t, stem) && At(t, stem).children.Keys == {s}
    ensures OnlyWay(t, stem + [s])
  {
    PathExtends(t, stem, s);
    forall p | IsPath(t, p)
      ensures p <= stem + [s] || stem + [s] <= p
    {
      if !(p <= stem) {
        var k := |stem|;
        PathPrefix(t, p, k + 1);
        assert p[..k + 1] == stem + [p[k]];
        PathExtends(t, stem, p[k]);
      }
    }
  }

  lemma {:induction false} ConcatPrefix(a: seq<string>, b: seq<string>)
    requires a <= b
    ensures Concat(a) <= Concat(b)
  {
    assert b == a + b[|a|..];
    ConcatAppend(a, b[|a|..]);
  }

  /** The texts suggested when the descent stops at `stem`. */
  ghost predicate Suggested(t: Trie, stem: seq<string>, c: string)
    requires IsPath(t, stem)
  {
    var kids := At(t, stem).children;
    if kids.Keys == {} then c == Concat(stem)
    else exists s :: s in kids && c == Concat(stem) + s
  }

  /** Every suggestion is a prefix of some inserted text. */
  lemma SuggestionIsPrefix(t: Trie, lists: set<seq<string>>, stem: seq<string>, c: string)
    requires Holds(t, lists) && OnlyWay(t, stem) && t.children.Keys != {} && Suggested(t, stem, c)
    ensures exists l :: l in lists && c <= Concat(l)
  {
    var kids := At(t, stem).children;
    if kids.Keys == {} {
      var l :| l in lists && stem <= l;
      ConcatPrefix(stem, l);
    } else {
      var s :| s in kids && c == Concat(stem) + s;
      PathExtends(t, stem, s);
      var l :| l in lists && stem + [s] <= l;
      ConcatPrefix(stem + [s], l);
      ConcatLast(stem, s);
    }
  }

  /** Every inserted text extends some suggestion, or is a prefix of all of them. */
  lemma NothingForgotten(t: Trie, lists: set<seq<string>>, stem: seq<string>, l: seq<string>)
    requires Holds(t, lists) && OnlyWay(t, stem) && l in lists && l != []
    ensures (exists c :: Suggested(t, stem, c) && c <= Concat(l)) || (forall c :: Suggested(t, stem, c) ==> Concat(l) <= c)
  {
    assert IsPath(t, l);
    if l <= stem {
      ConcatPrefix(l, stem);
    } else {
      var s := l[|stem|];
      PathPrefix(t, l, |stem| + 1);
      assert l[..|stem| + 1] == stem + [s];
      PathExtends(t, stem, s);
      ConcatPrefix(stem + [s], l);
      ConcatLast(stem, s);
      assert Suggested(t, stem, Concat(stem) + s);
    }
  }

  /** A trie without children is one that nothing was inserted into. */
  lemma EmptyExactly(t: Trie, lists: set<seq<string>>)
    requires Holds(t, lists) && [] !in lists
    ensures lists == {} <==> t.children.Keys == {}
  {
    if l :| l in lists {
      assert IsPath(t, l);
      assert l[0] in t.children.Keys;
    }
    if s :| s in t.children.Keys {
      assert [s][1..] == [];
      assert IsPath(t, [s]);
    }
  }

  /** The texts that the last loop puts together are the suggestions behind the prefix. */
  lemma SuggestionsBehind(t: Trie, stem: seq<string>, prefix: string, x: string)
    requires IsPath(t, stem)
    ensures var kids := At(t, stem).children.Keys;
            (exists c :: Suggested(t, stem, c) && x == prefix + c) <==>
            if kids == {} then x == prefix + Concat(stem) else exists s :: s in kids && x == prefix + Concat(stem) + s
  {
    var kids := At(t, stem).children.Keys;
    forall s
      ensures prefix + (Concat(stem) + s) == prefix + Concat(stem) + s
    {
      Regroup(prefix, Concat(stem), s);
    }
    if kids == {} {
      assert Suggested(t, stem, Concat(stem));
    } else if s :| s in kids && x == prefix + Concat(stem) + s {
      assert Suggested(t, stem, Concat(stem) + s);
    }
  }

  /** Some inserted list goes on with `s` behind the stem. */
  ghost predicate Continues(lists: set<seq<string>>, stem: seq<string>, s: string) {
    exists l :: l in lists && |l| > |stem| && stem <= l && l[|stem|] == s
  }

  /** The children of a node are the ways on of the inserted lists. */
  lemma ChildContinues(t: Trie, lists: set<seq<string>>, stem: seq<string>, s: string)
    requires Holds(t, lists) && IsPath(t, stem)
    ensures s in At(t, stem).children <==> Continues(lists, stem, s)
  {
    PathExtends(t, stem, s);
    if Continues(lists, stem, s) {
      var l :| l in lists && |l| > |stem| && stem <= l && l[|stem|] == s;
      assert stem + [s] <= l;
    }
    if l :| l in lists && stem + [s] <= l {
      assert l[|stem|] == (stem + [s])[|stem|] && stem <= l;
    }
  }

  /** The stem is what all inserted lists share, and behind it there is a choice or nothing. */
  ghost predicate IsStem(lists: set<seq<string>>, stem: seq<string>) {
    && (forall l :: l in lists ==> l <= stem || stem <= l)
    && !exists s :: Continues(lists, stem, s) && forall s' :: Continues(lists, stem, s') ==> s' == s
  }

  lemma OtherKey(m: map<string, Trie>, s: string) returns (s': string)
    requires s in m && |m| != 1
    ensures s' in m && s' != s
  {
    assert |m.Keys - {s}| == |m.Keys| - 1;
    s' :| s' in m.Keys - {s};
  }

  lemma StemFound(t: Trie, lists: set<seq<string>>, stem: seq<string>)
    requires Holds(t, lists) && OnlyWay(t, stem) && |At(t, stem).children| != 1
    ensures IsStem(lists, stem)
  {
    var kids := At(t, stem).children;
    forall l | l in lists
      ensures l <= stem || stem <= l
    {
      assert l != [] ==> IsPath(t, l);
    }
    forall s
      ensures s in kids <==> Continues(lists, stem, s)
    {
      ChildContinues(t, lists, stem, s);
    }
    forall s | Continues(lists, stem, s)
      ensures exists s' :: Continues(lists, stem, s') && s' != s
    {
      var s' := OtherKey(kids, s);
    }
  }

  /** `x` is a completion: the stem and one way on, or the stem alone when there is none. */
  ghost predicate IsChoice(lists: set<seq<string>>, stem: seq<string>, prefix: string, x: string) {
    || (exists s :: Continues(lists, stem, s) && x == prefix + Concat(stem) + s)
    || (x == prefix + Concat(stem) && forall s :: !Continues(lists, stem, s))
  }

  lemma ChoicesAre(t: Trie, lists: set<seq<string>>, stem: seq<string>, prefix: string, x: string)
    requires Holds(t, lists) && IsPath(t, stem)
    ensures var kids := At(t, stem).children.Keys;
            IsChoice(lists, stem, prefix, x) <==>
            if kids == {} then x == prefix + Concat(stem) else exists s :: s in kids && x == prefix + Concat(stem) + s
  {
    var kids := At(t, stem).children.Keys;
    forall s
      ensures s in kids <==> Continues(lists, stem, s)
    {
      ChildContinues(t, lists, stem, s);
    }
  }

  class Completions {
    const prefix: string
    var children: Trie
    /** The lists of segments inserted so far. */
    ghost var lists: set<seq<string>>

    ghost predicate Valid()
      reads this
    {
      Holds(children, lists) && [] !in lists
    }

    constructor (prefix: string)
      ensures Valid() && this.prefix == prefix && lists == {}
    {
      this.prefix, children, lists := prefix, EMPTY, {};
    }

    /** Returns false where the source raises: a label without the prefix, or one that cannot be split. */
    method InsertLabel(text: string) returns (ok: bool)
      requires Valid()
      modifies this
      ensures Valid()
      ensures ok <==> prefix <= text &&
                      var rest := text[|prefix|..]; !(rest != "" && rest[|rest| - 1] == ')' && '(' !in rest)
      ensures !ok ==> lists == old(lists)
      ensures ok ==> exists l ::
                lists == old(lists) + {l} && Segmented(text[|prefix|..], l) && prefix + Concat(l) == text
    {
      if !(prefix <= text) {
        return false;
      }
      var segments := SplitLabel(text[|prefix|..]);
      if segments.None? {
        return false;
      }
      InsertHolds(children, lists, segments.value);
      children := Insert(children, segments.value);
      lists := lists + {segments.value};
      assert prefix + text[|prefix|..] == text;
      ok := true;
    }

    /** The loop over the segments below the stem. */
    static method AppendAll(front: string, segments: set<string>) returns (out: seq<string>)
      ensures forall x :: x in out <==> exists s :: s in segments && x == front + s
      ensures segments != {} ==> out != []
      ensures forall i, j :: 0 <= i < j < |out| ==> out[i] != out[j]
    {
      out := [];
      var todo := segments;
      while todo != {}
        invariant todo <= segments
        invariant forall x :: x in out <==> exists s :: s in segments && s !in todo && x == front + s
        invariant todo != segments ==> out != []
        invariant forall i, j :: 0 <= i < j < |out| ==> out[i] != out[j]
        decreases todo
      {
        var s :| s in todo;
        assert front + s !in out by {
          assert forall t :: front + t == front + s ==> t == (front + t)[|front|..] == (front + s)[|front|..] == s;
        }
        todo := todo - {s};
        out := out + [front + s];
      }
    }

    /** Descends until there is a choice. */
    method Descend() returns (node: Trie, found: string, ghost stem: seq<string>)
      ensures OnlyWay(children, stem) && At(children, stem) == node && found == Concat(stem)
      ensures |node.children| != 1
    {
      node, found, stem := children, "", [];
      while |node.children| == 1
        invariant OnlyWay(children, stem) && At(children, stem) == node && found == Concat(stem)
        decreases node
      {
        var s :| s in node.children;
        assert node.children.Keys == {s} by {
          assert |node.children.Keys - {s}| == 0;
        }
        OnlyWayNext(children, stem, s);
        PathExtends(children, stem, s);
        ConcatLast(stem, s);
        node := node.children[s];
        stem := stem + [s];
        found := found + s;
      }
    }

    /**
     * Descends until there is a choice and lists the choices. All of them share `stem` and differ in
     * one more segment at most.
     */
    method ListCompletions() returns (out: seq<string>, ghost stem: seq<string>)
      requires Valid()
      ensures lists == {} <==> out == []
      ensures OnlyWay(children, stem)
      ensures lists != {} ==> forall x :: x in out <==> exists c :: Suggested(children, stem, c) && x == prefix + c
      ensures lists != {} ==> IsStem(lists, stem) && forall x :: x in out <==> IsChoice(lists, stem, prefix, x)
      ensures forall i, j :: 0 <= i < j < |out| ==> out[i] != out[j]
    {
      out, stem := [], [];
      EmptyExactly(children, lists);
      if children.children.Keys == {} {
        return;
      }
      var node, found;
      node, found, stem := Descend();
      if node.children.Keys == {} {
        out := [prefix + found];
      } else {
        out := AppendAll(prefix + found, node.children.Keys);
      }
      StemFound(children, lists, stem);
      forall x
        ensures x in out <==> exists c :: Suggested(children, stem, c) && x == prefix + c
        ensures x in out <==> IsChoice(lists, stem, prefix, x)
      {
        SuggestionsBehind(children, stem, prefix, x);
        ChoicesAre(children, lists, stem, prefix, x);
      }
    }
  }
}
