/** The loader of the build graph: an indented listing, parsed with a stack of labels. */
module GraphListing {
  import opened Machine
  import opened GraphSpec

  const ROOT: Label := "//:default"

  const DOTS := "..."

  /** str.isspace for one character */
  predicate IsSpace(c: char) {
    var x := c as int;
    || 0x09 <= x <= 0x0d || 0x1c <= x <= 0x20 || x == 0x85 || x == 0xa0 || x == 0x1680
    || 0x2000 <= x <= 0x200a || x == 0x2028 || x == 0x2029 || x == 0x202f || x == 0x205f || x == 0x3000
  }

  /** str.lstrip */
  function Strip(line: string): (r: string)
    ensures |r| <= |line|
  {
    if line != [] && IsSpace(line[0]) then Strip(line[1..]) else line
  }

  predicate EndsWithDots(s: string) {
    |s| >= 3 && s[|s| - 3..] == DOTS
  }

  function DropDots(s: string): (r: string) {
    if EndsWithDots(s) then s[..|s| - 3] else s
  }

  /** The stack of labels after one line, and the (parent, child) pair that the line records. */
  datatype Push = Push(stack: seq<Label>, pair: (Label, Label))

  /**
   * One line. None is the failing assertion on an odd indentation, or the index error on an
   * indentation more than one level below the stack.
   */
  function PushLine(stack: seq<Label>, line: string): (r: Option<Push>) {
    var stripped := Strip(line);
    var leading := |line| - |stripped|;
    if leading % 2 != 0 then None
    else
      var name := DropDots(stripped);
      var depth := leading / 2;
      var stack' := (if depth + 1 < |stack| then stack[..depth + 1] else stack) + [name];
      if depth >= |stack'| then None else Some(Push(stack', (stack'[depth], name)))
  }

  lemma {:induction false} StripSpaces(spaces: string, rest: string)
    requires (forall c :: c in spaces ==> IsSpace(c)) && (rest != "" ==> !IsSpace(rest[0]))
    ensures Strip(spaces + rest) == rest
    decreases |spaces|
  {
    if spaces == "" {
      assert spaces + rest == rest;
    } else {
      assert spaces[0] in spaces && (spaces + rest)[1..] == spaces[1..] + rest;
      StripSpaces(spaces[1..], rest);
    }
  }

  /**
   * Any line: it is refused exactly when its indentation is odd or more than one level below the stack;
   * one level below the stack it is its own parent.
   */
  lemma LineExactly(stack: seq<Label>, spaces: string, rest: string)
    requires (forall c :: c in spaces ==> IsSpace(c)) && (rest != "" ==> !IsSpace(rest[0]))
    ensures PushLine(stack, spaces + rest) ==
            if |spaces| % 2 != 0 || |spaces| / 2 > |stack| then None
            else
              var depth := |spaces| / 2;
              var name := if |rest| >= 3 && rest[|rest| - 3..] == "..." then rest[..|rest| - 3] else rest;
              var parent := if depth < |stack| then stack[depth] else name;
              Some(Push(stack[..Min(depth + 1, |stack|)] + [name], (parent, name)))
  {
    StripSpaces(spaces, rest);
    if |spaces| / 2 + 1 >= |stack| {
      assert stack[..|stack|] == stack;
    }
  }

  /** The parser's variables: the stack of labels and the pairs recorded so far. */
  datatype State = State(stack: seq<Label>, pairs: seq<(Label, Label)>)

  function ParseLine(s: State, line: string): (r: Option<State>) {
    match PushLine(s.stack, line)
    case None => None
    case Some(p) => Some(State(p.stack, s.pairs + [p.pair]))
  }

  ghost function ParseLines(s: State, lines: seq<string>): (r: Option<State>)
    decreases |lines|
  {
    if lines == [] then Some(s)
    else
      match ParseLine(s, lines[0])
      case None => None
      case Some(t) => ParseLines(t, lines[1..])
  }

  lemma {:induction false} ParseAppend(s: State, a: seq<string>, b: seq<string>)
    ensures ParseLines(s, a + b) ==
            match ParseLines(s, a) case None => None case Some(t) => ParseLines(t, b)
    decreases |a|
  {
    if a == [] {
      assert a + b == b;
    } else {
      assert (a + b)[1..] == a[1..] + b;
      match ParseLine(s, a[0])
      case None =>
      case Some(t) => ParseAppend(t, a[1..], b);
    }
  }

  /** Recording a pair in the dictionary of lists. */
  function Record(g: Adjacency, p: (Label, Label)): (h: Adjacency) {
    g[p.0 := (if p.0 in g then g[p.0] else []) + [p.1]]
  }

  function Grouped(pairs: seq<(Label, Label)>): (g: Adjacency)
    decreases |pairs|
  {
    if pairs == [] then map[] else Record(Grouped(pairs[..|pairs| - 1]), pairs[|pairs| - 1])
  }

  /** The children of `x`, in the order in which they were listed. */
  ghost function ChildrenOf(pairs: seq<(Label, Label)>, x: Label): (r: seq<Label>)
    decreases |pairs|
  {
    if pairs == [] then []
    else
      var p := pairs[|pairs| - 1];
      ChildrenOf(pairs[..|pairs| - 1], x) + if p.0 == x then [p.1] else []
  }

  /** The dictionary of lists holds the children of each label, in listing order. */
  lemma {:induction false} GroupedInOrder(pairs: seq<(Label, Label)>, x: Label)
    ensures ChildrenOf(pairs, x) == if x in Grouped(pairs) then Grouped(pairs)[x] else []
    decreases |pairs|
  {
    if pairs != [] {
      GroupedInOrder(pairs[..|pairs| - 1], x);
    }
  }

  lemma {:induction false} ChildrenAre(pairs: seq<(Label, Label)>, x: Label, y: Label)
    ensures y in ChildrenOf(pairs, x) <==> (x, y) in pairs
    decreases |pairs|
  {
    if pairs != [] {
      var init, p := pairs[..|pairs| - 1], pairs[|pairs| - 1];
      ChildrenAre(init, x, y);
      assert pairs == init + [p];
    }
  }

  /** A label has an entry exactly when it was recorded as a parent. */
  lemma {:induction false} GroupedKeys(pairs: seq<(Label, Label)>, x: Label)
    ensures x in Grouped(pairs) <==> exists y :: (x, y) in pairs
    decreases |pairs|
  {
    if pairs != [] {
      var init, p := pairs[..|pairs| - 1], pairs[|pairs| - 1];
      GroupedKeys(init, x);
      assert pairs == init + [p];
      assert p == (p.0, p.1) && p in pairs;
    }
  }

  lemma GroupedEdges(pairs: seq<(Label, Label)>)
    ensures forall x, y :: Edge(Grouped(pairs), x, y) <==> (x, y) in pairs
  {
    forall x, y
      ensures Edge(Grouped(pairs), x, y) <==> (x, y) in pairs
    {
      GroupedInOrder(pairs, x);
      ChildrenAre(pairs, x, y);
    }
  }

  /** The loop of load_build_graph over the lines of the listing. */
  method ParseListing(lines: seq<string>) returns (deps: Option<Adjacency>)
    ensures match ParseLines(State([ROOT], []), lines)
            case None => deps == None
            case Some(t) => deps == Some(Grouped(t.pairs))
  {
    var stack, g := [ROOT], map[];
    ghost var pairs: seq<(Label, Label)> := [];
    for i := 0 to |lines|
      invariant g == Grouped(pairs)
      invariant ParseLines(State([ROOT], []), lines) == ParseLines(State(stack, pairs), lines[i..])
    {
      var p := PushLine(stack, lines[i]);
      if p.None? {
        return None;
      }
      stack := p.value.stack;
      g := Record(g, p.value.pair);
      ghost var more := pairs + [p.value.pair];
      assert more[..|more| - 1] == pairs;
      pairs := more;
      assert lines[i..][1..] == lines[i + 1..];
    }
    deps := Some(g);
  }

  // ---------------------------------------------------------------------------------------------
  // What GN prints
  // ---------------------------------------------------------------------------------------------

  /**
   * A forest of printed targets: the first target, what is printed below it and its later siblings.
   * `repeated` marks a target whose dependencies were printed before.
   */
  datatype Forest = Empty | Target(name: Label, repeated: bool, children: Forest, siblings: Forest)

  function Indent(depth: nat): (s: string)
    ensures |s| == 2 * depth
  {
    if depth == 0 then "" else "  " + Indent(depth - 1)
  }

  function LineOf(name: Label, repeated: bool, depth: nat): (s: string) {
    Indent(depth) + (name + if repeated then DOTS else "")
  }

  /** The preorder listing, two spaces per level. */
  function Listing(f: Forest, depth: nat): (lines: seq<string>)
    decreases f
  {
    match f
    case Empty => []
    case Target(name, repeated, children, siblings) =>
      [LineOf(name, repeated, depth)] + (Listing(children, depth + 1) + Listing(siblings, depth))
  }

  /** The (parent, child) pairs of the forest, in preorder. */
  function Pairs(f: Forest, parent: Label): (pairs: seq<(Label, Label)>) {
    match f
    case Empty => []
    case Target(name, _, children, siblings) =>
      [(parent, name)] + Pairs(children, name) + Pairs(siblings, parent)
  }

  predicate CleanName(name: Label, repeated: bool) {
    && (name != "" ==> !IsSpace(name[0]))
    && (!repeated ==> !EndsWithDots(name))
  }

  /** A label does not start with white space, and only a repeated one is printed with dots at its end. */
  predicate Clean(f: Forest) {
    match f
    case Empty => true
    case Target(name, repeated, children, siblings) =>
      CleanName(name, repeated) && Clean(children) && Clean(siblings)
  }

  lemma {:induction false} StripIndent(depth: nat, s: string)
    requires s != "" ==> !IsSpace(s[0])
    ensures Strip(Indent(depth) + s) == s
    decreases depth
  {
    if depth == 0 {
      assert Indent(0) + s == s;
    } else {
      var rest := Indent(depth - 1) + s;
      assert Indent(depth) + s == "  " + rest;
      assert ("  " + rest)[1..] == " " + rest;
      assert (" " + rest)[1..] == rest;
      StripIndent(depth - 1, s);
    }
  }

  /** Two stacks that agree down to `depth`. */
  predicate SameDownTo(a: seq<Label>, b: seq<Label>, depth: nat) {
    |a| > depth && |b| > depth && forall i :: 0 <= i <= depth ==> a[i] == b[i]
  }

  lemma LineParses(s: State, name: Label, repeated: bool, depth: nat) returns (s1: State)
    requires |s.stack| > depth && CleanName(name, repeated)
    ensures ParseLine(s, LineOf(name, repeated, depth)) == Some(s1)
    ensures SameDownTo(s1.stack, s.stack, depth) && |s1.stack| == depth + 2 && s1.stack[depth + 1] == name
    ensures s1.pairs == s.pairs + [(s.stack[depth], name)]
  {
    var shown := name + if repeated then DOTS else "";
    StripIndent(depth, shown);
    if repeated {
      assert shown[|shown| - 3..] == DOTS;
      assert shown[..|shown| - 3] == name;
    } else {
      assert shown == name;
    }
    s1 := ParseLine(s, LineOf(name, repeated, depth)).value;
  }

  /** A line, then two listings, are parsed one after the other. */
  lemma ParsesInTurn(s: State, line: string, a: seq<string>, b: seq<string>, s1: State, s2: State, s3: State)
    requires ParseLine(s, line) == Some(s1) && ParseLines(s1, a) == Some(s2) && ParseLines(s2, b) == Some(s3)
    ensures ParseLines(s, [line] + (a + b)) == Some(s3)
  {
    assert ([line] + (a + b))[1..] == a + b;
    ParseAppend(s1, a, b);
  }

  /** A listing at some depth adds exactly the pairs of its forest and leaves the stack above it alone. */
  lemma {:induction false} ListingParses(s: State, f: Forest, depth: nat) returns (t: State)
    requires |s.stack| > depth && Clean(f)
    ensures ParseLines(s, Listing(f, depth)) == Some(t)
    ensures t.pairs == s.pairs + Pairs(f, s.stack[depth])
    ensures SameDownTo(t.stack, s.stack, depth)
    decreases f
  {
    match f
    case Empty =>
      t := s;
    case Target(name, repeated, children, siblings) =>
      var s1 := LineParses(s, name, repeated, depth);
      var s2 := ListingParses(s1, children, depth + 1);
      t := ListingParses(s2, siblings, depth);
      var first, below := [(s.stack[depth], name)], Pairs(children, name);
      Regroup(s.pairs, first, below);
      Regroup(s.pairs, first + below, Pairs(siblings, s.stack[depth]));
      ParsesInTurn(
        s, LineOf(name, repeated, depth), Listing(children, depth + 1), Listing(siblings, depth), s1, s2, t);
  }

  /** Parsing what GN prints for a forest recovers its parent and child pairs, in listing order. */
  lemma ListingRoundTrip(f: Forest)
    requires Clean(f)
    ensures var r := ParseLines(State([ROOT], []), Listing(f, 0)); r.Some? && r.value.pairs == Pairs(f, ROOT)
  {
    var t := ListingParses(State([ROOT], []), f, 0);
    assert [] + Pairs(f, ROOT) == Pairs(f, ROOT);
  }
}

/** The script's main function for one library: load, collapse, inspect. */
module MoveOut {
  import opened Machine
  import opened GraphSpec
  import opened GraphListing
  import opened BuildGraphs

  /** The part of a label before its first colon. */
  function DirName(x: Label): (d: Label)
    ensures d <= x && ':' !in d
    ensures d == x || x[|d|] == ':'
  {
    if x == "" || x[0] == ':' then "" else [x[0]] + DirName(x[1..])
  }

  /** strip_toolchain_and_label: targets directly in the library directories are dropped. */
  function StripToolchainAndLabel(x: Label): (r: Option<Label>) {
    var d := DirName(x);
    if d == "//system/fidl" || d == "//system/banjo" || d == "//system/ulib" || d == "//system/dev/lib" then None
    else Some(d)
  }

  /** A directory that holds libraries but is none itself. */
  predicate IsShelf(d: Label) {
    d in {"//system/fidl", "//system/banjo", "//system/ulib", "//system/dev/lib"}
  }

  /** Label `a` lies in directory `d`: the directory itself, or a target behind its colon. */
  predicate LiesIn(a: Label, d: Label) {
    ':' !in d && (a == d || d + ":" <= a)
  }

  /** Labels are mapped to their directories, and those directly on a shelf to nothing. */
  lemma StripExactly(a: Label, d: Label)
    requires LiesIn(a, d)
    ensures StripToolchainAndLabel(a) == if IsShelf(d) then None else Some(d)
  {
    assert a != d ==> a[|d|] == ':' && a[..|d|] == d;
    assert forall i :: 0 <= i < |d| ==> a[i] == d[i];
    var e := DirName(a);
    assert |e| == |d|;
    assert e == d;
  }

  lemma StripInverse(a: Label, d: Label)
    ensures StripToolchainAndLabel(a) == Some(d) <==> LiesIn(a, d) && !IsShelf(d)
  {
    var e := DirName(a);
    assert LiesIn(a, e) by {
      assert e != a ==> e + ":" == a[..|e| + 1];
    }
    StripExactly(a, e);
    if LiesIn(a, d) {
      StripExactly(a, d);
    }
  }

  /** Some label in directory `x`, which is no shelf, is listed, as a parent or as a child. */
  ghost predicate Mentioned(pairs: seq<(Label, Label)>, x: Label) {
    !IsShelf(x) && exists a, b :: (a, b) in pairs && (LiesIn(a, x) || LiesIn(b, x))
  }

  /** Some listed dependency leads from directory `x` to directory `y`, neither a shelf. */
  ghost predicate Between(pairs: seq<(Label, Label)>, x: Label, y: Label) {
    !IsShelf(x) && !IsShelf(y) && exists a, b :: (a, b) in pairs && LiesIn(a, x) && LiesIn(b, y)
  }

  /** `h` is the graph of directories behind the listed pairs of targets. */
  ghost predicate DirectoryGraph(pairs: seq<(Label, Label)>, h: Adjacency) {
    && (forall x :: x in h <==> Mentioned(pairs, x))
    && (forall x, y :: Edge(h, x, y) <==> x != y && Between(pairs, x, y))
  }

  /** The verdict lists the referrers of `lib` by their exact distance, and all of them. */
  ghost predicate Right(h: Adjacency, lib: Label, v: Verdict) {
    && (v.NotFound? <==> lib !in h)
    && (v.Movable? <==> lib in h && forall x :: !Edge(h, x, lib))
    && (v.Blocked? ==>
          && AreLayers(h, lib, v.batches)
          && forall x, k :: Chain(h, x, lib, k) ==> exists i :: 0 <= i < |v.batches| && x in v.batches[i])
  }

  ghost predicate ReportsOn(pairs: seq<(Label, Label)>, lib: Label, v: Verdict) {
    exists h :: DirectoryGraph(pairs, h) && Right(h, lib, v)
  }

  lemma CompletedPairs(pairs: seq<(Label, Label)>, g: Adjacency)
    requires Completes(Grouped(pairs), g)
    ensures forall a, b :: Edge(g, a, b) <==> (a, b) in pairs
    ensures forall a :: a in g <==> exists b :: (a, b) in pairs || (b, a) in pairs
  {
    GroupedEdges(pairs);
    forall a, b
      ensures Edge(g, a, b) <==> (a, b) in pairs
    {
      assert Edge(g, a, b) <==> Edge(Grouped(pairs), a, b);
    }
    forall a
      ensures a in g <==> exists b :: (a, b) in pairs || (b, a) in pairs
    {
      GroupedKeys(pairs, a);
      if w :| (w, a) in pairs {
        assert Edge(Grouped(pairs), w, a);
      }
    }
  }

  lemma EdgesBetween(pairs: seq<(Label, Label)>, g: Adjacency, x: Label, y: Label)
    requires forall a, b :: Edge(g, a, b) <==> (a, b) in pairs
    ensures EdgeFrom(g, StripToolchainAndLabel, g.Keys, x, y) <==> Between(pairs, x, y)
  {
    if EdgeFrom(g, StripToolchainAndLabel, g.Keys, x, y) {
      var a, b :| && a in g.Keys && Edge(g, a, b)
                  && StripToolchainAndLabel(a) == Some(x) && StripToolchainAndLabel(b) == Some(y);
      StripInverse(a, x);
      StripInverse(b, y);
    }
    if Between(pairs, x, y) {
      var a, b :| (a, b) in pairs && LiesIn(a, x) && LiesIn(b, y);
      StripInverse(a, x);
      StripInverse(b, y);
      assert Edge(g, a, b) && a in g.Keys;
    }
  }

  lemma NodesMentioned(pairs: seq<(Label, Label)>, g: Adjacency, x: Label)
    requires forall a :: a in g <==> exists b :: (a, b) in pairs || (b, a) in pairs
    ensures NodeFrom(StripToolchainAndLabel, g.Keys, x) <==> Mentioned(pairs, x)
  {
    if NodeFrom(StripToolchainAndLabel, g.Keys, x) {
      var a :| a in g.Keys && StripToolchainAndLabel(a) == Some(x);
      StripInverse(a, x);
      var b :| (a, b) in pairs || (b, a) in pairs;
    }
    if Mentioned(pairs, x) {
      var a, b :| (a, b) in pairs && (LiesIn(a, x) || LiesIn(b, x));
      StripInverse(a, x);
      StripInverse(b, x);
      assert a in g.Keys && b in g.Keys;
    }
  }

  lemma CollapsedPairs(pairs: seq<(Label, Label)>, g: Adjacency, h: Adjacency)
    requires Completes(Grouped(pairs), g) && Collapsed(g, StripToolchainAndLabel, h)
    ensures DirectoryGraph(pairs, h)
  {
    CompletedPairs(pairs, g);
    forall x, y
      ensures Edge(h, x, y) <==> x != y && Between(pairs, x, y)
    {
      EdgesBetween(pairs, g, x, y);
    }
    forall x
      ensures x in h <==> Mentioned(pairs, x)
    {
      NodesMentioned(pairs, g, x);
    }
  }

  /** Every listed referrer is a directory, colon-free, that some printed label lies in. */
  lemma BatchesAreDirectories(pairs: seq<(Label, Label)>, lib: Label, v: Verdict)
    requires ReportsOn(pairs, lib, v) && v.Blocked?
    ensures forall i, x :: 0 <= i < |v.batches| && x in v.batches[i] ==> ':' !in x && Mentioned(pairs, x)
  {
    var h :| DirectoryGraph(pairs, h) && Right(h, lib, v);
    forall i, x | 0 <= i < |v.batches| && x in v.batches[i]
      ensures ':' !in x && Mentioned(pairs, x)
    {
      assert IsLayer(h, lib, i + 1, v.batches[i]);
      assert Chain(h, x, lib, i + 1);
      assert x in h;
    }
  }

  /** The part of main after loading. */
  method Analyse(deps: Adjacency, lib: Label, ghost pairs: seq<(Label, Label)>) returns (v: Verdict)
    requires deps == Grouped(pairs)
    ensures ReportsOn(pairs, lib, v)
  {
    var graph := new BuildGraph(deps);
    ghost var g := graph.deps;
    graph.CollapseNodes(StripToolchainAndLabel);
    ghost var h := graph.deps;
    CollapsedPairs(pairs, g, h);
    v := graph.Inspect(lib);
    assert Right(h, lib, v);
  }

  /** From the printed listing to the batches; None is a listing that the parser rejects. */
  method Report(lines: seq<string>, lib: Label) returns (r: Option<Verdict>)
    ensures match ParseLines(State([ROOT], []), lines)
            case None => r == None
            case Some(t) => r.Some? && ReportsOn(t.pairs, lib, r.value)
    ensures forall f :: Clean(f) && lines == Listing(f, 0) ==> r.Some? && ReportsOn(Pairs(f, ROOT), lib, r.value)
    ensures r.Some? && r.value.Blocked? ==>
              forall i, x :: 0 <= i < |r.value.batches| && x in r.value.batches[i] ==>
                ':' !in x && Mentioned(ParseLines(State([ROOT], []), lines).value.pairs, x)
  {
    var deps := ParseListing(lines);
    ghost var parsed := ParseLines(State([ROOT], []), lines);
    if deps.None? {
      r := None;
    } else {
      var v := Analyse(deps.value, lib, parsed.value.pairs);
      r := Some(v);
      if v.Blocked? {
        BatchesAreDirectories(parsed.value.pairs, lib, v);
      }
    }
    forall f | Clean(f) && lines == Listing(f, 0)
      ensures parsed.Some? && parsed.value.pairs == Pairs(f, ROOT)
    {
      ListingRoundTrip(f);
    }
  }
}
