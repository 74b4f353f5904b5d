/** The license checker's tree of directories: mutable nodes with parent pointers. */
module FileTrees {
  import opened Machine
  import opened Strings

  type Path = seq<string>

  /** A name and its slash; the nameless root has neither. */
  function Part(name: string): (s: string) {
    if name == "" then "" else name + "/"
  }

  function PathString(p: Path): (s: string) {
    if p == [] then "" else PathString(p[..|p| - 1]) + Part(p[|p| - 1])
  }

  function Rev(s: seq<string>): (r: seq<string>) {
    if s == [] then [] else Rev(s[1..]) + [s[0]]
  }

  lemma {:induction false} RevAppend(s: seq<string>, x: string)
    ensures Rev(s + [x]) == [x] + Rev(s)
    decreases |s|
  {
    if s != [] {
      assert (s + [x])[1..] == s[1..] + [x];
      RevAppend(s[1..], x);
    } else {
      assert (s + [x])[1..] == [];
    }
  }

  lemma PathStringAppend(p: Path, x: string)
    ensures PathString(p + [x]) == PathString(p) + Part(x)
  {
    var q := p + [x];
    assert q[..|q| - 1] == p;
  }

  lemma {:induction false} PathStringNameless(p: Path)
    ensures PathString([""] + p) == PathString(p)
    decreases |p|
  {
    if p == [] {
      assert [""] + p == [] + [""];
      PathStringAppend([], "");
    } else {
      var init, x := p[..|p| - 1], p[|p| - 1];
      PathStringNameless(init);
      assert [""] + p == ([""] + init) + [x];
      PathStringAppend([""] + init, x);
    }
  }

  lemma {:induction false} PathStringCons(x: string, p: Path)
    ensures PathString([x] + p) == Part(x) + PathString(p)
    decreases |p|
  {
    if p == [] {
      assert [x] + p == [] + [x];
      PathStringAppend([], x);
    } else {
      var init, y := p[..|p| - 1], p[|p| - 1];
      PathStringCons(x, init);
      assert [x] + p == ([x] + init) + [y];
      PathStringAppend([x] + init, y);
      Regroup(Part(x), PathString(init), Part(y));
    }
  }

  function Empties(p: Path): (n: nat)
    ensures n == 0 <==> "" !in p
  {
    if p == [] then 0 else (if p[0] == "" then 1 else 0) + Empties(p[1..])
  }

  /** The path string is the directory and a slash, less one character for each empty component. */
  lemma {:induction false} PathStringJoin(p: Path)
    requires p != []
    ensures |PathString(p)| == |Join(p, '/')| + 1 - Empties(p)
    ensures "" !in p ==> PathString(p) == Join(p, '/') + "/"
    decreases |p|
  {
    assert p == [p[0]] + p[1..];
    PathStringCons(p[0], p[1..]);
    if |p| > 1 {
      PathStringJoin(p[1..]);
      assert "" !in p ==> "" !in p[1..];
    }
  }

  /**
   * A node's path string is the directory that led to it exactly when the directory has no empty
   * component: it is relative, clean and does not end in a slash.
   */
  lemma PathIsDirectoryExactly(dir: string)
    ensures PathString(Pieces(dir, '/')) == dir + "/" <==> "" !in Pieces(dir, '/')
  {
    JoinPieces(dir, '/');
    PathStringJoin(Pieces(dir, '/'));
  }

  /** The fields of one node. */
  datatype Node = Node(
    name: string, children: map<string, FileTree>, files: seq<string>, licenses: set<string>,
    parent: FileTree?, path: Path)

  class FileTree {
    var name: string
    var children: map<string, FileTree>
    var files: seq<string>
    var singleLicenseFiles: set<string>
    var parent: FileTree?
    ghost var path: Path

    ghost function View(): (v: Node)
      reads this
    {
      Node(name, children, files, singleLicenseFiles, parent, path)
    }

    /** The root of a tree. */
    constructor Root()
      ensures View() == Node("", map[], [], {}, null, [])
    {
      name, children, files, singleLicenseFiles, parent, path := "", map[], [], {}, null, [];
    }

    constructor Child(name: string, parent: FileTree)
      ensures View() == Node(name, map[], [], {}, parent, parent.path + [name])
    {
      this.name, this.parent, path := name, parent, parent.path + [name];
      children, files, singleLicenseFiles := map[], [], {};
    }
  }

  /** The fields of all nodes of a tree. */
  type Heap = map<FileTree, Node>

  ghost function Snapshot(nodes: set<FileTree>): (h: Heap)
    reads nodes
  {
    map n | n in nodes :: n.View()
  }

  /** `n` hangs below its parent, under its own name. */
  ghost predicate Hangs(h: Heap, n: FileTree)
    requires n in h
  {
    h[n].parent != null ==>
      && h[n].parent in h
      && h[n].path == h[h[n].parent].path + [h[n].name]
      && h[n].name in h[h[n].parent].children && h[h[n].parent].children[h[n].name] == n
  }

  /** The children of `n` hang below it. */
  ghost predicate Carries(h: Heap, n: FileTree)
    requires n in h
  {
    forall k :: k in h[n].children ==>
      && h[n].children[k] in h
      && h[h[n].children[k]].parent == n
      && h[h[n].children[k]].name == k
  }

  ghost predicate Linked(h: Heap, n: FileTree)
    requires n in h
  {
    Hangs(h, n) && Carries(h, n)
  }

  ghost predicate IsTree(h: Heap, root: FileTree) {
    && root in h && h[root].parent == null && h[root].path == [] && h[root].name == ""
    && (forall n :: n in h && n != root ==> h[n].parent != null)
    && (forall n {:trigger Linked(h, n)} :: n in h ==> Linked(h, n))
  }

  /** What was added to the tree: files and single-license files, each under its directory. */
  datatype Registry = Registry(files: multiset<(Path, string)>, licenses: set<(Path, string)>)

  ghost predicate HoldsAt(h: Heap, reg: Registry, n: FileTree)
    requires n in h
  {
    && (forall f :: reg.files[(h[n].path, f)] == multiset(h[n].files)[f])
    && (forall b :: (h[n].path, b) in reg.licenses <==> b in h[n].licenses)
  }

  ghost predicate HasPath(h: Heap, p: Path) {
    exists n :: n in h && h[n].path == p
  }

  /** The nodes hold exactly what was added. */
  ghost predicate Holds(h: Heap, reg: Registry) {
    && (forall n {:trigger HoldsAt(h, reg, n)} :: n in h ==> HoldsAt(h, reg, n))
    && (forall e {:trigger HasPath(h, e.0)} :: e in reg.files || e in reg.licenses ==> HasPath(h, e.0))
  }

  /** `t` extends `h` by nodes without files and licenses; what the old nodes hold stays. */
  ghost predicate Grown(h: Heap, t: Heap) {
    && (forall n :: n in h ==>
          && n in t && t[n].files == h[n].files && t[n].licenses == h[n].licenses && t[n].path == h[n].path)
    && (forall n :: n in t && n !in h ==> t[n].files == [] && t[n].licenses == {})
  }

  /** Two nodes with the same path are the same node. */
  lemma {:induction false} PathUnique(h: Heap, root: FileTree, m: FileTree, n: FileTree)
    requires IsTree(h, root) && m in h && n in h && h[m].path == h[n].path
    ensures m == n
    decreases |h[m].path|
  {
    assert Linked(h, m) && Linked(h, n);
    if h[m].parent != null && h[n].parent != null {
      var p, k := h[m].path, |h[m].path| - 1;
      assert h[h[m].parent].path == p[..k] && h[h[n].parent].path == p[..k];
      assert h[m].name == p[k] && h[n].name == p[k];
      PathUnique(h, root, h[m].parent, h[n].parent);
    }
  }

  /** Every prefix of a node's path is the path of a node. */
  lemma {:induction false} Ancestor(h: Heap, root: FileTree, n: FileTree, k: nat) returns (a: FileTree)
    requires IsTree(h, root) && n in h && k <= |h[n].path|
    ensures a in h && h[a].path == h[n].path[..k]
    decreases |h[n].path|
  {
    if k == |h[n].path| {
      a := n;
      assert h[n].path[..k] == h[n].path;
    } else {
      assert Linked(h, n);
      var p := h[n].parent;
      a := Ancestor(h, root, p, k);
      assert h[n].path[..k] == h[p].path[..k];
    }
  }

  lemma StepDown(h: Heap, root: FileTree, curr: FileTree, pieces: Path, i: nat)
    requires IsTree(h, root) && curr in h && i < |pieces| && h[curr].path == pieces[..i]
    requires pieces[i] in h[curr].children
    ensures var c := h[curr].children[pieces[i]]; c in h && h[c].path == pieces[..i + 1]
  {
    assert Linked(h, curr);
    assert Linked(h, h[curr].children[pieces[i]]);
    assert pieces[..i + 1] == pieces[..i] + [pieces[i]];
  }

  /** The other way around: a node one step below `curr` is its child. */
  lemma ChildAt(h: Heap, root: FileTree, curr: FileTree, name: string, n: FileTree)
    requires IsTree(h, root) && curr in h && n in h && h[n].path == h[curr].path + [name]
    ensures name in h[curr].children
  {
    assert Linked(h, n);
    var k := |h[curr].path|;
    assert h[h[n].parent].path == h[n].path[..k] == h[curr].path;
    assert h[n].name == h[n].path[k] == name;
    PathUnique(h, root, h[n].parent, curr);
  }

  /** The heap after a child was hung below `curr`. */
  function WithChild(h: Heap, curr: FileTree, name: string, child: FileTree): (t: Heap)
    requires curr in h
  {
    h[curr := h[curr].(children := h[curr].children[name := child])]
     [child := Node(name, map[], [], {}, curr, h[curr].path + [name])]
  }

  lemma ChildHangs(h: Heap, curr: FileTree, name: string, child: FileTree, n: FileTree)
    requires curr in h && name !in h[curr].children && child !in h
    requires n in h && Hangs(h, n)
    ensures Hangs(WithChild(h, curr, name, child), n)
  {
  }

  lemma ChildCarries(h: Heap, curr: FileTree, name: string, child: FileTree, n: FileTree)
    requires curr in h && name !in h[curr].children && child !in h
    requires n in h && Carries(h, n)
    ensures Carries(WithChild(h, curr, name, child), n)
  {
  }

  lemma ChildLinked(h: Heap, root: FileTree, curr: FileTree, name: string, child: FileTree)
    requires IsTree(h, root) && curr in h && name !in h[curr].children && child !in h
    ensures IsTree(WithChild(h, curr, name, child), root)
  {
    var t := WithChild(h, curr, name, child);
    forall n | n in t
      ensures Linked(t, n)
    {
      if n != child {
        assert Linked(h, n);
        ChildHangs(h, curr, name, child, n);
        ChildCarries(h, curr, name, child, n);
      }
    }
  }

  /** Nothing was added under a path that no node has. */
  lemma NothingThere(h: Heap, reg: Registry, p: Path)
    requires Holds(h, reg) && !HasPath(h, p)
    ensures forall f :: reg.files[(p, f)] == 0 && (p, f) !in reg.licenses
  {
    forall f
      ensures reg.files[(p, f)] == 0 && (p, f) !in reg.licenses
    {
      assert (p, f) in reg.files || (p, f) in reg.licenses ==> HasPath(h, (p, f).0);
    }
  }

  /** A heap with the same paths, and more, has a node for every registered path. */
  lemma PathsKept(h: Heap, t: Heap, reg: Registry)
    requires Holds(h, reg) && forall n :: n in h ==> n in t && t[n].path == h[n].path
    ensures forall e {:trigger HasPath(t, e.0)} :: e in reg.files || e in reg.licenses ==> HasPath(t, e.0)
  {
    forall e: (Path, string) | e in reg.files || e in reg.licenses
      ensures HasPath(t, e.0)
    {
      assert HasPath(h, e.0);
      var n: FileTree :| n in h && h[n].path == e.0;
      assert n in t && t[n].path == e.0;
    }
  }

  lemma ChildHolds(h: Heap, root: FileTree, curr: FileTree, name: string, child: FileTree, reg: Registry)
    requires IsTree(h, root) && curr in h && name !in h[curr].children && child !in h && Holds(h, reg)
    ensures Holds(WithChild(h, curr, name, child), reg)
  {
    var t := WithChild(h, curr, name, child);
    var p := h[curr].path + [name];
    if HasPath(h, p) {
      var n :| n in h && h[n].path == p;
      ChildAt(h, root, curr, name, n);
    }
    NothingThere(h, reg, p);
    forall n | n in t
      ensures HoldsAt(t, reg, n)
    {
      if n != child {
        assert HoldsAt(h, reg, n);
      }
    }
    PathsKept(h, t, reg);
  }

  lemma ChildGrows(h: Heap, curr: FileTree, name: string, child: FileTree)
    requires curr in h && child !in h
    ensures Grown(h, WithChild(h, curr, name, child))
  {
  }

  lemma GrownTwice(a: Heap, b: Heap, c: Heap)
    requires Grown(a, b) && Grown(b, c)
    ensures Grown(a, c)
  {
  }

  function WithFile(h: Heap, n: FileTree, base: string): (t: Heap)
    requires n in h
  {
    h[n := h[n].(files := h[n].files + [base])]
  }

  function WithLicense(h: Heap, n: FileTree, base: string): (t: Heap)
    requires n in h
  {
    h[n := h[n].(licenses := h[n].licenses + {base})]
  }

  /** Heaps that differ in files and licenses only. */
  lemma SameLinks(h: Heap, t: Heap, root: FileTree)
    requires IsTree(h, root) && h.Keys == t.Keys
    requires forall n :: n in h ==>
               && t[n].name == h[n].name && t[n].children == h[n].children
               && t[n].parent == h[n].parent && t[n].path == h[n].path
    ensures IsTree(t, root)
  {
    forall n | n in t
      ensures Linked(t, n)
    {
      assert Linked(h, n);
    }
  }

  lemma FileHoldsAt(h: Heap, root: FileTree, n: FileTree, base: string, reg: Registry, m: FileTree)
    requires IsTree(h, root) && Holds(h, reg) && n in h && m in h
    ensures HoldsAt(WithFile(h, n, base), reg.(files := reg.files + multiset{(h[n].path, base)}), m)
  {
    assert HoldsAt(h, reg, m);
    if h[m].path == h[n].path {
      PathUnique(h, root, m, n);
    }
  }

  lemma FileHolds(h: Heap, root: FileTree, n: FileTree, base: string, reg: Registry)
    requires IsTree(h, root) && Holds(h, reg) && n in h
    ensures IsTree(WithFile(h, n, base), root)
    ensures Holds(WithFile(h, n, base), reg.(files := reg.files + multiset{(h[n].path, base)}))
  {
    var t := WithFile(h, n, base);
    var more := reg.(files := reg.files + multiset{(h[n].path, base)});
    SameLinks(h, t, root);
    forall m | m in t
      ensures HoldsAt(t, more, m)
    {
      FileHoldsAt(h, root, n, base, reg, m);
    }
    PathsKept(h, t, reg);
    assert n in t && HasPath(t, h[n].path);
  }

  lemma LicenseHolds(h: Heap, root: FileTree, n: FileTree, base: string, reg: Registry)
    requires IsTree(h, root) && Holds(h, reg) && n in h
    ensures IsTree(WithLicense(h, n, base), root)
    ensures Holds(WithLicense(h, n, base), reg.(licenses := reg.licenses + {(h[n].path, base)}))
  {
    var t := WithLicense(h, n, base);
    var more := reg.(licenses := reg.licenses + {(h[n].path, base)});
    SameLinks(h, t, root);
    forall m | m in t
      ensures HoldsAt(t, more, m)
    {
      assert HoldsAt(h, reg, m);
      if h[m].path == h[n].path {
        PathUnique(h, root, m, n);
      }
    }
    PathsKept(h, t, reg);
    assert n in t && HasPath(t, h[n].path);
  }

  // ---------------------------------------------------------------------------------------------
  // The worklist
  // ---------------------------------------------------------------------------------------------

  /** The (directory, file) entries of one node. */
  ghost function Entries(p: Path, files: seq<string>): (r: seq<(Path, string)>) {
    seq(|files|, i requires 0 <= i < |files| => (p, files[i]))
  }

  lemma EntriesAppend(p: Path, files: seq<string>, f: string)
    ensures Entries(p, files + [f]) == Entries(p, files) + [(p, f)]
  {
  }

  lemma {:induction false} EntriesCount(p: Path, files: seq<string>, e: (Path, string))
    ensures multiset(Entries(p, files))[e] == if e.0 == p then multiset(files)[e.1] else 0
    decreases |files|
  {
    if files != [] {
      var init, f := files[..|files| - 1], files[|files| - 1];
      assert files == init + [f];
      EntriesAppend(p, init, f);
      EntriesCount(p, init, e);
    } else {
      assert Entries(p, files) == [];
    }
  }

  /** The worklist holds each pending node once. */
  ghost predicate Queued(q: seq<FileTree>, pending: set<FileTree>) {
    && (forall i :: 0 <= i < |q| ==> q[i] in pending)
    && (forall n :: n in pending ==> n in q)
    && (forall i, j :: 0 <= i < j < |q| ==> q[i] != q[j])
  }

  /** The order in which a Go map is visited is arbitrary. */
  method Enumerate(m: map<string, FileTree>, ghost kids: set<FileTree>) returns (r: seq<FileTree>)
    requires forall j, k :: j in m && k in m && j != k ==> m[j] != m[k]
    requires forall n :: n in kids <==> exists k :: k in m && m[k] == n
    ensures Queued(r, kids)
  {
    r := [];
    var todo := m.Keys;
    while todo != {}
      invariant todo <= m.Keys
      invariant forall c :: c in r <==> exists k :: k in m && k !in todo && m[k] == c
      invariant forall i, j :: 0 <= i < j < |r| ==> r[i] != r[j]
      decreases todo
    {
      var k :| k in todo;
      assert m[k] !in r;
      todo := todo - {k};
      r := r + [m[k]];
    }
    assert forall i :: 0 <= i < |r| ==> r[i] in r;
  }

  /** Pending nodes are new, their parents were visited, and a visited node has no unknown child. */
  ghost predicate Frontier(h: Heap, root: FileTree, visited: set<FileTree>, pending: set<FileTree>) {
    && IsTree(h, root)
    && visited <= h.Keys && pending <= h.Keys && visited !! pending
    && root in visited + pending
    && (forall n :: n in h && n in visited + pending ==> n == root || h[n].parent in visited)
    && (forall n :: n in h && h[n].parent in visited ==> n in visited + pending)
  }

  lemma QueuePop(q: seq<FileTree>, pending: set<FileTree>)
    requires Queued(q, pending) && q != []
    ensures q[|q| - 1] in pending && Queued(q[..|q| - 1], pending - {q[|q| - 1]})
  {
    var k := |q| - 1;
    forall n | n in pending - {q[k]}
      ensures n in q[..k]
    {
      var i :| 0 <= i < |q| && q[i] == n;
      assert q[..k][i] == n;
    }
  }

  lemma QueuePush(q: seq<FileTree>, pending: set<FileTree>, more: seq<FileTree>, kids: set<FileTree>)
    requires Queued(q, pending) && Queued(more, kids) && pending !! kids
    ensures Queued(q + more, pending + kids)
  {
    var r := q + more;
    forall i, j | 0 <= i < j < |r|
      ensures r[i] != r[j]
    {
      if i < |q| <= j {
        assert r[i] in q && r[j] in more;
      }
    }
  }

  /** The children of a node are the nodes that have it as their parent. */
  ghost function Kids(h: Heap, curr: FileTree): (s: set<FileTree>) {
    set n | n in h && h[n].parent == curr
  }

  lemma KidsAre(h: Heap, root: FileTree, curr: FileTree)
    requires IsTree(h, root) && curr in h
    ensures forall n :: n in h ==> (n in Kids(h, curr) <==> exists k :: k in h[curr].children && h[curr].children[k] == n)
    ensures forall k :: k in h[curr].children ==> h[curr].children[k] in h
  {
    assert Linked(h, curr);
    forall n | n in Kids(h, curr)
      ensures exists k :: k in h[curr].children && h[curr].children[k] == n
    {
      assert Linked(h, n);
    }
  }

  /** The children of a visited node take its place. */
  lemma Visit(h: Heap, root: FileTree, visited: set<FileTree>, pending: set<FileTree>, curr: FileTree)
    requires Frontier(h, root, visited, pending) && curr in pending
    ensures pending - {curr} !! Kids(h, curr)
    ensures Frontier(h, root, visited + {curr}, (pending - {curr}) + Kids(h, curr))
  {
    forall n | n in Kids(h, curr)
      ensures n !in visited && n !in pending
    {
      assert Linked(h, n);
    }
  }

  /** The visited nodes have been listed. */
  ghost predicate Listed(h: Heap, visited: set<FileTree>, order: seq<(Path, string)>) {
    && (forall n, f :: n in h ==> multiset(order)[(h[n].path, f)] == if n in visited then multiset(h[n].files)[f] else 0)
    && (forall e :: e in order ==> HasPath(h, e.0))
  }

  lemma ListedMore(h: Heap, root: FileTree, visited: set<FileTree>, order: seq<(Path, string)>, curr: FileTree)
    requires IsTree(h, root) && Listed(h, visited, order) && curr in h && curr !in visited
    ensures Listed(h, visited + {curr}, order + Entries(h[curr].path, h[curr].files))
  {
    var more := Entries(h[curr].path, h[curr].files);
    forall n, f | n in h
      ensures multiset(order + more)[(h[n].path, f)] == if n in visited + {curr} then multiset(h[n].files)[f] else 0
    {
      EntriesCount(h[curr].path, h[curr].files, (h[n].path, f));
      if h[n].path == h[curr].path {
        PathUnique(h, root, n, curr);
      }
    }
  }

  lemma {:induction false} VisitedUpTo(h: Heap, root: FileTree, visited: set<FileTree>, n: FileTree)
    requires Frontier(h, root, visited, {}) && n in h
    ensures n in visited
    decreases |h[n].path|
  {
    if n != root {
      assert Linked(h, n);
      VisitedUpTo(h, root, visited, h[n].parent);
    }
  }

  /** An empty worklist leaves no node unvisited. */
  lemma AllVisited(h: Heap, root: FileTree, visited: set<FileTree>)
    requires Frontier(h, root, visited, {})
    ensures visited == h.Keys
  {
    forall n | n in h
      ensures n in visited
    {
      VisitedUpTo(h, root, visited, n);
    }
  }

  /** The path of each directory followed by its file. */
  function Spelling(e: (Path, string)): (s: string) {
    PathString(e.0) + e.1
  }

  ghost function Spell(order: seq<(Path, string)>): (out: seq<string>) {
    seq(|order|, i requires 0 <= i < |order| => Spelling(order[i]))
  }

  lemma SpellMore(a: seq<(Path, string)>, b: seq<(Path, string)>)
    ensures Spell(a + b) == Spell(a) + Spell(b)
  {
  }

  lemma ListedAll(h: Heap, reg: Registry, visited: set<FileTree>, order: seq<(Path, string)>)
    requires Holds(h, reg) && Listed(h, visited, order) && visited == h.Keys
    ensures multiset(order) == reg.files
  {
    forall e: (Path, string)
      ensures multiset(order)[e] == reg.files[e]
    {
      if HasPath(h, e.0) {
        var n :| n in h && h[n].path == e.0;
        assert HoldsAt(h, reg, n);
        assert e == (h[n].path, e.1);
      } else {
        assert e !in order;
      }
    }
  }

  // ---------------------------------------------------------------------------------------------
  // What the iterator yields, in terms of the calls that added the files
  // ---------------------------------------------------------------------------------------------

  /** A call of addFile, given by the directory and the base name of its path. */
  datatype Added = Added(dir: string, base: string) {

    function Key(): (e: (Path, string)) {
      (Pieces(dir, '/'), base)
    }

    /** The name that one would expect: directory, slash, base. */
    function Name(): (s: string) {
      dir + "/" + base
    }

    /** The directory has no empty component. */
    predicate Clean() {
      "" !in Pieces(dir, '/')
    }
  }

  ghost function Registered(adds: seq<Added>): (r: seq<(Path, string)>) {
    seq(|adds|, i requires 0 <= i < |adds| => adds[i].Key())
  }

  ghost function Names(adds: seq<Added>): (r: seq<string>) {
    seq(|adds|, i requires 0 <= i < |adds| => adds[i].Name())
  }

  predicate AllClean(adds: seq<Added>) {
    forall i :: 0 <= i < |adds| ==> adds[i].Clean()
  }

  lemma RegisteredMore(adds: seq<Added>, a: Added)
    ensures Registered(adds + [a]) == Registered(adds) + [a.Key()]
    ensures Spell(Registered(adds + [a])) == Spell(Registered(adds)) + [Spelling(a.Key())]
    ensures Names(adds + [a]) == Names(adds) + [a.Name()]
  {
  }

  lemma Without<T>(s: seq<T>, i: nat)
    requires i < |s|
    ensures multiset(s) == multiset(s[..i] + s[i + 1..]) + multiset{s[i]}
  {
    assert s == s[..i] + [s[i]] + s[i + 1..];
  }

  /** Where two lists are permutations, so are the lists without the last element of the first. */
  lemma Peel<T>(a: seq<T>, b: seq<T>) returns (i: nat)
    requires a != [] && multiset(a) == multiset(b)
    ensures i < |b| && b[i] == a[|a| - 1] && multiset(a[..|a| - 1]) == multiset(b[..i] + b[i + 1..])
  {
    var k := |a| - 1;
    var x := a[k];
    assert x in multiset(b);
    i :| 0 <= i < |b| && b[i] == x;
    Without(a, k);
    Without(b, i);
    assert a[..k] + a[k + 1..] == a[..k];
    assert multiset(a[..k]) == multiset(a) - multiset{x};
    assert multiset(b[..i] + b[i + 1..]) == multiset(b) - multiset{x};
  }

  /** A permuted list is spelled as a permuted list. */
  lemma {:induction false} SpellPermuted(a: seq<(Path, string)>, b: seq<(Path, string)>)
    requires multiset(a) == multiset(b)
    ensures multiset(Spell(a)) == multiset(Spell(b))
    decreases |a|
  {
    if a == [] {
      assert |multiset(b)| == 0;
    } else {
      var k := |a| - 1;
      var i := Peel(a, b);
      var rest := b[..i] + b[i + 1..];
      SpellPermuted(a[..k], rest);
      assert Spell(a) == Spell(a[..k]) + [Spell(a)[k]];
      Without(Spell(b), i);
      assert Spell(b)[..i] + Spell(b)[i + 1..] == Spell(rest);
    }
  }

  function Total(s: seq<string>): (n: nat) {
    if s == [] then 0 else |s[|s| - 1]| + Total(s[..|s| - 1])
  }

  lemma {:induction false} TotalWithout(s: seq<string>, i: nat)
    requires i < |s|
    ensures Total(s) == Total(s[..i] + s[i + 1..]) + |s[i]|
    decreases |s|
  {
    var k := |s| - 1;
    if i == k {
      assert s[..i] + s[i + 1..] == s[..k];
    } else {
      TotalWithout(s[..k], i);
      var rest := s[..i] + s[i + 1..];
      assert rest[..|rest| - 1] == s[..k][..i] + s[..k][i + 1..];
    }
  }

  /** Permuted lists have the same total length. */
  lemma {:induction false} TotalPermuted(a: seq<string>, b: seq<string>)
    requires multiset(a) == multiset(b)
    ensures Total(a) == Total(b)
    decreases |a|
  {
    if a == [] {
      assert |multiset(b)| == 0;
    } else {
      var i := Peel(a, b);
      TotalWithout(b, i);
      TotalPermuted(a[..|a| - 1], b[..i] + b[i + 1..]);
    }
  }

  /** Each empty component makes the spelled name one character shorter than the expected one. */
  lemma SpelledLength(a: Added)
    ensures |Spelling(a.Key())| + Empties(a.Key().0) == |a.Name()|
  {
    JoinPieces(a.dir, '/');
    PathStringJoin(Pieces(a.dir, '/'));
  }

  lemma TotalMore(s: seq<string>, x: string)
    ensures Total(s + [x]) == Total(s) + |x|
  {
    assert (s + [x])[..|s|] == s;
  }

  lemma {:induction false} TotalsCompare(adds: seq<Added>)
    ensures Total(Spell(Registered(adds))) <= Total(Names(adds))
    ensures Total(Spell(Registered(adds))) == Total(Names(adds)) ==> AllClean(adds)
    decreases |adds|
  {
    if adds != [] {
      var init, a := adds[..|adds| - 1], adds[|adds| - 1];
      assert adds == init + [a];
      TotalsCompare(init);
      RegisteredMore(init, a);
      SpelledLength(a);
      TotalMore(Spell(Registered(init)), Spelling(a.Key()));
      TotalMore(Names(init), a.Name());
    }
  }

  /**
   * The iterator yields the multiset of directory/base names of the files added if and only if no
   * directory has an empty component.
   */
  lemma NamesExactly(adds: seq<Added>)
    ensures multiset(Spell(Registered(adds))) == multiset(Names(adds)) <==> AllClean(adds)
  {
    if AllClean(adds) {
      forall i | 0 <= i < |adds|
        ensures Spelling(adds[i].Key()) == adds[i].Name()
      {
        PathIsDirectoryExactly(adds[i].dir);
      }
      assert Spell(Registered(adds)) == Names(adds);
    } else if multiset(Spell(Registered(adds))) == multiset(Names(adds)) {
      TotalPermuted(Spell(Registered(adds)), Names(adds));
      TotalsCompare(adds);
    }
  }

  /** An absolute directory loses its first slash. */
  lemma AbsolutePathDiffers()
    ensures Pieces("/a", '/') == ["", "a"]
    ensures PathString(Pieces("/a", '/')) == "a/" != "/a" + "/"
  {
    assert "/a" == Join(["", "a"], '/') by {
      assert ["", "a"][1..] == ["a"];
    }
    PiecesJoin(["", "a"], '/');
    PathStringCons("", ["a"]);
    PathStringCons("a", []);
    assert ["", "a"] == [""] + ["a"] && ["a"] == ["a"] + [];
  }

  // ---------------------------------------------------------------------------------------------
  // The license of a project
  // ---------------------------------------------------------------------------------------------

  ghost predicate Licensed(reg: Registry, p: Path) {
    exists b :: (p, b) in reg.licenses
  }

  /** Among the first `bound` prefixes of `pieces`, the longest with a license has length `k`; -1 is none. */
  ghost predicate DeepestBelow(reg: Registry, pieces: Path, k: int, bound: nat)
    requires bound <= |pieces| + 1
  {
    && -1 <= k < bound
    && (k >= 0 ==> Licensed(reg, pieces[..k]))
    && (forall j :: k < j < bound ==> !Licensed(reg, pieces[..j]))
  }

  lemma LicensedAt(h: Heap, reg: Registry, n: FileTree)
    requires Holds(h, reg) && n in h
    ensures Licensed(reg, h[n].path) <==> h[n].licenses != {}
  {
    assert HoldsAt(h, reg, n);
    if h[n].licenses != {} {
      var b :| b in h[n].licenses;
      assert (h[n].path, b) in reg.licenses;
    }
  }

  /** Below a missing child there is nothing. */
  lemma NoDeeper(h: Heap, root: FileTree, reg: Registry, curr: FileTree, pieces: Path, i: nat, j: nat)
    requires IsTree(h, root) && Holds(h, reg) && curr in h && i < j <= |pieces| && h[curr].path == pieces[..i]
    requires pieces[i] !in h[curr].children
    ensures !Licensed(reg, pieces[..j])
  {
    if HasPath(h, pieces[..j]) {
      var n :| n in h && h[n].path == pieces[..j];
      var a := Ancestor(h, root, n, i + 1);
      assert h[a].path == pieces[..i] + [pieces[i]];
      ChildAt(h, root, curr, pieces[i], a);
    } else {
      NothingThere(h, reg, pieces[..j]);
    }
  }

  /** The tree of a checker, its nodes and what was added to it. */
  class Checker {
    const root: FileTree
    ghost var nodes: set<FileTree>
    ghost var reg: Registry
    /** The calls of addFile so far. */
    ghost var adds: seq<Added>

    /** The tree is one, and holds what was added. */
    ghost predicate Sound()
      reads this, nodes
    {
      IsTree(Snapshot(nodes), root) && Holds(Snapshot(nodes), reg)
    }

    ghost predicate Valid()
      reads this, nodes
    {
      Sound() && reg.files == multiset(Registered(adds))
    }

    constructor ()
      ensures Valid() && fresh(nodes) && adds == [] && reg == Registry(multiset{}, {})
    {
      root := new FileTree.Root();
      new;
      nodes, reg, adds := {root}, Registry(multiset{}, {}), [];
    }

    method AddChild(curr: FileTree, name: string) returns (child: FileTree)
      requires Sound() && curr in nodes && name !in curr.children
      modifies this`nodes, curr`children
      ensures Sound() && nodes == old(nodes) + {child} && fresh(child)
      ensures name in curr.children && Grown(old(Snapshot(nodes)), Snapshot(nodes))
    {
      ghost var h := Snapshot(nodes);
      child := new FileTree.Child(name, curr);
      ChildLinked(h, root, curr, name, child);
      ChildHolds(h, root, curr, name, child, reg);
      ChildGrows(h, curr, name, child);
      ghost var t := WithChild(h, curr, name, child);
      curr.children := curr.children[name := child];
      nodes := nodes + {child};
      assert Snapshot(nodes) == t;
    }

    /** getSetCurr: walks down the directory, adding the nodes that are missing. */
    method GetSetCurr(dir: string) returns (curr: FileTree)
      requires Sound()
      modifies this`nodes, nodes
      ensures Sound() && old(nodes) <= nodes && fresh(nodes - old(nodes))
      ensures curr in nodes && curr.path == Pieces(dir, '/')
      ensures Grown(old(Snapshot(nodes)), Snapshot(nodes))
    {
      var pieces := Pieces(dir, '/');
      curr := root;
      for i := 0 to |pieces|
        invariant Sound() && old(nodes) <= nodes && fresh(nodes - old(nodes))
        invariant curr in nodes && curr.path == pieces[..i]
        invariant Grown(old(Snapshot(nodes)), Snapshot(nodes))
      {
        if pieces[i] !in curr.children {
          ghost var h := Snapshot(nodes);
          var child := AddChild(curr, pieces[i]);
          GrownTwice(old(Snapshot(nodes)), h, Snapshot(nodes));
        }
        StepDown(Snapshot(nodes), root, curr, pieces, i);
        curr := curr.children[pieces[i]];
      }
      assert pieces[..|pieces|] == pieces;
    }

    method AppendFile(curr: FileTree, base: string)
      requires Sound() && curr in nodes
      modifies this`reg, curr`files
      ensures Sound() && reg == old(reg).(files := old(reg).files + multiset{(curr.path, base)})
    {
      ghost var h := Snapshot(nodes);
      FileHolds(h, root, curr, base, reg);
      curr.files := curr.files + [base];
      reg := reg.(files := reg.files + multiset{(curr.path, base)});
      assert Snapshot(nodes) == WithFile(h, curr, base);
    }

    method SetLicense(curr: FileTree, base: string)
      requires Sound() && curr in nodes
      modifies this`reg, curr`singleLicenseFiles
      ensures Sound() && reg == old(reg).(licenses := old(reg).licenses + {(curr.path, base)})
    {
      ghost var h := Snapshot(nodes);
      LicenseHolds(h, root, curr, base, reg);
      curr.singleLicenseFiles := curr.singleLicenseFiles + {base};
      reg := reg.(licenses := reg.licenses + {(curr.path, base)});
      assert Snapshot(nodes) == WithLicense(h, curr, base);
    }

    /** Records a call whose file is in the tree. */
    ghost method Note(a: Added)
      requires Sound() && reg.files == multiset(Registered(adds)) + multiset{a.Key()}
      modifies this`adds
      ensures Valid() && adds == old(adds) + [a]
    {
      RegisteredMore(adds, a);
      adds := adds + [a];
    }

    method AddFile(dir: string, base: string)
      requires Valid()
      modifies this, nodes
      ensures Valid() && old(nodes) <= nodes && fresh(nodes - old(nodes))
      ensures adds == old(adds) + [Added(dir, base)] && reg.licenses == old(reg.licenses)
    {
      var curr := GetSetCurr(dir);
      AppendFile(curr, base);
      Note(Added(dir, base));
    }

    method AddSingleLicenseFile(dir: string, base: string)
      requires Valid()
      modifies this, nodes
      ensures Valid() && old(nodes) <= nodes && fresh(nodes - old(nodes))
      ensures reg == old(reg).(licenses := old(reg).licenses + {(Pieces(dir, '/'), base)}) && adds == old(adds)
    {
      var curr := GetSetCurr(dir);
      SetLicense(curr, base);
    }

    /** getPath: follows the parent pointers up and joins the names downwards. */
    method GetPath(n: FileTree) returns (s: string)
      requires Sound() && n in nodes
      ensures s == PathString(n.path)
    {
      ghost var h := Snapshot(nodes);
      var arr: seq<string> := [];
      var curr: FileTree? := n;
      while curr != null
        invariant curr != null ==> curr in nodes && n.path == curr.path + Rev(arr)
        invariant curr == null ==> [""] + n.path == Rev(arr)
        decreases if curr == null then -1 else |curr.path|
      {
        assert Linked(h, curr);
        RevAppend(arr, curr.name);
        assert curr.parent != null ==> curr.path + Rev(arr) == curr.parent.path + ([curr.name] + Rev(arr));
        arr := arr + [curr.name];
        curr := curr.parent;
      }
      s := "";
      var i := |arr|;
      while i > 0
        invariant 0 <= i <= |arr|
        invariant s == PathString(Rev(arr[i..]))
      {
        i := i - 1;
        assert arr[i..][1..] == arr[i + 1..];
        PathStringAppend(Rev(arr[i + 1..]), arr[i]);
        if arr[i] != "" {
          s := s + (arr[i] + "/");
        }
      }
      assert arr[0..] == arr;
      PathStringNameless(n.path);
    }

    /** The strings that the iterator yields for one node. */
    method ListFiles(curr: FileTree) returns (some: seq<string>)
      requires Sound() && curr in nodes
      ensures some == Spell(Entries(curr.path, curr.files))
    {
      var base := GetPath(curr);
      some := [];
      for i := 0 to |curr.files|
        invariant |some| == i && forall j :: 0 <= j < i ==> some[j] == base + curr.files[j]
      {
        some := some + [base + curr.files[i]];
      }
    }

    method ListChildren(curr: FileTree) returns (more: seq<FileTree>)
      requires Sound() && curr in nodes
      ensures Queued(more, Kids(Snapshot(nodes), curr))
    {
      ghost var h := Snapshot(nodes);
      KidsAre(h, root, curr);
      assert Linked(h, curr);
      more := Enumerate(curr.children, Kids(h, curr));
    }

    /** getFileIterator: a worklist of nodes, popped from its end. */
    method FileIterator() returns (out: seq<string>)
      requires Valid()
      ensures multiset(out) == multiset(Spell(Registered(adds)))
      ensures multiset(out) == multiset(Names(adds)) <==> AllClean(adds)
    {
      ghost var h := Snapshot(nodes);
      out := [];
      ghost var order: seq<(Path, string)> := [];
      var q := [root];
      ghost var visited: set<FileTree>, pending := {}, {root};
      while |q| > 0
        invariant Queued(q, pending) && Frontier(h, root, visited, pending)
        invariant Listed(h, visited, order) && out == Spell(order)
        decreases h.Keys - visited
      {
        var curr := q[|q| - 1];
        QueuePop(q, pending);
        q := q[..|q| - 1];
        var some := ListFiles(curr);
        ListedMore(h, root, visited, order, curr);
        SpellMore(order, Entries(curr.path, curr.files));
        out := out + some;
        order := order + Entries(curr.path, curr.files);
        var more := ListChildren(curr);
        Visit(h, root, visited, pending, curr);
        QueuePush(q, pending - {curr}, more, Kids(h, curr));
        q := q + more;
        visited, pending := visited + {curr}, (pending - {curr}) + Kids(h, curr);
      }
      assert pending == {};
      AllVisited(h, root, visited);
      ListedAll(h, reg, visited, order);
      SpellPermuted(order, Registered(adds));
      NamesExactly(adds);
    }

    /**
     * getProjectLicense: the deepest licensed node on the way to a directory. With a directory of one
     * component only the root is looked at.
     */
    method GetProjectLicense(dir: string) returns (gold: FileTree?)
      requires Valid()
      ensures gold != null ==> gold in nodes && gold.path <= Pieces(dir, '/')
      ensures var pieces := Pieces(dir, '/');
              var k := if gold == null then -1 else |gold.path|;
              && (DeepestBelow(reg, pieces, k, |pieces| + 1) <==> |pieces| > 1 || !Licensed(reg, pieces))
              && (|pieces| == 1 ==> DeepestBelow(reg, pieces, k, 1))
    {
      ghost var h := Snapshot(nodes);
      var pieces := Pieces(dir, '/');
      var curr := root;
      gold := null;
      ghost var k := -1;
      var i := 0;
      while i < |pieces|
        invariant 0 <= i <= |pieces| && curr in nodes && curr.path == pieces[..i]
        invariant k == (if gold == null then -1 else |gold.path|) && k <= i
        invariant gold != null ==> gold in nodes && gold.path == pieces[..k]
        invariant DeepestBelow(reg, pieces, k, i)
      {
        LicensedAt(h, reg, curr);
        if |curr.singleLicenseFiles| > 0 {
          gold := curr;
          k := i;
        }
        if pieces[i] !in curr.children {
          forall j | i < j <= |pieces|
            ensures !Licensed(reg, pieces[..j])
          {
            NoDeeper(h, root, reg, curr, pieces, i, j);
          }
          break;
        }
        StepDown(h, root, curr, pieces, i);
        curr := curr.children[pieces[i]];
        i := i + 1;
      }
      LicensedAt(h, reg, curr);
      assert pieces[..|pieces|] == pieces;
      if |pieces| > 1 && |curr.singleLicenseFiles| > 0 {
        gold := curr;
        k := i;
      }
    }
  }

  /** The license of a directory of one component is missed by a lookup in that directory. */
  method OneComponentMissed() returns (gold: FileTree?)
    ensures gold == null
  {
    var checker := new Checker();
    IndexOfNone("a", '/');
    checker.AddSingleLicenseFile("a", "LICENSE");
    gold := checker.GetProjectLicense("a");
    assert Licensed(checker.reg, Pieces("a", '/'));
  }
}
