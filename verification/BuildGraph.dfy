/** What the reference index, the collapsed graph and the batches of referrers are supposed to be. */
module GraphSpec {
  import opened Machine

  type Label = string

  type Adjacency = map<Label, seq<Label>>

  predicate Edge(g: Adjacency, x: Label, y: Label) {
    x in g && y in g[x]
  }

  /** Every dependency is a node of its own. */
  predicate Closed(g: Adjacency) {
    forall x, y :: x in g && y in g[x] ==> y in g
  }

  ghost function Times(s: seq<Label>, x: Label): (n: nat)
    ensures n > 0 <==> x in s
    ensures s == [] ==> n == 0
  {
    assert x in s <==> x in multiset(s);
    multiset(s)[x]
  }

  /** The index entries for the nodes outside `todo` are in place. */
  ghost predicate Indexed(deps: Adjacency, refs: Adjacency, todo: set<Label>) {
    && deps.Keys == refs.Keys
    && forall x, y :: y in refs ==> Times(refs[y], x) == if x in deps && x !in todo then Times(deps[x], y) else 0
  }

  /** `refs` lists each referrer as often as it lists the dependency. */
  ghost predicate Transposed(deps: Adjacency, refs: Adjacency) {
    Indexed(deps, refs, {})
  }

  /** `r` is `r0` with `src` appended to the entry of each of `dsts`. */
  ghost predicate Referred(r0: Adjacency, r: Adjacency, src: Label, dsts: seq<Label>) {
    && r.Keys == r0.Keys
    && forall x, y :: y in r ==> Times(r[y], x) == Times(r0[y], x) + if x == src then Times(dsts, y) else 0
  }

  lemma ReferredStep(r0: Adjacency, r: Adjacency, src: Label, dsts: seq<Label>, dst: Label)
    requires Referred(r0, r, src, dsts) && dst in r
    ensures Referred(r0, r[dst := r[dst] + [src]], src, dsts + [dst])
  {
    var r' := r[dst := r[dst] + [src]];
    forall x, y | y in r'
      ensures Times(r'[y], x) == Times(r0[y], x) + if x == src then Times(dsts + [dst], y) else 0
    {
      assert Times(r[y], x) == Times(r0[y], x) + if x == src then Times(dsts, y) else 0;
    }
  }

  lemma IndexedStepAt(
    deps: Adjacency, r: Adjacency, r': Adjacency, todo: set<Label>, src: Label, x: Label, y: Label)
    requires Indexed(deps, r, todo) && src in todo && src in deps && Referred(r, r', src, deps[src]) && y in r'
    ensures Times(r'[y], x) == if x in deps && x !in todo - {src} then Times(deps[x], y) else 0
  {
    var before := Times(r[y], x);
    if x == src {
      assert before == 0;
    } else {
      assert Times(r'[y], x) == before;
    }
  }

  lemma IndexedStep(deps: Adjacency, r: Adjacency, r': Adjacency, todo: set<Label>, src: Label)
    requires Indexed(deps, r, todo) && src in todo && src in deps && Referred(r, r', src, deps[src])
    ensures Indexed(deps, r', todo - {src})
  {
    forall x, y | y in r'
      ensures Times(r'[y], x) == if x in deps && x !in todo - {src} then Times(deps[x], y) else 0
    {
      IndexedStepAt(deps, r, r', todo, src, x, y);
    }
  }

  /** `h` is `g` with an empty entry for each dependency that had none. */
  ghost predicate Completes(g: Adjacency, h: Adjacency) {
    && (forall x :: x in h <==> x in g || exists a :: Edge(g, a, x))
    && (forall x :: x in h ==> h[x] == if x in g then g[x] else [])
  }

  ghost predicate NoRepeats(g: Adjacency) {
    forall x, y :: x in g ==> Times(g[x], y) <= 1
  }

  ghost predicate NodeFrom(transform: Label -> Option<Label>, done: set<Label>, x: Label) {
    exists a :: a in done && transform(a) == Some(x)
  }

  /** Some edge out of `done` maps onto (x, y). */
  ghost predicate EdgeFrom(
    g: Adjacency, transform: Label -> Option<Label>, done: set<Label>, x: Label, y: Label)
  {
    exists a, b :: a in done && Edge(g, a, b) && transform(a) == Some(x) && transform(b) == Some(y)
  }

  ghost predicate Image(transform: Label -> Option<Label>, ys: seq<Label>, y: Label) {
    exists b :: b in ys && transform(b) == Some(y)
  }

  predicate Joined(m: map<Label, set<Label>>, x: Label, y: Label) {
    x in m && y in m[x]
  }

  /**
   * The quotient graph: the images of the kept nodes, and the images of the edges between nodes that
   * stay apart. A node is dropped when `transform` maps it to None.
   */
  ghost predicate Collapsed(g: Adjacency, transform: Label -> Option<Label>, h: Adjacency) {
    && (forall x :: x in h <==> NodeFrom(transform, g.Keys, x))
    && (forall x, y :: Edge(h, x, y) <==> x != y && EdgeFrom(g, transform, g.Keys, x, y))
  }

  /** The partial result of a collapse, when the nodes in `done` have been visited. */
  ghost predicate Merged(
    g: Adjacency, transform: Label -> Option<Label>, done: set<Label>, merged: map<Label, set<Label>>)
  {
    && (forall x :: x in merged <==> NodeFrom(transform, done, x))
    && (forall x, y :: Joined(merged, x, y) <==> x != y && EdgeFrom(g, transform, done, x, y))
  }

  /** The index entry of a node lists exactly its referrers. */
  lemma ReferrersAre(deps: Adjacency, refs: Adjacency, y: Label)
    requires Transposed(deps, refs) && y in refs
    ensures forall x :: x in refs[y] <==> Edge(deps, x, y)
  {
    forall x
      ensures x in refs[y] <==> Edge(deps, x, y)
    {
      assert Times(refs[y], x) > 0 <==> x in deps && Times(deps[x], y) > 0;
    }
  }

  lemma OnlyOnce(s: seq<Label>, x: Label)
    requires Times(s, x) == 1 && forall z :: z in s ==> z == x
    ensures s == [x]
  {
    forall z
      ensures multiset(s)[z] == multiset{x}[z]
    {
      assert z in s <==> z in multiset(s);
    }
    assert multiset(s) == multiset{x};
    assert |s| == |multiset(s)|;
  }

  /** An index entry is a singleton exactly for a sole referrer that refers once. */
  lemma SoleReferrer(deps: Adjacency, refs: Adjacency, x: Label, y: Label)
    requires Transposed(deps, refs) && y in refs && Edge(deps, x, y)
    ensures refs[y] == [x] <==> Times(deps[x], y) == 1 && forall z :: Edge(deps, z, y) ==> z == x
  {
    ReferrersAre(deps, refs, y);
    assert Times(refs[y], x) == Times(deps[x], y);
    if Times(deps[x], y) == 1 && forall z :: Edge(deps, z, y) ==> z == x {
      OnlyOnce(refs[y], x);
    }
  }

  lemma NodeFromStep(transform: Label -> Option<Label>, done: set<Label>, src: Label, x: Label)
    ensures NodeFrom(transform, done + {src}, x) <==> NodeFrom(transform, done, x) || transform(src) == Some(x)
  {
    if NodeFrom(transform, done, x) {
      var a :| a in done && transform(a) == Some(x);
      assert a in done + {src};
    }
    assert src in done + {src};
  }

  lemma EdgeFromStep(
    g: Adjacency, transform: Label -> Option<Label>, done: set<Label>, src: Label, x: Label, y: Label)
    requires src in g
    ensures EdgeFrom(g, transform, done + {src}, x, y) <==>
              EdgeFrom(g, transform, done, x, y) || (transform(src) == Some(x) && Image(transform, g[src], y))
  {
    if EdgeFrom(g, transform, done, x, y) {
      var a, b :| a in done && Edge(g, a, b) && transform(a) == Some(x) && transform(b) == Some(y);
      assert a in done + {src};
    }
    if transform(src) == Some(x) && Image(transform, g[src], y) {
      var b :| b in g[src] && transform(b) == Some(y);
      assert src in done + {src} && Edge(g, src, b);
    }
  }

  /** One visited node that is kept. */
  lemma MergedStep(
    g: Adjacency, transform: Label -> Option<Label>, done: set<Label>, m: map<Label, set<Label>>,
    src: Label, dsts: set<Label>)
    requires src in g && Merged(g, transform, done, m) && transform(src).Some?
    requires var x := transform(src).value;
             forall y :: y in dsts <==> Joined(m, x, y) || (y != x && Image(transform, g[src], y))
    ensures Merged(g, transform, done + {src}, m[transform(src).value := dsts])
  {
    var m' := m[transform(src).value := dsts];
    forall x
      ensures x in m' <==> NodeFrom(transform, done + {src}, x)
    {
      NodeFromStep(transform, done, src, x);
    }
    forall x, y
      ensures Joined(m', x, y) <==> x != y && EdgeFrom(g, transform, done + {src}, x, y)
    {
      EdgeFromStep(g, transform, done, src, x, y);
      assert Joined(m, x, y) <==> x != y && EdgeFrom(g, transform, done, x, y);
    }
  }

  /** One visited node that is dropped. */
  lemma MergedSkip(
    g: Adjacency, transform: Label -> Option<Label>, done: set<Label>, m: map<Label, set<Label>>, src: Label)
    requires src in g && Merged(g, transform, done, m) && transform(src).None?
    ensures Merged(g, transform, done + {src}, m)
  {
    forall x
      ensures x in m <==> NodeFrom(transform, done + {src}, x)
    {
      NodeFromStep(transform, done, src, x);
    }
    forall x, y
      ensures Joined(m, x, y) <==> x != y && EdgeFrom(g, transform, done + {src}, x, y)
    {
      EdgeFromStep(g, transform, done, src, x, y);
    }
  }

  lemma EnumeratedEdges(m: map<Label, set<Label>>, h: Adjacency)
    requires h.Keys == m.Keys
    requires forall x, y :: x in h ==> Times(h[x], y) == if y in m[x] then 1 else 0
    ensures NoRepeats(h)
    ensures forall x, y :: Edge(h, x, y) <==> Joined(m, x, y)
  {
  }

  /** The merged images of all nodes, once completed, are the collapsed graph. */
  lemma CollapsedEdges(
    g: Adjacency, transform: Label -> Option<Label>, m: map<Label, set<Label>>, h: Adjacency, h': Adjacency)
    requires Closed(g) && Merged(g, transform, g.Keys, m) && Completes(h, h') && h.Keys == m.Keys
    requires forall x, y :: Edge(h, x, y) <==> Joined(m, x, y)
    requires NoRepeats(h)
    ensures Collapsed(g, transform, h') && NoRepeats(h')
  {
    forall x, y
      ensures Edge(h', x, y) <==> x != y && EdgeFrom(g, transform, g.Keys, x, y)
    {
      assert Edge(h', x, y) <==> Edge(h, x, y);
      assert Joined(m, x, y) <==> x != y && EdgeFrom(g, transform, g.Keys, x, y);
    }
    forall x
      ensures x in h' <==> NodeFrom(transform, g.Keys, x)
    {
      if w :| Edge(h, w, x) {
        assert Joined(m, w, x);
        var a, b :| a in g.Keys && Edge(g, a, b) && transform(a) == Some(w) && transform(b) == Some(x);
        assert b in g.Keys;
      }
    }
  }

  lemma TransposeKeepsNoRepeats(deps: Adjacency, refs: Adjacency)
    requires Transposed(deps, refs) && NoRepeats(deps)
    ensures NoRepeats(refs)
  {
    forall x, y | y in refs
      ensures Times(refs[y], x) <= 1
    {
      if x in deps {
        assert Times(refs[y], x) == Times(deps[x], y);
      }
    }
  }

  /** `x` refers to `lib` through a chain of `k` references. */
  ghost predicate Chain(g: Adjacency, x: Label, lib: Label, k: nat)
    decreases k
  {
    if k == 0 then false
    else if k == 1 then Edge(g, x, lib)
    else exists y :: Edge(g, x, y) && Chain(g, y, lib, k - 1)
  }

  /** The shortest non-empty chain from `x` to `lib` has length `k`. */
  ghost predicate Shortest(g: Adjacency, x: Label, lib: Label, k: nat) {
    Chain(g, x, lib, k) && forall j :: 0 <= j < k ==> !Chain(g, x, lib, j)
  }

  lemma {:induction false} ShortestExists(g: Adjacency, x: Label, lib: Label, k: nat) returns (j: nat)
    requires Chain(g, x, lib, k)
    ensures j <= k && Shortest(g, x, lib, j)
    decreases k
  {
    if i: nat :| i < k && Chain(g, x, lib, i) {
      j := ShortestExists(g, x, lib, i);
    } else {
      j := k;
    }
  }

  /** The second node of a shortest chain is one step closer. */
  lemma ShortestTail(g: Adjacency, x: Label, lib: Label, k: nat) returns (y: Label)
    requires k > 1 && Shortest(g, x, lib, k)
    ensures Edge(g, x, y) && Shortest(g, y, lib, k - 1)
  {
    y :| Edge(g, x, y) && Chain(g, y, lib, k - 1);
    forall j | 0 <= j < k - 1
      ensures !Chain(g, y, lib, j)
    {
      assert !Chain(g, x, lib, j + 1);
    }
  }

  /** When nothing is at distance `k`, nothing is further away. */
  lemma {:induction false} EmptyLayerEnds(g: Adjacency, lib: Label, k: nat, x: Label, m: nat)
    requires 1 <= k <= m
    requires forall z :: !Shortest(g, z, lib, k)
    ensures !Shortest(g, x, lib, m)
    decreases m
  {
    if k < m && Shortest(g, x, lib, m) {
      var y := ShortestTail(g, x, lib, m);
      EmptyLayerEnds(g, lib, k, y, m - 1);
    }
  }
}

/** The BuildGraph class and the analyses of the script's main function. */
module BuildGraphs {
  import opened Machine
  import opened GraphSpec

  datatype Verdict = NotFound | Movable | Blocked(batches: seq<set<Label>>)

  ghost predicate IsLayer(g: Adjacency, lib: Label, k: nat, batch: set<Label>) {
    forall x :: x in batch <==> Shortest(g, x, lib, k)
  }

  /** The layers found so far are exactly the layers at distances 1 to |batches|. */
  ghost predicate AreLayers(g: Adjacency, lib: Label, batches: seq<set<Label>>) {
    forall i :: 0 <= i < |batches| ==> batches[i] != {} && IsLayer(g, lib, i + 1, batches[i])
  }

  /** `shown` is what lies within distance `k`. */
  ghost predicate IsBall(g: Adjacency, lib: Label, k: nat, shown: set<Label>) {
    forall x :: x in shown <==> exists j :: 0 <= j <= k && Shortest(g, x, lib, j)
  }

  lemma FirstLayer(g: Adjacency, lib: Label, batch: set<Label>)
    requires forall x :: x in batch <==> Edge(g, x, lib)
    ensures IsLayer(g, lib, 1, batch) && IsBall(g, lib, 0, {})
  {
  }

  lemma LayersGrow(g: Adjacency, lib: Label, batches: seq<set<Label>>, batch: set<Label>)
    requires AreLayers(g, lib, batches) && IsLayer(g, lib, |batches| + 1, batch) && batch != {}
    ensures AreLayers(g, lib, batches + [batch])
  {
  }

  lemma BallGrows(g: Adjacency, lib: Label, k: nat, shown: set<Label>, batch: set<Label>)
    requires IsBall(g, lib, k, shown) && IsLayer(g, lib, k + 1, batch)
    ensures IsBall(g, lib, k + 1, shown + batch)
    ensures shown !! batch
    ensures batch <= g.Keys
  {
  }

  /** The unseen referrers of the layer at distance `k` are the layer at distance `k + 1`. */
  lemma NextIsLayer(g: Adjacency, lib: Label, k: nat, shown: set<Label>, batch: set<Label>, next: set<Label>)
    requires k >= 1 && IsLayer(g, lib, k, batch) && IsBall(g, lib, k, shown)
    requires forall x :: x in next <==> x !in shown && exists y :: y in batch && Edge(g, x, y)
    ensures IsLayer(g, lib, k + 1, next)
  {
    forall x
      ensures x in next <==> Shortest(g, x, lib, k + 1)
    {
      if x in next {
        var y :| y in batch && Edge(g, x, y);
        assert Chain(g, x, lib, k + 1);
        var j := ShortestExists(g, x, lib, k + 1);
      }
      if Shortest(g, x, lib, k + 1) {
        var y := ShortestTail(g, x, lib, k + 1);
      }
    }
  }

  /** The invariant of the loop that lists the batches. */
  ghost predicate Round(
    g: Adjacency, lib: Label, batches: seq<set<Label>>, shown: set<Label>, batch: set<Label>)
  {
    && AreLayers(g, lib, batches)
    && IsLayer(g, lib, |batches| + 1, batch)
    && IsBall(g, lib, |batches|, shown)
  }

  lemma RoundKept(
    g: Adjacency, lib: Label, batches: seq<set<Label>>, shown: set<Label>, batch: set<Label>, next: set<Label>)
    requires Round(g, lib, batches, shown, batch) && batch != {}
    requires forall x :: x in next <==> x !in shown + batch && exists y :: y in batch && Edge(g, x, y)
    ensures Round(g, lib, batches + [batch], shown + batch, next)
  {
    LayersGrow(g, lib, batches, batch);
    BallGrows(g, lib, |batches|, shown, batch);
    NextIsLayer(g, lib, |batches| + 1, shown + batch, batch, next);
  }

  /** Once a layer is empty, every chain was seen. */
  lemma LayersAreAll(g: Adjacency, lib: Label, batches: seq<set<Label>>)
    requires AreLayers(g, lib, batches) && IsLayer(g, lib, |batches| + 1, {})
    ensures forall x, k :: Chain(g, x, lib, k) ==> exists i :: 0 <= i < |batches| && x in batches[i]
  {
    forall x, k | Chain(g, x, lib, k)
      ensures exists i :: 0 <= i < |batches| && x in batches[i]
    {
      var j := ShortestExists(g, x, lib, k);
      if j > |batches| {
        EmptyLayerEnds(g, lib, |batches| + 1, x, j);
      }
      assert IsLayer(g, lib, j - 1 + 1, batches[j - 1]);
    }
  }

  /** An arbitrary enumeration, the order in which Python visits a set. */
  method Enumerate(s: set<Label>) returns (r: seq<Label>)
    ensures forall x :: Times(r, x) == if x in s then 1 else 0
  {
    r := [];
    var todo := s;
    while todo != {}
      invariant todo <= s
      invariant forall x :: Times(r, x) == if x in s && x !in todo then 1 else 0
      decreases todo
    {
      var x :| x in todo;
      todo := todo - {x};
      r := r + [x];
    }
  }

  class BuildGraph {
    var deps: Adjacency
    var refs: Adjacency

    ghost predicate Valid()
      reads this
    {
      Closed(deps) && Transposed(deps, refs)
    }

    constructor (deps: Adjacency)
      ensures Valid()
      ensures Completes(deps, this.deps)
    {
      this.deps := deps;
      this.refs := map[];
      new;
      ComputeRefs();
    }

    /** The inner loop over the dependencies of one node. */
    static method AppendReferrer(r0: Adjacency, src: Label, srcDeps: seq<Label>) returns (r: Adjacency)
      requires forall y :: y in srcDeps ==> y in r0
      ensures Referred(r0, r, src, srcDeps)
    {
      r := r0;
      assert forall y :: Times(srcDeps[..0], y) == 0;
      for j := 0 to |srcDeps|
        invariant Referred(r0, r, src, srcDeps[..j])
      {
        ReferredStep(r0, r, src, srcDeps[..j], srcDeps[j]);
        assert srcDeps[..j + 1] == srcDeps[..j] + [srcDeps[j]];
        r := r[srcDeps[j] := r[srcDeps[j]] + [src]];
      }
      assert srcDeps[..|srcDeps|] == srcDeps;
    }

    /** The second loop, over all entries of the dependencies. */
    static method BuildIndex(deps: Adjacency, r0: Adjacency) returns (r: Adjacency)
      requires Closed(deps) && r0.Keys == deps.Keys && forall x :: x in r0 ==> r0[x] == []
      ensures Transposed(deps, r)
    {
      r := r0;
      var todo := deps.Keys;
      assert forall x, y :: y in r ==> Times(r[y], x) == 0;
      while todo != {}
        invariant todo <= deps.Keys && Indexed(deps, r, todo)
        decreases todo
      {
        var src :| src in todo;
        ghost var was := r;
        r := AppendReferrer(r, src, deps[src]);
        IndexedStep(deps, was, r, todo, src);
        todo := todo - {src};
      }
    }

    /** The first loop: every node gets an entry in both directions. */
    method AddMissingNodes() returns (r: Adjacency)
      modifies this`deps
      ensures Closed(deps) && Completes(old(deps), deps)
      ensures r.Keys == deps.Keys && forall x :: x in r ==> r[x] == []
    {
      var nodes := deps.Keys + set x, y | x in deps && y in deps[x] :: y;
      r := map[];
      var todo := nodes;
      while todo != {}
        invariant todo <= nodes && r.Keys == nodes - todo
        invariant deps.Keys == old(deps).Keys + (nodes - todo)
        invariant forall x :: x in r ==> r[x] == []
        invariant forall x :: x in deps ==> deps[x] == if x in old(deps) then old(deps)[x] else []
        decreases todo
      {
        var node :| node in todo;
        r := r[node := []];
        if node !in deps {
          deps := deps[node := []];
        }
        todo := todo - {node};
      }
      forall y | y in nodes && y !in old(deps)
        ensures exists a :: Edge(old(deps), a, y)
      {
        var x :| x in old(deps) && y in old(deps)[x];
        assert Edge(old(deps), x, y);
      }
    }

    /** Adds the missing nodes to the dependencies and builds the reference index. */
    method ComputeRefs()
      modifies this
      ensures Valid()
      ensures Completes(old(deps), deps)
    {
      var r := AddMissingNodes();
      refs := BuildIndex(deps, r);
    }

    static method AddImages(dsts0: set<Label>, xsrc: Label, srcDeps: seq<Label>, transform: Label -> Option<Label>)
      returns (dsts: set<Label>)
      ensures forall y :: y in dsts <==> y in dsts0 || (y != xsrc && Image(transform, srcDeps, y))
    {
      dsts := dsts0;
      for j := 0 to |srcDeps|
        invariant forall y :: y in dsts <==> y in dsts0 || (y != xsrc && Image(transform, srcDeps[..j], y))
      {
        assert srcDeps[..j + 1] == srcDeps[..j] + [srcDeps[j]];
        var xdst := transform(srcDeps[j]);
        if xdst.Some? && xdst.value != xsrc {
          dsts := dsts + {xdst.value};
        }
      }
      assert srcDeps[..|srcDeps|] == srcDeps;
    }

    method MergeImages(transform: Label -> Option<Label>) returns (merged: map<Label, set<Label>>)
      ensures Merged(deps, transform, deps.Keys, merged)
    {
      merged := map[];
      var todo := deps.Keys;
      ghost var done: set<Label> := {};
      while todo != {}
        invariant todo <= deps.Keys && done == deps.Keys - todo
        invariant Merged(deps, transform, done, merged)
        decreases todo
      {
        var src :| src in todo;
        var xsrc := transform(src);
        if xsrc.Some? {
          var dsts := if xsrc.value in merged then merged[xsrc.value] else {};
          dsts := AddImages(dsts, xsrc.value, deps[src], transform);
          MergedStep(deps, transform, done, merged, src, dsts);
          merged := merged[xsrc.value := dsts];
        } else {
          MergedSkip(deps, transform, done, merged, src);
        }
        todo, done := todo - {src}, done + {src};
      }
    }

    static method EnumerateAll(m: map<Label, set<Label>>) returns (g: Adjacency)
      ensures g.Keys == m.Keys
      ensures forall x, y :: x in g ==> Times(g[x], y) == if y in m[x] then 1 else 0
    {
      g := map[];
      var todo := m.Keys;
      while todo != {}
        invariant todo <= m.Keys && g.Keys == m.Keys - todo
        invariant forall x, y :: x in g ==> Times(g[x], y) == if y in m[x] then 1 else 0
        decreases todo
      {
        var x :| x in todo;
        var ys := Enumerate(m[x]);
        g := g[x := ys];
        todo := todo - {x};
      }
    }

    /** Renames and merges the nodes. */
    method CollapseNodes(transform: Label -> Option<Label>)
      requires Valid()
      modifies this
      ensures Valid() && NoRepeats(deps) && NoRepeats(refs)
      ensures Collapsed(old(deps), transform, deps)
    {
      ghost var g := deps;
      var merged := MergeImages(transform);
      deps := EnumerateAll(merged);
      ghost var h := deps;
      EnumeratedEdges(merged, h);
      ComputeRefs();
      CollapsedEdges(g, transform, merged, h, deps);
      TransposeKeepsNoRepeats(deps, refs);
    }

    /** unblocked_by: the dependencies that would lose their only referrer. */
    method UnblockedBy(lib: Label) returns (unblocked: seq<Label>)
      requires Valid()
      ensures forall d :: d in unblocked <==>
                Edge(deps, lib, d) && Times(deps[lib], d) == 1 && forall x :: Edge(deps, x, d) ==> x == lib
      ensures NoRepeats(deps) ==>
                forall d :: d in unblocked <==> Edge(deps, lib, d) && forall x :: Edge(deps, x, d) ==> x == lib
    {
      unblocked := [];
      if lib !in deps {
        return;
      }
      var all := deps[lib];
      for i := 0 to |all|
        invariant forall d :: d in unblocked <==> d in all[..i] && refs[d] == [lib]
      {
        assert all[..i + 1] == all[..i] + [all[i]];
        if refs[all[i]] == [lib] {
          unblocked := unblocked + [all[i]];
        }
      }
      forall d | d in all
        ensures refs[d] == [lib] <==> Times(deps[lib], d) == 1 && forall x :: Edge(deps, x, d) ==> x == lib
      {
        SoleReferrer(deps, refs, lib, d);
      }
    }

    /** All referrers of a batch that were not shown before. */
    method NextBatch(batch: set<Label>, shown: set<Label>) returns (next: set<Label>)
      requires Valid() && batch <= deps.Keys
      ensures forall x :: x in next <==> x !in shown && exists y :: y in batch && Edge(deps, x, y)
    {
      next := {};
      var todo := batch;
      while todo != {}
        invariant todo <= batch
        invariant forall x :: x in next <==> x !in shown && exists y :: y in batch && y !in todo && Edge(deps, x, y)
        decreases todo
      {
        var ref :| ref in todo;
        ReferrersAre(deps, refs, ref);
        var more := set x | x in refs[ref] && x !in shown;
        next := next + more;
        todo := todo - {ref};
      }
    }

    /** The loop that prints one batch per round until nothing new refers to the last one. */
    method ListBatches(lib: Label) returns (batches: seq<set<Label>>)
      requires Valid() && lib in refs
      ensures AreLayers(deps, lib, batches)
      ensures forall x, k :: Chain(deps, x, lib, k) ==> exists i :: 0 <= i < |batches| && x in batches[i]
    {
      ReferrersAre(deps, refs, lib);
      var shown: set<Label> := {};
      var batch := set x | x in refs[lib];
      batches := [];
      FirstLayer(deps, lib, batch);
      while batch != {}
        invariant Round(deps, lib, batches, shown, batch)
        invariant shown <= deps.Keys
        decreases deps.Keys - shown
      {
        BallGrows(deps, lib, |batches|, shown, batch);
        var next := NextBatch(batch, shown + batch);
        RoundKept(deps, lib, batches, shown, batch, next);
        batches := batches + [batch];
        shown := shown + batch;
        batch := next;
      }
      LayersAreAll(deps, lib, batches);
    }

    /** The report on one library: batches of referrers, nearest first. */
    method Inspect(lib: Label) returns (v: Verdict)
      requires Valid()
      ensures v.NotFound? <==> lib !in deps
      ensures v.Movable? <==> lib in deps && forall x :: !Edge(deps, x, lib)
      ensures v.Blocked? ==> AreLayers(deps, lib, v.batches)
      ensures v.Blocked? ==> forall x, k :: Chain(deps, x, lib, k) ==>
                exists i :: 0 <= i < |v.batches| && x in v.batches[i]
    {
      if lib !in refs {
        return NotFound;
      }
      var direct := refs[lib];
      ReferrersAre(deps, refs, lib);
      if |direct| == 0 {
        return Movable;
      }
      assert Edge(deps, direct[0], lib);
      var batches := ListBatches(lib);
      v := Blocked(batches);
    }
  }
}
