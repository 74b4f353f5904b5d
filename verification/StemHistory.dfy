/** The incremental cache that maps revisions of one repository to integration commits of another. */
module StemHistory {
  import opened Machine

  type Commit = string

  /** A revision of the main repository; git log on a linear branch reads these as positions. */
  type Rev = nat

  type Pair = (Commit, Rev)

  /** A dictionary in insertion order: the revisions that each integration commit brought in. */
  type Ranges = seq<(Commit, seq<Rev>)>

  predicate DistinctCommits(s: seq<Commit>) {
    forall i, j :: 0 <= i < j < |s| ==> s[i] != s[j]
  }

  /** What git tells about the two repositories. */
  datatype Git = Git(touches: Commit -> bool, pin: Commit -> Rev, log: (Rev, Rev) -> seq<Rev>) {

    /** The commits of a history that change the manifest. */
    function Stem(history: seq<Commit>): (s: seq<Commit>)
      ensures forall c :: c in s ==> c in history
    {
      if history == [] then []
      else (if touches(history[0]) then [history[0]] else []) + Stem(history[1..])
    }

    function Pairs(commits: seq<Commit>): (p: seq<Pair>)
      ensures |p| == |commits| && forall i :: 0 <= i < |p| ==> p[i] == (commits[i], pin(commits[i]))
    {
      seq(|commits|, i requires 0 <= i < |commits| => (commits[i], pin(commits[i])))
    }

    /** The dictionary entry of the pair at `i`: what lies between it and the next older pair. */
    function Entry(p: seq<Pair>, i: nat): (e: (Commit, seq<Rev>))
      requires i + 1 < |p|
    {
      (p[i].0, log(p[i + 1].1, p[i].1))
    }

    /** The entries of the first `n` pairs, newest first. */
    function Entries(p: seq<Pair>, n: nat): (r: Ranges)
      requires n < |p| || n == 0
      ensures |r| == n
    {
      seq(n, i requires 0 <= i < n => Entry(p, i))
    }

    /** The dictionary of a cache built from nothing. */
    function Scratch(p: seq<Pair>): (r: Ranges) {
      Entries(p, if p == [] then 0 else |p| - 1)
    }

    lemma {:induction false} StemAppend(a: seq<Commit>, b: seq<Commit>)
      ensures Stem(a + b) == Stem(a) + Stem(b)
      decreases |a|
    {
      if a == [] {
        assert a + b == b;
      } else {
        assert (a + b)[1..] == a[1..] + b;
        StemAppend(a[1..], b);
        var first := if touches(a[0]) then [a[0]] else [];
        assert first + (Stem(a[1..]) + Stem(b)) == first + Stem(a[1..]) + Stem(b);
      }
    }

    /** Exactly the commits of the history that touch the manifest. */
    lemma {:induction false} StemExactly(history: seq<Commit>, c: Commit)
      ensures c in Stem(history) <==> c in history && touches(c)
      decreases |history|
    {
      if history != [] {
        StemExactly(history[1..], c);
        assert c in history <==> c == history[0] || c in history[1..];
      }
    }

    lemma {:induction false} StemDistinct(history: seq<Commit>)
      requires DistinctCommits(history)
      ensures DistinctCommits(Stem(history))
      decreases |history|
    {
      if history != [] {
        StemDistinct(history[1..]);
        var rest := Stem(history[1..]);
        forall i | 0 <= i < |rest|
          ensures rest[i] != history[0]
        {
          assert rest[i] in rest;
          var k :| 0 <= k < |history[1..]| && history[1..][k] == rest[i];
          assert history[k + 1] == rest[i];
        }
      }
    }

    /** The keys of a dictionary built from some pairs are commits of those pairs. */
    lemma KeysAreCommits(d: Ranges, commits: seq<Commit>)
      requires multiset(d) == multiset(Scratch(Pairs(commits)))
      ensures forall e :: e in d ==> e.0 in commits
    {
      forall e | e in d
        ensures e.0 in commits
      {
        assert e in multiset(d);
        assert e in Scratch(Pairs(commits));
      }
    }

    lemma PairsAppend(a: seq<Commit>, b: seq<Commit>)
      ensures Pairs(a + b) == Pairs(a) + Pairs(b)
    {
    }

    /** From scratch: the entries of the new pairs, then those of the old ones. */
    lemma ScratchAppend(recent: seq<Pair>, earlier: seq<Pair>)
      ensures var n := if earlier != [] then |recent| else if recent == [] then 0 else |recent| - 1;
              Scratch(recent + earlier) == Entries(recent + earlier, n) + Scratch(earlier)
    {
      var p := recent + earlier;
      var n := if earlier != [] then |recent| else if recent == [] then 0 else |recent| - 1;
      forall i | n <= i < |Scratch(p)|
        ensures Scratch(p)[i] == Scratch(earlier)[i - n]
      {
      }
    }
  }

  /** The commits of `history` (newest first) that came after `head`. */
  function Since(history: seq<Commit>, head: Option<Commit>): (s: seq<Commit>) {
    if history == [] || head == Some(history[0]) then [] else [history[0]] + Since(history[1..], head)
  }

  lemma {:induction false} SinceHead(news: seq<Commit>, seen: seq<Commit>)
    requires seen != [] && seen[0] !in news
    ensures Since(news + seen, Some(seen[0])) == news
    decreases |news|
  {
    if news == [] {
      assert news + seen == seen;
    } else {
      assert (news + seen)[1..] == news[1..] + seen;
      SinceHead(news[1..], seen);
    }
  }

  lemma {:induction false} SinceNone(history: seq<Commit>)
    ensures Since(history, None) == history
    decreases |history|
  {
    if history != [] {
      SinceNone(history[1..]);
    }
  }

  /** reverse_commits: later entries overwrite earlier ones. */
  function Reversed(d: Ranges): (m: map<Rev, Commit>)
    decreases |d|
  {
    if d == [] then map[]
    else
      var (c, revs) := d[|d| - 1];
      Reversed(d[..|d| - 1]) + map r | r in revs :: c
  }

  method ReverseCommits(d: Ranges) returns (m: map<Rev, Commit>)
    ensures m == Reversed(d)
  {
    m := map[];
    for i := 0 to |d|
      invariant m == Reversed(d[..i])
    {
      ghost var before := m;
      var (c, revs) := d[i];
      for j := 0 to |revs|
        invariant m.Keys == before.Keys + set x | x in revs[..j]
        invariant forall r :: r in m ==> m[r] == if r in revs[..j] then c else before[r]
      {
        assert revs[..j + 1] == revs[..j] + [revs[j]];
        m := m[revs[j] := c];
      }
      assert revs[..|revs|] == revs;
      assert d[..i + 1][..i] == d[..i];
    }
    assert d[..|d|] == d;
  }

  /** Dictionary assignment: an existing key keeps its place. */
  function Put(d: Ranges, c: Commit, revs: seq<Rev>): (r: Ranges) {
    if d == [] then [(c, revs)]
    else if d[0].0 == c then [(c, revs)] + d[1..]
    else [d[0]] + Put(d[1..], c, revs)
  }

  /** An existing key gets its new value in its place. */
  lemma {:induction false} PutOld(d: Ranges, c: Commit, revs: seq<Rev>, i: nat)
    requires i < |d| && d[i].0 == c && forall j :: 0 <= j < i ==> d[j].0 != c
    ensures Put(d, c, revs) == d[i := (c, revs)]
    decreases i
  {
    if i > 0 {
      PutOld(d[1..], c, revs, i - 1);
    }
  }

  lemma {:induction false} PutNew(d: Ranges, c: Commit, revs: seq<Rev>)
    requires forall e :: e in d ==> e.0 != c
    ensures Put(d, c, revs) == d + [(c, revs)]
    decreases |d|
  {
    if d != [] {
      assert d[0] in d;
      PutNew(d[1..], c, revs);
    }
  }

  /** The number of ranges to log when `n` of `all` pairs are new. */
  function LastNum(n: nat, all: nat): (k: nat)
    ensures k < all || k == 0
  {
    Min(n, if all == 0 then 0 else all - 1)
  }

  lemma NoneShared(a: seq<Commit>, b: seq<Commit>)
    requires DistinctCommits(a + b)
    ensures forall c :: c in a ==> c !in b
  {
    forall c | c in a
      ensures c !in b
    {
      var i :| 0 <= i < |a| && a[i] == c;
      assert (a + b)[i] == c;
      assert forall j :: 0 <= j < |b| ==> (a + b)[|a| + j] == b[j];
    }
  }

  /** The new manifest commits come before the old ones and repeat none of them. */
  lemma StemGrows(git: Git, news: seq<Commit>, seen: seq<Commit>)
    requires DistinctCommits(news + seen)
    ensures git.Stem(news + seen) == git.Stem(news) + git.Stem(seen)
    ensures DistinctCommits(git.Stem(news + seen))
    ensures forall c :: c in git.Stem(news) ==> c !in git.Stem(seen)
  {
    git.StemAppend(news, seen);
    git.StemDistinct(news + seen);
    NoneShared(git.Stem(news), git.Stem(seen));
  }

  lemma ContentsGrow(git: Git, recent: seq<Pair>, earlier: seq<Pair>, d: Ranges)
    requires multiset(d) == multiset(git.Scratch(earlier))
    ensures var p := recent + earlier;
            var added := git.Entries(p, LastNum(|recent|, |p|));
            git.Scratch(p) == added + git.Scratch(earlier) && multiset(d + added) == multiset(git.Scratch(p))
  {
    git.ScratchAppend(recent, earlier);
  }

  lemma NewsAre(history: seq<Commit>, news: seq<Commit>, seen: seq<Commit>, head: Option<Commit>)
    requires DistinctCommits(history) && history == news + seen
    requires head == if seen == [] then None else Some(seen[0])
    ensures Since(history, head) == news
  {
    if seen == [] {
      SinceNone(history);
    } else {
      NoneShared(news, seen);
      assert seen[0] in seen;
      SinceHead(news, seen);
    }
  }

  predicate DistinctKeys(d: Ranges) {
    forall i, j :: 0 <= i < j < |d| ==> d[i].0 != d[j].0
  }

  /** Further entries with new keys. */
  lemma DistinctMore(d: Ranges, more: Ranges)
    requires DistinctKeys(d) && DistinctKeys(more) && forall x, y :: x in d && y in more ==> x.0 != y.0
    ensures DistinctKeys(d + more)
  {
    var all := d + more;
    forall i, j | 0 <= i < j < |all|
      ensures all[i].0 != all[j].0
    {
      if i < |d| <= j {
        assert all[i] in d && all[j] in more;
      }
    }
  }

  /** The entries of the first commits go with any entries of others. */
  lemma NewKeys(git: Git, commits: seq<Commit>, n: nat, d: Ranges)
    requires DistinctCommits(commits) && (n < |commits| || n == 0)
    requires DistinctKeys(d) && forall e :: e in d ==> e.0 !in commits[..n]
    ensures DistinctKeys(d + git.Entries(git.Pairs(commits), n))
  {
    var added := git.Entries(git.Pairs(commits), n);
    forall x, y | x in d && y in added
      ensures x.0 != y.0
    {
      var i :| 0 <= i < |added| && added[i] == y;
      assert commits[..n][i] == y.0;
    }
    DistinctMore(d, added);
  }

  /** What the news bring: their commits come first, are not in the cache, and complete it. */
  lemma NewsAbsorbed(git: Git, history: seq<Commit>, seen: seq<Commit>, head: Option<Commit>, d: Ranges)
    requires history != [] && DistinctCommits(history)
    requires |seen| <= |history| && history[|history| - |seen|..] == seen
    requires head == (if seen == [] then None else Some(seen[0]))
    requires multiset(d) == multiset(git.Scratch(git.Pairs(git.Stem(seen)))) && DistinctKeys(d)
    ensures var news := git.Stem(Since(history, head));
            var all := git.Pairs(git.Stem(history));
            && git.Stem(history) == news + git.Stem(seen)
            && DistinctCommits(git.Stem(history))
            && all == git.Pairs(news) + git.Pairs(git.Stem(seen))
            && |git.Pairs(news)| == |news|
            && (forall e :: e in d ==> e.0 !in news)
            && var added := git.Entries(all, LastNum(|news|, |all|));
            && multiset(d + added) == multiset(git.Scratch(all))
            && git.Scratch(all) == added + git.Scratch(git.Pairs(git.Stem(seen)))
            && DistinctKeys(d + added)
  {
    var newest := history[..|history| - |seen|];
    assert history == newest + seen;
    NewsAre(history, newest, seen, head);
    StemGrows(git, newest, seen);
    git.KeysAreCommits(d, git.Stem(seen));
    git.PairsAppend(git.Stem(newest), git.Stem(seen));
    ContentsGrow(git, git.Pairs(git.Stem(newest)), git.Pairs(git.Stem(seen)), d);
    NewKeys(git, git.Stem(history), LastNum(|git.Stem(newest)|, |git.Stem(history)|), d);
  }

  lemma HeadMeansSame(history: seq<Commit>, seen: seq<Commit>)
    requires history != [] && seen != [] && DistinctCommits(history) && history[0] == seen[0]
    requires |seen| <= |history| && history[|history| - |seen|..] == seen
    ensures history == seen
  {
    assert history[|history| - |seen|] == seen[0];
  }

  // ---------------------------------------------------------------------------------------------
  // The reversed map
  // ---------------------------------------------------------------------------------------------

  ghost predicate Brings(d: Ranges, r: Rev) {
    exists e :: e in d && r in e.1
  }

  lemma OverrideTwice(a: map<Rev, Commit>, b: map<Rev, Commit>, c: map<Rev, Commit>)
    ensures (a + b) + c == a + (b + c)
  {
  }

  lemma {:induction false} ReversedAppend(a: Ranges, b: Ranges)
    ensures Reversed(a + b) == Reversed(a) + Reversed(b)
    decreases |b|
  {
    if b == [] {
      assert a + b == a;
    } else {
      var init := b[..|b| - 1];
      var (c, revs) := b[|b| - 1];
      ReversedAppend(a, init);
      assert (a + b)[..|a + b| - 1] == a + init;
      OverrideTwice(Reversed(a), Reversed(init), map r | r in revs :: c);
    }
  }

  /** A revision is mapped exactly when some entry brings it, and then to the key of such an entry. */
  lemma {:induction false} ReversedKeys(d: Ranges, r: Rev)
    ensures r in Reversed(d) <==> Brings(d, r)
    ensures r in Reversed(d) ==> exists e :: e in d && r in e.1 && e.0 == Reversed(d)[r]
    decreases |d|
  {
    if d != [] {
      var init, last := d[..|d| - 1], d[|d| - 1];
      ReversedKeys(init, r);
      assert last in d;
      assert forall e :: e in d <==> e in init || e == last;
    }
  }

  lemma KeysDiffer(a: Ranges, b: Ranges, x: (Commit, seq<Rev>), y: (Commit, seq<Rev>))
    requires DistinctKeys(a + b) && x in a && y in b
    ensures x.0 != y.0
  {
    var i :| 0 <= i < |a| && a[i] == x;
    var j :| 0 <= j < |b| && b[j] == y;
    assert (a + b)[i] == x && (a + b)[|a| + j] == y;
  }

  // ---------------------------------------------------------------------------------------------
  // Updates in blocks
  // ---------------------------------------------------------------------------------------------

  /** The dictionary of a cache that was filled block by block, oldest block first. */
  ghost function Flat(blocks: seq<Ranges>): (d: Ranges) {
    if blocks == [] then [] else Flat(blocks[..|blocks| - 1]) + blocks[|blocks| - 1]
  }

  /** The same blocks as a build from scratch puts them, newest block first. */
  ghost function Turned(blocks: seq<Ranges>): (d: Ranges) {
    if blocks == [] then [] else blocks[|blocks| - 1] + Turned(blocks[..|blocks| - 1])
  }

  lemma {:induction false} InFlat(blocks: seq<Ranges>, i: nat, x: (Commit, seq<Rev>))
    requires i < |blocks| && x in blocks[i]
    ensures x in Flat(blocks)
    decreases |blocks|
  {
    if i < |blocks| - 1 {
      InFlat(blocks[..|blocks| - 1], i, x);
    }
  }

  /** No two blocks share a key. */
  lemma {:induction false} BlockKeysDiffer(
    blocks: seq<Ranges>, i: nat, j: nat, x: (Commit, seq<Rev>), y: (Commit, seq<Rev>))
    requires DistinctKeys(Flat(blocks)) && i < j < |blocks| && x in blocks[i] && y in blocks[j]
    ensures x.0 != y.0
    decreases |blocks|
  {
    var init, last := blocks[..|blocks| - 1], blocks[|blocks| - 1];
    if j == |init| {
      InFlat(init, i, x);
      KeysDiffer(Flat(init), last, x, y);
    } else {
      assert forall k :: 0 <= k < |Flat(init)| ==> Flat(init)[k] == Flat(blocks)[k];
      BlockKeysDiffer(init, i, j, x, y);
    }
  }

  /** No revision is brought by two of the blocks. */
  ghost predicate Once(blocks: seq<Ranges>) {
    forall i, j, r :: 0 <= i < j < |blocks| ==> !(Brings(blocks[i], r) && Brings(blocks[j], r))
  }

  /** What the last block adds to the reversed maps. */
  lemma ReversedLast(blocks: seq<Ranges>)
    requires blocks != []
    ensures var init, last := blocks[..|blocks| - 1], blocks[|blocks| - 1];
            && Reversed(Flat(blocks)) == Reversed(Flat(init)) + Reversed(last)
            && Reversed(Turned(blocks)) == Reversed(last) + Reversed(Turned(init))
  {
    var init, last := blocks[..|blocks| - 1], blocks[|blocks| - 1];
    ReversedAppend(Flat(init), last);
    ReversedAppend(last, Turned(init));
  }

  /** In the cache the last block decides about the revisions it brings. */
  lemma LastDecides(blocks: seq<Ranges>, r: Rev)
    requires blocks != []
    ensures var init, last, all := blocks[..|blocks| - 1], blocks[|blocks| - 1], Reversed(Flat(blocks));
            if Brings(last, r) then
              r in Reversed(last) && r in all && all[r] == Reversed(last)[r]
            else
              && (r in all <==> r in Reversed(Flat(init)))
              && (r in all ==> all[r] == Reversed(Flat(init))[r])
  {
    ReversedLast(blocks);
    ReversedKeys(blocks[|blocks| - 1], r);
  }

  /** The block that decides where a revision goes: the last that brings it, in the order of the cache. */
  lemma {:induction false} LastWins(blocks: seq<Ranges>, r: Rev) returns (i: int)
    ensures -1 <= i < |blocks|
    ensures forall j :: i < j < |blocks| ==> !Brings(blocks[j], r)
    ensures i == -1 <==> r !in Reversed(Flat(blocks))
    ensures i >= 0 ==>
              Brings(blocks[i], r) && r in Reversed(blocks[i]) && Reversed(Flat(blocks))[r] == Reversed(blocks[i])[r]
    decreases |blocks|
  {
    i := -1;
    if blocks != [] {
      var init, last := blocks[..|blocks| - 1], blocks[|blocks| - 1];
      LastDecides(blocks, r);
      if Brings(last, r) {
        i := |init|;
      } else {
        i := LastWins(init, r);
        assert forall j :: 0 <= j < |init| ==> init[j] == blocks[j];
      }
    }
  }

  /** From scratch, it is the first. */
  lemma {:induction false} FirstWins(blocks: seq<Ranges>, r: Rev) returns (i: nat)
    ensures i <= |blocks|
    ensures forall j :: 0 <= j < i ==> !Brings(blocks[j], r)
    ensures i == |blocks| <==> r !in Reversed(Turned(blocks))
    ensures i < |blocks| ==>
              Brings(blocks[i], r) && r in Reversed(blocks[i]) && Reversed(Turned(blocks))[r] == Reversed(blocks[i])[r]
    decreases |blocks|
  {
    i := 0;
    if blocks != [] {
      var init, last := blocks[..|blocks| - 1], blocks[|blocks| - 1];
      ReversedLast(blocks);
      ReversedKeys(last, r);
      i := FirstWins(init, r);
      assert forall j :: 0 <= j < |init| ==> init[j] == blocks[j];
      if i == |init| && !Brings(last, r) {
        i := |blocks|;
      }
    }
  }

  /** A revision in two blocks goes to one commit in the cache and to another from scratch. */
  lemma TwiceDiffers(blocks: seq<Ranges>, i: nat, j: nat, r: Rev)
    requires DistinctKeys(Flat(blocks)) && i < j < |blocks| && Brings(blocks[i], r) && Brings(blocks[j], r)
    ensures Reversed(Flat(blocks)) != Reversed(Turned(blocks))
  {
    var p := LastWins(blocks, r);
    var q := FirstWins(blocks, r);
    ReversedKeys(blocks[p], r);
    ReversedKeys(blocks[q], r);
    var y :| y in blocks[p] && r in y.1 && y.0 == Reversed(blocks[p])[r];
    var x :| x in blocks[q] && r in x.1 && x.0 == Reversed(blocks[q])[r];
    BlockKeysDiffer(blocks, q, p, x, y);
  }

  /** A revision in one block goes to the same commit both ways. */
  lemma OnceSame(blocks: seq<Ranges>, r: Rev)
    requires Once(blocks)
    ensures var a, b := Reversed(Flat(blocks)), Reversed(Turned(blocks));
            (r in a <==> r in b) && (r in a && r in b ==> a[r] == b[r])
  {
    var p := LastWins(blocks, r);
    var q := FirstWins(blocks, r);
  }

  /**
   * After any number of updates: the map reversed from the cache is the one reversed from a build from
   * scratch if and only if no revision was brought by two different updates.
   */
  lemma BlocksSameExactly(blocks: seq<Ranges>)
    requires DistinctKeys(Flat(blocks))
    ensures Reversed(Flat(blocks)) == Reversed(Turned(blocks)) <==> Once(blocks)
  {
    var a, b := Reversed(Flat(blocks)), Reversed(Turned(blocks));
    if Once(blocks) {
      forall r: Rev
        ensures (r in a <==> r in b) && (r in a && r in b ==> a[r] == b[r])
      {
        OnceSame(blocks, r);
      }
      assert a.Keys == b.Keys;
    } else {
      var i, j, r :| 0 <= i < j < |blocks| && Brings(blocks[i], r) && Brings(blocks[j], r);
      TwiceDiffers(blocks, i, j, r);
    }
  }

  /** `cached` was filled with the blocks, and `scratch` would be by a build from nothing. */
  ghost predicate InBlocks(cached: Ranges, scratch: Ranges, blocks: seq<Ranges>) {
    cached == Flat(blocks) && scratch == Turned(blocks)
  }

  lemma NextBlock(cached: Ranges, scratch: Ranges, blocks: seq<Ranges>, b: Ranges)
    requires InBlocks(cached, scratch, blocks)
    ensures InBlocks(cached + b, b + scratch, blocks + [b])
  {
    assert (blocks + [b])[..|blocks|] == blocks;
  }

  /** The cache holds the entries of a build from scratch. */
  lemma {:induction false} SameContents(cached: Ranges, scratch: Ranges, blocks: seq<Ranges>)
    requires InBlocks(cached, scratch, blocks)
    ensures multiset(cached) == multiset(scratch)
    decreases |blocks|
  {
    if blocks != [] {
      var init := blocks[..|blocks| - 1];
      SameContents(Flat(init), Turned(init), init);
    }
  }

  lemma CachedSameExactly(cached: Ranges, scratch: Ranges, blocks: seq<Ranges>)
    requires InBlocks(cached, scratch, blocks) && DistinctKeys(cached)
    ensures multiset(cached) == multiset(scratch)
    ensures Reversed(cached) == Reversed(scratch) <==> Once(blocks)
  {
    SameContents(cached, scratch, blocks);
    BlocksSameExactly(blocks);
  }

  class StemCache {
    const git: Git
    var commits: seq<Commit>
    var head: Option<Commit>
    var pairs: seq<Pair>
    var ranges: Ranges
    /** The history at the last update. */
    ghost var seen: seq<Commit>
    /** The entries that each update so far has added. */
    ghost var blocks: seq<Ranges>

    /** The cache is what a run from scratch on the history it has seen would build. */
    ghost predicate Valid()
      reads this
    {
      && DistinctCommits(seen)
      && head == (if seen == [] then None else Some(seen[0]))
      && commits == git.Stem(seen)
      && pairs == git.Pairs(commits)
      && DistinctKeys(ranges)
      && InBlocks(ranges, git.Scratch(pairs), blocks)
    }

    constructor (git: Git)
      ensures Valid() && seen == [] && blocks == [] && this.git == git
    {
      this.git, commits, head, pairs, ranges, seen, blocks := git, [], None, [], [], [], [];
    }

    /** The loop that logs from each new pin to the next older one. */
    method AddRanges(count: nat)
      requires count <= |pairs|
      requires DistinctCommits(commits) && pairs == git.Pairs(commits)
      requires forall e :: e in ranges ==> e.0 !in commits[..count]
      modifies this`ranges
      ensures ranges == old(ranges) + git.Entries(pairs, LastNum(count, |pairs|))
    {
      var lastNum := LastNum(count, |pairs|);
      for i := 0 to lastNum
        invariant ranges == old(ranges) + git.Entries(pairs, i)
      {
        var cur, older := pairs[i], pairs[i + 1];
        assert commits[..count][i] == cur.0;
        PutNew(ranges, cur.0, git.log(older.1, cur.1));
        ranges := Put(ranges, cur.0, git.log(older.1, cur.1));
        assert git.Entries(pairs, i + 1) == git.Entries(pairs, i) + [git.Entry(pairs, i)];
      }
    }

    /** The part of update_stem_history that runs when the cache is out of date. */
    method TakeNews(history: seq<Commit>)
      requires Valid() && history != [] && DistinctCommits(history)
      requires |seen| <= |history| && history[|history| - |seen|..] == seen
      modifies this`commits, this`head, this`pairs, this`ranges
      ensures head == Some(history[0]) && commits == git.Stem(history) && pairs == git.Pairs(commits)
      ensures DistinctKeys(ranges)
      ensures |old(pairs)| <= |pairs|
      ensures var added := git.Entries(pairs, LastNum(|pairs| - |old(pairs)|, |pairs|));
              ranges == old(ranges) + added && git.Scratch(pairs) == added + git.Scratch(old(pairs))
    {
      var newCommits := git.Stem(Since(history, head));
      SameContents(ranges, git.Scratch(pairs), blocks);
      NewsAbsorbed(git, history, seen, head, ranges);
      commits := newCommits + commits;
      head := Some(history[0]);
      pairs := git.Pairs(newCommits) + pairs;
      assert commits[..|newCommits|] == newCommits;
      AddRanges(|newCommits|);
    }

    /** The same, with the bookkeeping of blocks. */
    method AbsorbNews(history: seq<Commit>)
      requires Valid() && history != [] && DistinctCommits(history)
      requires |seen| <= |history| && history[|history| - |seen|..] == seen
      modifies this
      ensures Valid() && seen == history
      ensures |old(pairs)| <= |pairs|
      ensures var added := git.Entries(pairs, LastNum(|pairs| - |old(pairs)|, |pairs|));
              ranges == old(ranges) + added && blocks == old(blocks) + [added]
    {
      TakeNews(history);
      seen := history;
      ghost var added := git.Entries(pairs, LastNum(|pairs| - |old(pairs)|, |pairs|));
      NextBlock(old(ranges), git.Scratch(old(pairs)), blocks, added);
      blocks := blocks + [added];
    }

    /** An update without news. */
    ghost method NoNews()
      requires Valid()
      modifies this`blocks
      ensures Valid()
      ensures git.Entries(pairs, LastNum(0, |pairs|)) == [] && blocks == old(blocks) + [[]]
    {
      NextBlock(ranges, git.Scratch(pairs), blocks, []);
      assert ranges + [] == ranges && [] + git.Scratch(pairs) == git.Scratch(pairs);
      blocks := blocks + [[]];
    }

    /**
     * update_stem_history, when the fetched history extends the one seen before. The map returned is the
     * one that a cache built from scratch would give exactly when no revision came with two updates.
     */
    method UpdateStemHistory(history: seq<Commit>) returns (f2i: map<Rev, Commit>)
      requires Valid() && history != [] && DistinctCommits(history)
      requires |seen| <= |history| && history[|history| - |seen|..] == seen
      modifies this
      ensures Valid() && seen == history
      ensures |old(pairs)| <= |pairs|
      ensures var added := git.Entries(pairs, LastNum(|pairs| - |old(pairs)|, |pairs|));
              ranges == old(ranges) + added && blocks == old(blocks) + [added]
      ensures multiset(ranges) == multiset(git.Scratch(pairs)) && f2i == Reversed(ranges)
      ensures f2i == Reversed(git.Scratch(pairs)) <==> Once(blocks)
    {
      if head == Some(history[0]) {
        HeadMeansSame(history, seen);
        NoNews();
        assert ranges == old(ranges) + [];
      } else {
        AbsorbNews(history);
      }
      f2i := ReverseCommits(ranges);
      CachedSameExactly(ranges, git.Scratch(pairs), blocks);
    }
  }

  /** The revisions after `older` up to `cur` on a linear branch, newest first. */
  function Between(older: Rev, cur: Rev): (s: seq<Rev>)
    ensures forall r :: r in s <==> older < r <= cur
  {
    if cur <= older then [] else [cur] + Between(older, cur - 1)
  }

  ghost predicate Linear(git: Git) {
    forall o, c :: git.log(o, c) == Between(o, c)
  }

  /** Pins never move backwards; pairs are listed newest first. */
  predicate Forward(p: seq<Pair>) {
    forall i, j :: 0 <= i < j < |p| ==> p[i].1 >= p[j].1
  }

  lemma TwoBlocks(a: Ranges, b: Ranges)
    ensures Flat([a, b]) == a + b && Turned([a, b]) == b + a
  {
    NextBlock([], [], [], a);
    assert [] + a == a && a + [] == a && [] + [a] == [a];
    NextBlock(a, a, [a], b);
    assert [a] + [b] == [a, b];
  }

  /**
   * Pins that move back: with pins 0, 2, 0, 2 the revisions 1 and 2 are brought in twice. A cache
   * filled after the second commit maps them to the last one, a cache built from scratch to the
   * second.
   */
  lemma BackwardPinsDiffer(git: Git)
    requires Linear(git)
    ensures var earlier := [("b", 2), ("a", 0)];
            var recent := [("d", 2), ("c", 0)];
            var all := recent + earlier;
            && git.Scratch(all) == git.Entries(all, 2) + git.Scratch(earlier)
            && Reversed(git.Scratch(earlier) + git.Entries(all, 2)) != Reversed(git.Scratch(all))
  {
    var earlier: seq<Pair>, recent: seq<Pair> := [("b", 2), ("a", 0)], [("d", 2), ("c", 0)];
    var all := recent + earlier;
    git.ScratchAppend(recent, earlier);
    var cached, added := git.Scratch(earlier), git.Entries(all, 2);
    assert cached == [("b", Between(0, 2))];
    assert added == [("d", Between(0, 2)), ("c", Between(2, 0))];
    assert 1 in Between(0, 2);
    assert Brings(cached, 1) by {
      assert cached[0] in cached;
    }
    assert Brings(added, 1) by {
      assert added[0] in added;
    }
    TwoBlocks(cached, added);
    TwiceDiffers([cached, added], 0, 1, 1);
  }

  /** The entries of a dictionary with the contents of a scratch build are its pairs' entries. */
  lemma EntriesAre(git: Git, p: seq<Pair>, d: Ranges, e: (Commit, seq<Rev>))
    requires multiset(d) == multiset(git.Scratch(p))
    ensures e in d <==> exists i :: 0 <= i < |p| - 1 && e == git.Entry(p, i)
  {
    assert e in d <==> e in multiset(d);
    assert e in multiset(d) <==> e in git.Scratch(p);
    if i :| 0 <= i < |p| - 1 && e == git.Entry(p, i) {
      assert git.Scratch(p)[i] == e;
    }
  }

  /** Some pair is the oldest that includes a revision. */
  lemma {:induction false} OldestPair(p: seq<Pair>, r: Rev, n: nat) returns (i: nat)
    requires n < |p| && p[n].1 < r <= p[0].1
    ensures i < n && p[i + 1].1 < r <= p[i].1
    decreases n
  {
    if r <= p[n - 1].1 {
      i := n - 1;
    } else {
      i := OldestPair(p, r, n - 1);
    }
  }

  /**
   * On a linear branch with pins that never move back, whatever the order in which the cache was
   * filled: exactly the revisions after the oldest pin and up to the newest are mapped, each to the
   * oldest integration commit whose pin includes it.
   */
  lemma MapsToOldestIncluding(git: Git, p: seq<Pair>, d: Ranges, r: Rev)
    requires Linear(git) && Forward(p) && multiset(d) == multiset(git.Scratch(p)) && p != []
    ensures r in Reversed(d) <==> p[|p| - 1].1 < r <= p[0].1
    ensures r in Reversed(d) ==>
              exists i :: 0 <= i < |p| && Reversed(d)[r] == p[i].0 && r <= p[i].1 && forall j :: i < j < |p| ==> p[j].1 < r
  {
    ReversedKeys(d, r);
    if p[|p| - 1].1 < r <= p[0].1 {
      var i := OldestPair(p, r, |p| - 1);
      EntriesAre(git, p, d, git.Entry(p, i));
      assert Brings(d, r);
    }
    if r in Reversed(d) {
      var e :| e in d && r in e.1 && e.0 == Reversed(d)[r];
      EntriesAre(git, p, d, e);
      var i :| 0 <= i < |p| - 1 && e == git.Entry(p, i);
      assert p[i + 1].1 < r <= p[i].1;
    }
  }

  /** With pins that never move back, the order in which the cache was filled does not matter. */
  lemma ForwardSame(git: Git, p: seq<Pair>, d: Ranges)
    requires Linear(git) && Forward(p) && multiset(d) == multiset(git.Scratch(p))
    ensures Reversed(d) == Reversed(git.Scratch(p))
  {
    var a, b := Reversed(d), Reversed(git.Scratch(p));
    if p == [] {
      assert |multiset(d)| == 0;
    } else {
      forall r: Rev
        ensures (r in a <==> r in b) && (r in a && r in b ==> a[r] == b[r])
      {
        MapsToOldestIncluding(git, p, d, r);
        MapsToOldestIncluding(git, p, git.Scratch(p), r);
      }
      assert a.Keys == b.Keys;
    }
  }
}
