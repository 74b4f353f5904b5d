/** The module tables of the symbolizer and the address lookup that starts a backtrace frame. */
module SymbolizerIndex {
  import opened Machine

  const WORD: nat := 0x1_0000_0000_0000_0000

  /** Module ids arrive as 64-bit values and become keys of type int. */
  function Key(id: U64): (k: int) {
    var low := id % 0x1_0000_0000;
    if low < 0x8000_0000 then low else low - 0x1_0000_0000
  }

  /** Ids that fit an int are their own keys. */
  lemma KeyKeeps(id: U64)
    requires id < 0x8000_0000
    ensures Key(id) == id
  {
  }

  /** Two ids share a key exactly when their lower 32 bits agree. */
  lemma KeysMeetExactly(a: U64, b: U64)
    ensures Key(a) == Key(b) <==> a % 0x1_0000_0000 == b % 0x1_0000_0000
  {
  }

  datatype Module = Module(name: string, buildId: string, base: U64)

  datatype AuxModuleInfo = AuxModuleInfo(size: U64, id: int)

  /** `modules` by key, and the ordered map from base address to size and key. */
  datatype Index = Index(modules: map<int, Module>, aux: map<U64, AuxModuleInfo>)

  datatype Command =
    | Reset
    | AddModule(id: U64, name: string, buildId: string)
    | MMap(address: U64, size: U64, id: U64, offset: U64)

  /** What MMap prints. */
  datatype Note = Silent | InvalidId | InconsistentBase | Loaded(id: U64, name: string, buildId: string, base: U64)

  const EMPTY := Index(map[], map[])

  const UNNAMED := Module("", "", 0)

  function Mapped(ix: Index, k: int, base: U64, size: U64): (r: Index)
    requires k in ix.modules
  {
    var m := ix.modules[k];
    if m.base == 0 then
      Index(ix.modules[k := m.(base := base)], ix.aux[base := AuxModuleInfo(size, k)])
    else if m.base != base then
      ix
    else
      var was := if base in ix.aux then ix.aux[base] else AuxModuleInfo(0, 0);
      ix.(aux := ix.aux[base := if was.size < size then was.(size := size) else was])
  }

  function Apply(ix: Index, c: Command): (r: Index) {
    match c
    case Reset => EMPTY
    case AddModule(id, name, buildId) =>
      var m := if Key(id) in ix.modules then ix.modules[Key(id)] else UNNAMED;
      ix.(modules := ix.modules[Key(id) := m.(name := name, buildId := buildId)])
    case MMap(address, size, id, offset) =>
      if Key(id) in ix.modules then Mapped(ix, Key(id), Sub64(address, offset), Add64(size, offset)) else ix
  }

  ghost function Run(cmds: seq<Command>): (ix: Index)
    decreases |cmds|
  {
    if cmds == [] then EMPTY else Apply(Run(cmds[..|cmds| - 1]), cmds[|cmds| - 1])
  }

  predicate IsPredecessor(keys: set<U64>, a: U64, p: Option<U64>) {
    match p
    case None => forall k :: k in keys ==> k > a
    case Some(b) => b in keys && b <= a && forall k :: k in keys && k <= a ==> k <= b
  }

  /** upper_bound followed by a step back, when there is one. */
  method Predecessor(keys: set<U64>, a: U64) returns (p: Option<U64>)
    ensures IsPredecessor(keys, a, p)
  {
    p := None;
    var todo := keys;
    ghost var done: set<U64> := {};
    while todo != {}
      invariant todo <= keys && done == keys - todo
      invariant IsPredecessor(done, a, p)
      decreases todo
    {
      var k :| k in todo;
      todo, done := todo - {k}, done + {k};
      if k <= a && (p.None? || p.value < k) {
        p := Some(k);
      }
    }
    assert done == keys;
  }

  /** The module found for an address when `p` is the predecessor of the address among the bases. */
  function Found(ix: Index, a: U64, p: Option<U64>): (k: Option<int>)
    requires p.Some? ==> p.value in ix.aux
  {
    if p.None? then None
    else
      var info := ix.aux[p.value];
      var m := if info.id in ix.modules then ix.modules[info.id] else UNNAMED;
      if Sub64(a, m.base) <= info.size then Some(info.id) else None
  }

  /** The tables of SymbolizerImpl, updated in place. */
  class Tables {
    var modules: map<int, Module>
    var aux: map<U64, AuxModuleInfo>

    ghost function View(): (ix: Index)
      reads this
    {
      Index(modules, aux)
    }

    constructor ()
      ensures View() == EMPTY
    {
      modules, aux := map[], map[];
    }

    method ResetTables()
      modifies this
      ensures View() == Apply(old(View()), Reset)
    {
      modules := map[];
      aux := map[];
    }

    method DeclareModule(id: U64, name: string, buildId: string)
      modifies this
      ensures View() == Apply(old(View()), AddModule(id, name, buildId))
    {
      var m := if Key(id) in modules then modules[Key(id)] else UNNAMED;
      modules := modules[Key(id) := m.(name := name)];
      modules := modules[Key(id) := modules[Key(id)].(buildId := buildId)];
    }

    method MapModule(address: U64, size: U64, id: U64, offset: U64) returns (note: Note)
      modifies this
      ensures View() == Apply(old(View()), MMap(address, size, id, offset))
      ensures note == InvalidId <==> Key(id) !in old(modules)
      ensures note.Loaded? <==> Key(id) in old(modules) && old(modules)[Key(id)].base == 0
      ensures note.Loaded? ==>
                var m := modules[Key(id)];
                note == Loaded(id, m.name, m.buildId, m.base) && m.base == Sub64(address, offset)
      ensures note == InconsistentBase <==>
                Key(id) in old(modules) && old(modules)[Key(id)].base !in {0, Sub64(address, offset)}
    {
      var k := Key(id);
      if k !in modules {
        return InvalidId;
      }
      var base := Sub64(address, offset);
      if modules[k].base == 0 {
        modules := modules[k := modules[k].(base := base)];
        aux := aux[base := AuxModuleInfo(Add64(size, offset), k)];
        return Loaded(id, modules[k].name, modules[k].buildId, base);
      }
      if modules[k].base != base {
        return InconsistentBase;
      }
      if base !in aux {
        aux := aux[base := AuxModuleInfo(0, 0)];
      }
      if aux[base].size < Add64(size, offset) {
        aux := aux[base := aux[base].(size := Add64(size, offset))];
      }
      note := Silent;
    }

    /** The lookup at the head of Backtrace. */
    method FindModule(address: U64) returns (k: Option<int>)
      ensures exists p :: IsPredecessor(aux.Keys, address, p) && k == Found(View(), address, p)
    {
      var p := Predecessor(aux.Keys, address);
      k := Found(Index(modules, aux), address, p);
    }
  }

  // ---------------------------------------------------------------------------------------------
  // The reference: one extent per module, over unbounded integers, and a scan of all extents
  // ---------------------------------------------------------------------------------------------

  datatype Extent = Extent(base: U64, size: nat)

  /** The name and the build id of each module declared, and the extent of each module mapped. */
  datatype Extents = Extents(known: map<int, (string, string)>, at: map<int, Extent>)

  function Max(a: nat, b: nat): (m: nat) {
    if a < b then b else a
  }

  /** A module keeps its first base and the largest size mapped at that base. */
  function Grow(r: Extents, k: int, base: U64, size: nat): (t: Extents) {
    if k !in r.at then r.(at := r.at[k := Extent(base, size)])
    else if r.at[k].base != base then r
    else r.(at := r.at[k := Extent(base, Max(r.at[k].size, size))])
  }

  function Extend(r: Extents, c: Command): (t: Extents) {
    match c
    case Reset => Extents(map[], map[])
    case AddModule(id, name, buildId) => r.(known := r.known[Key(id) := (name, buildId)])
    case MMap(address, size, id, offset) =>
      if Key(id) in r.known then Grow(r, Key(id), Sub64(address, offset), size + offset) else r
  }

  ghost function AllExtents(cmds: seq<Command>): (r: Extents)
    decreases |cmds|
  {
    if cmds == [] then Extents(map[], map[]) else Extend(AllExtents(cmds[..|cmds| - 1]), cmds[|cmds| - 1])
  }

  ghost predicate Apart(x: Extent, y: Extent) {
    x.base + x.size <= y.base || y.base + y.size <= x.base
  }

  /** Extents of a real process: nonzero bases, something mapped, no wrap-around, disjoint. */
  ghost predicate Sane(r: Extents) {
    && (forall k :: k in r.at ==> 0 < r.at[k].base && 0 < r.at[k].size && r.at[k].base + r.at[k].size <= WORD)
    && (forall j, k :: j in r.at && k in r.at && j != k ==> Apart(r.at[j], r.at[k]))
  }

  ghost predicate Holds(aux: map<U64, AuxModuleInfo>, e: Extent, k: int) {
    e.base in aux && aux[e.base].size == e.size && aux[e.base].id == k
  }

  /** The index holds, for each extent, its base with its module and size, and nothing else. */
  ghost predicate Matches(ix: Index, r: Extents) {
    && ix.modules.Keys == r.known.Keys
    && r.at.Keys <= r.known.Keys
    && (forall k :: k in r.known ==> (ix.modules[k].name, ix.modules[k].buildId) == r.known[k])
    && (forall k :: k in r.known ==> ix.modules[k].base == if k in r.at then r.at[k].base else 0)
    && (forall k :: k in r.at ==> Holds(ix.aux, r.at[k], k))
    && (forall b :: b in ix.aux ==> ix.aux[b].id in r.at && r.at[ix.aux[b].id].base == b)
  }

  /** What the tables rely on: nonzero and distinct bases, and sizes that fit. */
  ghost predicate Distinct(r: Extents) {
    && (forall k :: k in r.at ==> 0 < r.at[k].base && r.at[k].base + r.at[k].size <= WORD)
    && (forall j, k :: j in r.at && k in r.at && j != k ==> r.at[j].base != r.at[k].base)
  }

  lemma SaneDistinct(r: Extents)
    requires Sane(r)
    ensures Distinct(r)
  {
    forall j, k | j in r.at && k in r.at && j != k
      ensures r.at[j].base != r.at[k].base
    {
      assert Apart(r.at[j], r.at[k]);
    }
  }

  /** Extents only grow, so what holds of the bases now held before. */
  lemma DistinctBefore(r: Extents, c: Command)
    requires c != Reset && Distinct(Extend(r, c))
    ensures Distinct(r)
  {
    var t := Extend(r, c);
    assert forall k :: k in r.at ==> k in t.at && r.at[k].base == t.at[k].base && r.at[k].size <= t.at[k].size;
  }

  /** The first mapping of a module. */
  lemma FirstMapping(ix: Index, r: Extents, k: int, base: U64, size: U64)
    requires Matches(ix, r) && k in r.known && k !in r.at
    requires Distinct(r.(at := r.at[k := Extent(base, size)]))
    ensures Matches(Mapped(ix, k, base, size), r.(at := r.at[k := Extent(base, size)]))
  {
    var t := r.(at := r.at[k := Extent(base, size)]);
    forall j | j in r.at
      ensures r.at[j].base != base
    {
      assert t.at[j].base != t.at[k].base;
    }
  }

  /** A further mapping of a module at the same base. */
  lemma FurtherMapping(ix: Index, r: Extents, k: int, size: U64)
    requires Matches(ix, r) && Distinct(r) && k in r.at
    ensures Matches(Mapped(ix, k, r.at[k].base, size), r.(at := r.at[k := Extent(r.at[k].base, Max(r.at[k].size, size))]))
  {
    assert Holds(ix.aux, r.at[k], k);
    forall j | j in r.at && j != k
      ensures r.at[j].base != r.at[k].base
    {
    }
  }

  lemma SizeFits(r: Extents, k: int, base: U64, size: nat)
    requires Distinct(Grow(r, k, base, size)) && (k in r.at ==> r.at[k].base == base)
    ensures size < WORD
  {
    var t := Grow(r, k, base, size);
    assert k in t.at && t.at[k].base == base && size <= t.at[k].size;
  }

  lemma MapMatches(ix: Index, r: Extents, k: int, base: U64, size: nat, wrapped: U64)
    requires Matches(ix, r) && Distinct(r) && k in r.known && Distinct(Grow(r, k, base, size))
    requires size < WORD ==> wrapped == size
    ensures Matches(Mapped(ix, k, base, wrapped), Grow(r, k, base, size))
  {
    if k in r.at && r.at[k].base != base {
      assert ix.modules[k].base == r.at[k].base != 0;
    } else {
      SizeFits(r, k, base, size);
      if k in r.at {
        FurtherMapping(ix, r, k, size);
      } else {
        FirstMapping(ix, r, k, base, size);
      }
    }
  }

  lemma ModuleMatches(ix: Index, r: Extents, k: int, m: Module)
    requires Matches(ix, r) && m.base == if k in ix.modules then ix.modules[k].base else 0
    ensures Matches(ix.(modules := ix.modules[k := m]), r.(known := r.known[k := (m.name, m.buildId)]))
  {
  }

  /** Over every run, the two tables agree with the extents. */
  lemma {:induction false} RunMatches(cmds: seq<Command>)
    requires Distinct(AllExtents(cmds))
    ensures Matches(Run(cmds), AllExtents(cmds))
    decreases |cmds|
  {
    if cmds != [] {
      var init, c := cmds[..|cmds| - 1], cmds[|cmds| - 1];
      if c != Reset {
        DistinctBefore(AllExtents(init), c);
        RunMatches(init);
        var ix, r := Run(init), AllExtents(init);
        if c.AddModule? {
          ModuleMatches(ix, r, Key(c.id), Apply(ix, c).modules[Key(c.id)]);
        } else if Key(c.id) in r.known {
          MapMatches(ix, r, Key(c.id), Sub64(c.address, c.offset), c.size + c.offset, Add64(c.size, c.offset));
        }
      }
    }
  }

  ghost predicate Contains(e: Extent, a: U64) {
    e.base <= a < e.base + e.size
  }

  ghost predicate EndsAt(e: Extent, a: U64) {
    e.base + e.size == a
  }

  /** The answer of a scan over all extents: the module that contains the address, else one that ends there. */
  ghost predicate ScanFinds(r: Extents, a: U64, found: Option<int>) {
    if exists k :: k in r.at && Contains(r.at[k], a) then
      found.Some? && found.value in r.at && Contains(r.at[found.value], a)
    else if exists k :: k in r.at && EndsAt(r.at[k], a) then
      found.Some? && found.value in r.at && EndsAt(r.at[found.value], a)
    else
      found == None
  }

  /** Disjoint extents leave a scan no choice. */
  lemma ScanUnique(r: Extents, a: U64, x: Option<int>, y: Option<int>)
    requires Sane(r) && ScanFinds(r, a, x) && ScanFinds(r, a, y)
    ensures x == y
  {
    assert x.Some? && y.Some? && x.value != y.value ==> Apart(r.at[x.value], r.at[y.value]);
  }

  /** The lookup accepts the predecessor's module when it contains the address or ends there. */
  lemma FoundAt(ix: Index, r: Extents, a: U64, b: U64)
    requires Distinct(r) && Matches(ix, r) && b in ix.aux && b <= a
    ensures var k := ix.aux[b].id;
            && k in r.at && r.at[k].base == b
            && Found(ix, a, Some(b)) == if Contains(r.at[k], a) || EndsAt(r.at[k], a) then Some(k) else None
  {
    var k := ix.aux[b].id;
    assert Holds(ix.aux, r.at[k], k);
  }

  /** A module that contains the address, or ends there, is the predecessor's, unless the predecessor's contains it. */
  lemma PredecessorDecides(ix: Index, r: Extents, a: U64, p: Option<U64>, k: int)
    requires Sane(r) && Matches(ix, r) && IsPredecessor(ix.aux.Keys, a, p)
    requires k in r.at && (Contains(r.at[k], a) || EndsAt(r.at[k], a))
    ensures p.Some? && (ix.aux[p.value].id == k || (Contains(r.at[ix.aux[p.value].id], a) && !Contains(r.at[k], a)))
  {
    assert Holds(ix.aux, r.at[k], k);
    assert r.at[k].base in ix.aux.Keys;
    var j := ix.aux[p.value].id;
    assert j != k ==> Apart(r.at[j], r.at[k]);
  }

  /** With matching tables, the lookup answers as the scan does. */
  lemma FoundIsScan(ix: Index, r: Extents, a: U64, p: Option<U64>)
    requires Sane(r) && Distinct(r) && Matches(ix, r) && IsPredecessor(ix.aux.Keys, a, p)
    ensures ScanFinds(r, a, Found(ix, a, p))
  {
    if p.Some? {
      FoundAt(ix, r, a, p.value);
    }
    if k :| k in r.at && Contains(r.at[k], a) {
      PredecessorDecides(ix, r, a, p, k);
    } else if k :| k in r.at && EndsAt(r.at[k], a) {
      PredecessorDecides(ix, r, a, p, k);
    }
  }

  /** Over every run with sane extents, the lookup answers as the scan does. */
  lemma LookupIsScan(cmds: seq<Command>, a: U64, p: Option<U64>)
    requires Sane(AllExtents(cmds)) && IsPredecessor(Run(cmds).aux.Keys, a, p)
    ensures ScanFinds(AllExtents(cmds), a, Found(Run(cmds), a, p))
  {
    SaneDistinct(AllExtents(cmds));
    RunMatches(cmds);
    FoundIsScan(Run(cmds), AllExtents(cmds), a, p);
  }

  // ---------------------------------------------------------------------------------------------
  // The reference in terms of the ids in the commands
  // ---------------------------------------------------------------------------------------------

  ghost predicate SmallIds(cmds: seq<Command>) {
    forall c :: c in cmds && (c.AddModule? || c.MMap?) ==> c.id < 0x8000_0000
  }

  /** The extents by the declared ids themselves. */
  function ExtendById(r: Extents, c: Command): (t: Extents) {
    match c
    case Reset => Extents(map[], map[])
    case AddModule(id, name, buildId) => r.(known := r.known[id := (name, buildId)])
    case MMap(address, size, id, offset) =>
      if id in r.known then Grow(r, id, Sub64(address, offset), size + offset) else r
  }

  ghost function ExtentsById(cmds: seq<Command>): (r: Extents)
    decreases |cmds|
  {
    if cmds == [] then Extents(map[], map[]) else ExtendById(ExtentsById(cmds[..|cmds| - 1]), cmds[|cmds| - 1])
  }

  lemma {:induction false} ByIdSame(cmds: seq<Command>)
    requires SmallIds(cmds)
    ensures ExtentsById(cmds) == AllExtents(cmds)
    decreases |cmds|
  {
    if cmds != [] {
      var init, c := cmds[..|cmds| - 1], cmds[|cmds| - 1];
      assert c in cmds;
      ByIdSame(init);
      if c.AddModule? || c.MMap? {
        KeyKeeps(c.id);
      }
    }
  }

  /**
   * Over every run with ids that fit an int, the tables hold for each declared id its last name and
   * build id, and for each mapped id its base and largest extent, and nothing else.
   */
  lemma RunMatchesById(cmds: seq<Command>)
    requires SmallIds(cmds) && Distinct(ExtentsById(cmds))
    ensures Matches(Run(cmds), ExtentsById(cmds))
  {
    ByIdSame(cmds);
    RunMatches(cmds);
  }

  /** The lookup finds the declared id of the module containing the address, else of the one ending there, else none. */
  lemma LookupIsScanById(cmds: seq<Command>, a: U64, p: Option<U64>)
    requires SmallIds(cmds) && Sane(ExtentsById(cmds)) && IsPredecessor(Run(cmds).aux.Keys, a, p)
    ensures ScanFinds(ExtentsById(cmds), a, Found(Run(cmds), a, p))
  {
    ByIdSame(cmds);
    LookupIsScan(cmds, a, p);
  }
}
