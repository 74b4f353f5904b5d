/** The layout of the installer disk image and the writing of its partitions. */
module Installer {
  import opened Machine

  const SECTOR_SIZE: nat := 512
  const GPT_SECTORS: nat := 2048
  const CROS_RESERVED_SECTORS: nat := 2048
  const FAT32_MIN_SIZE: nat := 63 * 1024 * 1024

  /** The area at each end of the image that holds a partition table. */
  const GPT_SIZE: nat := 1048576

  /** `source` is the content of the host file; a partition without one is only reserved. */
  datatype Partition = Partition(source: Option<seq<Byte>>, kind: string, name: string, realSize: nat, size: nat) {

    /** What the constructor establishes: sectors, and room for the whole file. */
    predicate Valid() {
      && size % 512 == 0
      && realSize <= size
      && (source.Some? ==> realSize == |source.value|)
    }

    function Bytes(): (b: seq<Byte>) {
      if source.Some? then source.value else []
    }
  }

  function RoundUp(n: nat): (r: nat)
    ensures r % 512 == 0 && n <= r < n + 512
  {
    if n % 512 != 0 then n + 512 - (n + 512) % 512 else n
  }

  /**
   * The partition constructor; None is its ValueError for a path that is no regular file, and for a
   * partition with neither a file nor a size.
   */
  function NewPartition(source: Option<seq<Byte>>, regular: bool, kind: string, name: string, size: nat)
    : (p: Option<Partition>)
    ensures p.None? <==> if source.Some? then !regular else size == 0
    ensures p.Some? ==>
              && p.value.Valid()
              && p.value.source == source && p.value.kind == kind && p.value.name == name
              && p.value.realSize == (if source.Some? then |source.value| else size)
              && (kind != "efi" ==> p.value.size < p.value.realSize + 512)
              && (kind == "efi" ==> p.value.size == FAT32_MIN_SIZE || FAT32_MIN_SIZE < p.value.size < p.value.realSize + 512)
  {
    if (if source.Some? then !regular else size == 0) then None
    else
      var length := if source.Some? then |source.value| else size;
      var rounded := RoundUp(length);
      var total := if kind == "efi" && rounded < FAT32_MIN_SIZE then FAT32_MIN_SIZE else rounded;
      Some(Partition(source, kind, name, length, total))
  }

  /** Every partition is a whole number of sectors. */
  predicate AllAligned(parts: seq<Partition>) {
    forall i :: 0 <= i < |parts| ==> parts[i].size % 512 == 0
  }

  /** Every partition has room for its file. */
  predicate AllFit(parts: seq<Partition>) {
    forall i :: 0 <= i < |parts| ==> |parts[i].Bytes()| <= parts[i].size
  }

  /** Where partition `i` begins; `i == |parts|` is the end of the last one. */
  function Offset(parts: seq<Partition>, i: nat): (o: nat)
    requires i <= |parts|
    ensures o >= GPT_SIZE
  {
    if i == 0 then GPT_SIZE else Offset(parts, i - 1) + parts[i - 1].size
  }

  lemma {:induction false} OffsetPrefix(parts: seq<Partition>, p: Partition, i: nat)
    requires i <= |parts|
    ensures Offset(parts + [p], i) == Offset(parts, i)
    decreases i
  {
    if i > 0 {
      OffsetPrefix(parts, p, i - 1);
    }
  }

  lemma {:induction false} OffsetAligned(parts: seq<Partition>, i: nat)
    requires AllAligned(parts) && i <= |parts|
    ensures Offset(parts, i) % 512 == 0
    decreases i
  {
    if i > 0 {
      OffsetAligned(parts, i - 1);
    }
  }

  /** Partitions do not overlap: each ends before any later one begins. */
  lemma {:induction false} OffsetsApart(parts: seq<Partition>, i: nat, j: nat)
    requires i < j <= |parts|
    ensures Offset(parts, i) + parts[i].size <= Offset(parts, j)
    decreases j
  {
    if i < j - 1 {
      OffsetsApart(parts, i, j - 1);
    }
  }

  // ---------------------------------------------------------------------------------------------
  // Writing
  // ---------------------------------------------------------------------------------------------

  /** A write at a position; a file grows, with zeros, when the write goes past its end. */
  function WriteAt(disk: seq<Byte>, at: nat, block: seq<Byte>): (d: seq<Byte>)
    ensures |d| == if block == [] || at + |block| <= |disk| then |disk| else at + |block|
  {
    if block == [] then disk
    else
      var p := if |disk| < at + |block| then disk + Zeros(at + |block| - |disk|) else disk;
      p[..at] + block + p[at + |block|..]
  }

  /** The byte at a position; beyond the end there are zeros to come. */
  function ByteAt(disk: seq<Byte>, k: nat): (b: Byte) {
    if k < |disk| then disk[k] else 0
  }

  /** A write changes exactly the bytes of its block. */
  lemma WriteAtByte(disk: seq<Byte>, at: nat, block: seq<Byte>, k: nat)
    ensures ByteAt(WriteAt(disk, at, block), k) == if at <= k < at + |block| then block[k - at] else ByteAt(disk, k)
  {
  }

  lemma SameBytes(a: seq<Byte>, b: seq<Byte>)
    requires |a| == |b| && forall k :: 0 <= k < |a| ==> ByteAt(a, k) == ByteAt(b, k)
    ensures a == b
  {
    forall k | 0 <= k < |a|
      ensures a[k] == b[k]
    {
      assert ByteAt(a, k) == ByteAt(b, k);
    }
  }

  /** Two adjoining writes are one write. */
  lemma WriteTwice(disk: seq<Byte>, at: nat, a: seq<Byte>, b: seq<Byte>)
    ensures WriteAt(WriteAt(disk, at, a), at + |a|, b) == WriteAt(disk, at, a + b)
  {
    var d := WriteAt(disk, at, a);
    forall k | 0 <= k < |WriteAt(disk, at, a + b)|
      ensures ByteAt(WriteAt(d, at + |a|, b), k) == ByteAt(WriteAt(disk, at, a + b), k)
    {
      WriteAtByte(disk, at, a, k);
      WriteAtByte(d, at + |a|, b, k);
      WriteAtByte(disk, at, a + b, k);
    }
    SameBytes(WriteAt(d, at + |a|, b), WriteAt(disk, at, a + b));
  }

  lemma TakeMore(src: seq<Byte>, from: nat, to: nat)
    requires from <= to <= |src|
    ensures src[..from] + src[from..to] == src[..to]
  {
  }

  lemma NextBlock(disk: seq<Byte>, at: nat, src: seq<Byte>, from: nat, to: nat)
    requires from <= to <= |src|
    ensures WriteAt(WriteAt(disk, at, src[..from]), at + from, src[from..to]) == WriteAt(disk, at, src[..to])
  {
    TakeMore(src, from, to);
    WriteTwice(disk, at, src[..from], src[from..to]);
  }

  /** Position `k` lies in the file bytes of partition `i`. */
  ghost predicate InFile(parts: seq<Partition>, i: nat, k: nat)
    requires i < |parts|
  {
    Offset(parts, i) <= k < Offset(parts, i) + |parts[i].Bytes()|
  }

  // ---------------------------------------------------------------------------------------------
  // The partition table
  // ---------------------------------------------------------------------------------------------

  /**
   * What the runs of cgpt make of a disk: the two that create the table, and the one for the entry of each
   * partition, by its number. Adding an entry may fail, and may write even then.
   */
  datatype Runs = Runs(
    create: seq<Byte> -> seq<Byte>, boot: seq<Byte> -> seq<Byte>, add: (nat, seq<Byte>) -> (bool, seq<Byte>))

  /** `e` differs from `d` in the table areas at its ends only. */
  ghost predicate TablesOnly(d: seq<Byte>, e: seq<Byte>) {
    |e| == |d| && forall k :: GPT_SIZE <= k < |d| - GPT_SIZE ==> e[k] == d[k]
  }

  /** The runs write nothing but tables. */
  ghost predicate WritesTables(runs: Runs) {
    && (forall d :: TablesOnly(d, runs.create(d)))
    && (forall d :: TablesOnly(d, runs.boot(d)))
    && (forall i, d :: TablesOnly(d, runs.add(i, d).1))
  }

  /** What a partition has to be filled with; with a block size of 0 nothing is ever read. */
  function Content(part: Partition, blockSize: nat): (b: seq<Byte>) {
    if blockSize > 0 then part.Bytes() else []
  }

  /** The disk after the first `n` entries were added and their partitions written, in turn. */
  ghost function Written(disk: seq<Byte>, parts: seq<Partition>, n: nat, runs: Runs, blockSize: nat): (d: seq<Byte>)
    requires n <= |parts|
    decreases n
  {
    if n == 0 then runs.boot(runs.create(disk))
    else
      WriteAt(runs.add(n - 1, Written(disk, parts, n - 1, runs, blockSize)).1, Offset(parts, n - 1),
              Content(parts[n - 1], blockSize))
  }

  /** The first `n` entries were added without a failure. */
  ghost predicate AllAdded(disk: seq<Byte>, parts: seq<Partition>, n: nat, runs: Runs, blockSize: nat)
    requires n <= |parts|
    decreases n
  {
    n > 0 ==>
      runs.add(n - 1, Written(disk, parts, n - 1, runs, blockSize)).0 && AllAdded(disk, parts, n - 1, runs, blockSize)
  }

  /** The partitions, and a table area behind them, fit on the disk. */
  ghost predicate Roomy(disk: seq<Byte>, parts: seq<Partition>) {
    AllFit(parts) && Offset(parts, |parts|) + GPT_SIZE <= |disk|
  }

  lemma {:induction false} OffsetGrows(parts: seq<Partition>, i: nat, j: nat)
    requires i <= j <= |parts|
    ensures Offset(parts, i) <= Offset(parts, j)
    decreases j
  {
    if i < j {
      OffsetGrows(parts, i, j - 1);
    }
  }

  /** A partition's file lies between the table areas. */
  lemma FileBetweenTables(disk: seq<Byte>, parts: seq<Partition>, i: nat, blockSize: nat)
    requires Roomy(disk, parts) && i < |parts|
    ensures GPT_SIZE <= Offset(parts, i)
    ensures Offset(parts, i) + |Content(parts[i], blockSize)| <= Offset(parts, i) + parts[i].size <= |disk| - GPT_SIZE
  {
    OffsetGrows(parts, i + 1, |parts|);
  }

  /** A disk that has room for the partitions does not grow. */
  lemma {:induction false} WrittenFits(disk: seq<Byte>, parts: seq<Partition>, n: nat, runs: Runs, blockSize: nat)
    requires WritesTables(runs) && Roomy(disk, parts) && n <= |parts|
    ensures |Written(disk, parts, n, runs, blockSize)| == |disk|
    decreases n
  {
    if n == 0 {
      assert TablesOnly(disk, runs.create(disk)) && TablesOnly(runs.create(disk), runs.boot(runs.create(disk)));
    } else {
      WrittenFits(disk, parts, n - 1, runs, blockSize);
      FileBetweenTables(disk, parts, n - 1, blockSize);
      var before := Written(disk, parts, n - 1, runs, blockSize);
      assert TablesOnly(before, runs.add(n - 1, before).1);
    }
  }

  lemma TableThenBlock(before: seq<Byte>, after: seq<Byte>, o: nat, b: seq<Byte>, k: nat)
    requires TablesOnly(before, after) && GPT_SIZE <= k < |before| - GPT_SIZE
    ensures ByteAt(WriteAt(after, o, b), k) == if o <= k < o + |b| then b[k - o] else ByteAt(before, k)
  {
    WriteAtByte(after, o, b, k);
  }

  /** Between the table areas, adding an entry and writing its partition change the file's bytes only. */
  lemma WrittenNext(disk: seq<Byte>, parts: seq<Partition>, n: nat, runs: Runs, blockSize: nat, k: nat)
    requires WritesTables(runs) && Roomy(disk, parts) && 0 < n <= |parts| && GPT_SIZE <= k < |disk| - GPT_SIZE
    ensures var o, b := Offset(parts, n - 1), Content(parts[n - 1], blockSize);
            ByteAt(Written(disk, parts, n, runs, blockSize), k) ==
            if o <= k < o + |b| then b[k - o] else ByteAt(Written(disk, parts, n - 1, runs, blockSize), k)
  {
    var before := Written(disk, parts, n - 1, runs, blockSize);
    WrittenFits(disk, parts, n - 1, runs, blockSize);
    assert TablesOnly(before, runs.add(n - 1, before).1);
    TableThenBlock(before, runs.add(n - 1, before).1, Offset(parts, n - 1), Content(parts[n - 1], blockSize), k);
  }

  /** Between the table areas, nothing but the bytes of the files is ever written. */
  lemma {:induction false} WrittenElsewhere(
    disk: seq<Byte>, parts: seq<Partition>, n: nat, runs: Runs, blockSize: nat, k: nat)
    requires WritesTables(runs) && Roomy(disk, parts) && n <= |parts| && GPT_SIZE <= k < |disk| - GPT_SIZE
    requires forall i :: 0 <= i < n ==> !InFile(parts, i, k)
    ensures ByteAt(Written(disk, parts, n, runs, blockSize), k) == ByteAt(disk, k)
    decreases n
  {
    if n == 0 {
      assert TablesOnly(disk, runs.create(disk)) && TablesOnly(runs.create(disk), runs.boot(runs.create(disk)));
    } else {
      WrittenElsewhere(disk, parts, n - 1, runs, blockSize, k);
      assert !InFile(parts, n - 1, k);
      WrittenNext(disk, parts, n, runs, blockSize, k);
    }
  }

  /** Every file survives all later writes, those of the partition table included. */
  lemma {:induction false} WrittenFile(
    disk: seq<Byte>, parts: seq<Partition>, n: nat, runs: Runs, blockSize: nat, i: nat, k: nat)
    requires WritesTables(runs) && Roomy(disk, parts) && blockSize > 0 && i < n <= |parts| && InFile(parts, i, k)
    ensures ByteAt(Written(disk, parts, n, runs, blockSize), k) == parts[i].Bytes()[k - Offset(parts, i)]
    decreases n
  {
    FileBetweenTables(disk, parts, i, blockSize);
    WrittenNext(disk, parts, n, runs, blockSize, k);
    if i < n - 1 {
      OffsetsApart(parts, i, n - 1);
      WrittenFile(disk, parts, n - 1, runs, blockSize, i, k);
    }
  }

  /** The writes of partitions never touch the tables: both areas hold what the last run of cgpt left there. */
  lemma TablesUntouched(disk: seq<Byte>, parts: seq<Partition>, n: nat, runs: Runs, blockSize: nat, k: nat)
    requires WritesTables(runs) && Roomy(disk, parts) && 0 < n <= |parts|
    requires k < GPT_SIZE || |disk| - GPT_SIZE <= k < |disk|
    ensures var left := runs.add(n - 1, Written(disk, parts, n - 1, runs, blockSize)).1;
            ByteAt(Written(disk, parts, n, runs, blockSize), k) == ByteAt(left, k)
  {
    FileBetweenTables(disk, parts, n - 1, blockSize);
    var left := runs.add(n - 1, Written(disk, parts, n - 1, runs, blockSize)).1;
    WriteAtByte(left, Offset(parts, n - 1), Content(parts[n - 1], blockSize), k);
  }

  /** The disk begins each partition with its whole file. */
  ghost predicate HoldsFiles(disk: seq<Byte>, parts: seq<Partition>) {
    forall i, k :: 0 <= i < |parts| && 0 <= k < |parts[i].Bytes()| ==>
      ByteAt(disk, Offset(parts, i) + k) == parts[i].Bytes()[k]
  }

  lemma AllFilesHeld(disk: seq<Byte>, parts: seq<Partition>, runs: Runs, blockSize: nat)
    requires WritesTables(runs) && Roomy(disk, parts) && blockSize > 0
    ensures HoldsFiles(Written(disk, parts, |parts|, runs, blockSize), parts)
  {
    forall i, k | 0 <= i < |parts| && 0 <= k < |parts[i].Bytes()|
      ensures ByteAt(Written(disk, parts, |parts|, runs, blockSize), Offset(parts, i) + k) == parts[i].Bytes()[k]
    {
      WrittenFile(disk, parts, |parts|, runs, blockSize, i, Offset(parts, i) + k);
    }
  }

  /** Any byte of a finished disk outside the files: untouched between the tables, cgpt's in them. */
  lemma FinishedByte(disk: seq<Byte>, parts: seq<Partition>, runs: Runs, blockSize: nat, k: nat)
    requires WritesTables(runs) && Roomy(disk, parts) && parts != [] && k < |disk|
    requires forall i :: 0 <= i < |parts| ==> !InFile(parts, i, k)
    ensures var n := |parts|;
            ByteAt(Written(disk, parts, n, runs, blockSize), k) ==
            if GPT_SIZE <= k < |disk| - GPT_SIZE then disk[k]
            else ByteAt(runs.add(n - 1, Written(disk, parts, n - 1, runs, blockSize)).1, k)
  {
    if GPT_SIZE <= k < |disk| - GPT_SIZE {
      WrittenElsewhere(disk, parts, |parts|, runs, blockSize, k);
    } else {
      TablesUntouched(disk, parts, |parts|, runs, blockSize, k);
    }
  }

  /**
   * A finished disk is as long as before and holds all files; a byte in no file was not written between
   * the table areas, and in them is the one that cgpt left there.
   */
  lemma FinishedImage(disk: seq<Byte>, parts: seq<Partition>, runs: Runs, blockSize: nat, k: nat)
    requires WritesTables(runs) && Roomy(disk, parts) && blockSize > 0 && parts != [] && k < |disk|
    ensures var n, d := |parts|, Written(disk, parts, |parts|, runs, blockSize);
            && |d| == |disk| && HoldsFiles(d, parts)
            && ((forall i :: 0 <= i < n ==> !InFile(parts, i, k)) ==>
                  d[k] == if GPT_SIZE <= k < |disk| - GPT_SIZE then disk[k]
                          else ByteAt(runs.add(n - 1, Written(disk, parts, n - 1, runs, blockSize)).1, k))
  {
    WrittenFits(disk, parts, |parts|, runs, blockSize);
    AllFilesHeld(disk, parts, runs, blockSize);
    if forall i :: 0 <= i < |parts| ==> !InFile(parts, i, k) {
      FinishedByte(disk, parts, runs, blockSize, k);
    }
  }

  // ---------------------------------------------------------------------------------------------
  // The arguments of cgpt
  // ---------------------------------------------------------------------------------------------

  /** The arguments of a run that adds an entry; sizes and positions are in sectors. */
  datatype TableEntry = TableEntry(first: nat, sectors: nat, kind: string, name: string, boots: bool)

  function EntryFor(part: Partition, offset: nat): (e: TableEntry) {
    TableEntry(offset / SECTOR_SIZE, part.size / SECTOR_SIZE, part.kind, part.name, part.kind == "kernel")
  }

  /** The program: what it makes of a disk. */
  datatype Cgpt = Cgpt(
    create: seq<Byte> -> seq<Byte>, boot: seq<Byte> -> seq<Byte>, add: (TableEntry, seq<Byte>) -> (bool, seq<Byte>)) {

    /** It writes nothing but tables, whatever its arguments. */
    ghost predicate WritesOnlyTables() {
      && (forall d :: TablesOnly(d, create(d)))
      && (forall d :: TablesOnly(d, boot(d)))
      && (forall e, d :: TablesOnly(d, add(e, d).1))
    }

    /** Its runs for the partitions of a layout, in order. */
    function RunsFor(parts: seq<Partition>): (r: Runs) {
      Runs(create, boot, (i: nat, d: seq<Byte>) =>
        if i < |parts| then add(EntryFor(parts[i], Offset(parts, i)), d) else (false, d))
    }
  }

  lemma RunsWriteTables(cgpt: Cgpt, parts: seq<Partition>)
    requires cgpt.WritesOnlyTables()
    ensures WritesTables(cgpt.RunsFor(parts))
  {
    var runs := cgpt.RunsFor(parts);
    forall i: nat, d: seq<Byte>
      ensures TablesOnly(d, runs.add(i, d).1)
    {
      if i < |parts| {
        assert TablesOnly(d, cgpt.add(EntryFor(parts[i], Offset(parts, i)), d).1);
      }
    }
    assert forall d :: TablesOnly(d, runs.create(d)) by {
      assert runs.create == cgpt.create;
    }
    assert forall d :: TablesOnly(d, runs.boot(d)) by {
      assert runs.boot == cgpt.boot;
    }
  }

  /**
   * The table describes the layout: each entry covers its partition exactly, the first begins behind the
   * table area, and each next one where the last ends.
   */
  lemma TableDescribesLayout(parts: seq<Partition>, i: nat)
    requires AllAligned(parts) && i < |parts|
    ensures var e := EntryFor(parts[i], Offset(parts, i));
            && e.first * 512 == Offset(parts, i) && e.sectors * 512 == parts[i].size
            && (i == 0 ==> e.first == 2048)
            && (i + 1 < |parts| ==> EntryFor(parts[i + 1], Offset(parts, i + 1)).first == e.first + e.sectors)
            && (e.kind, e.name) == (parts[i].kind, parts[i].name)
            && (e.boots <==> parts[i].kind == "kernel")
  {
    OffsetAligned(parts, i);
    OffsetAligned(parts, i + 1);
  }

  datatype Outcome = Complete | CgptFailed(at: nat) | AlignmentError

  /** The checks before an entry is added to the partition table, and its result. */
  function CgptAdd(disk: seq<Byte>, part: Partition, offset: nat, i: nat, cgpt: Cgpt): (r: (Outcome, seq<Byte>)) {
    if offset % SECTOR_SIZE != 0 || part.size % SECTOR_SIZE != 0 then (AlignmentError, disk)
    else
      var (ok, d) := cgpt.add(EntryFor(part, offset), disk);
      (if ok then Complete else CgptFailed(i), d)
  }

  /** The checks refuse exactly what is not aligned. */
  lemma MisalignedExactly(disk: seq<Byte>, part: Partition, offset: nat, i: nat, cgpt: Cgpt)
    ensures CgptAdd(disk, part, offset, i, cgpt).0 == AlignmentError <==> offset % 512 != 0 || part.size % 512 != 0
  {
  }

  /** The alignment checks never fail on the offsets of the layout. */
  lemma NeverMisaligned(disk: seq<Byte>, parts: seq<Partition>, i: nat, cgpt: Cgpt)
    requires AllAligned(parts) && i < |parts|
    ensures var (r, d) := CgptAdd(disk, parts[i], Offset(parts, i), i, cgpt);
            var (ok, e) := cgpt.RunsFor(parts).add(i, disk);
            r == (if ok then Complete else CgptFailed(i)) && d == e
  {
    OffsetAligned(parts, i);
  }

  class Image {
    const isUsb: bool
    const blockSize: nat
    var partitions: seq<Partition>
    var fileSize: nat
    var disk: seq<Byte>

    /** One table area at each end, and the partitions in between. */
    ghost predicate Valid()
      reads this
    {
      && AllAligned(partitions) && AllFit(partitions)
      && partitions != [] && partitions[0].source.None?
      && fileSize == Offset(partitions, |partitions|) + GPT_SIZE
    }

    /** `device` is what a disk holds already; an image file starts out empty. */
    constructor (isUsb: bool, blockSize: nat, device: seq<Byte>)
      ensures Valid() && |partitions| == 1 && this.isUsb == isUsb && this.blockSize == blockSize
      ensures disk == if isUsb then device else []
    {
      this.isUsb, this.blockSize := isUsb, blockSize;
      disk := if isUsb then device else [];
      fileSize := 2 * GPT_SECTORS * SECTOR_SIZE;
      partitions := [];
      var reserved := NewPartition(None, false, "reserved", "reserved", CROS_RESERVED_SECTORS * SECTOR_SIZE).value;
      new;
      partitions := [reserved];
      fileSize := fileSize + reserved.size;
      assert Offset(partitions, 1) == Offset(partitions, 0) + reserved.size;
    }

    method AddPartition(p: Partition)
      requires Valid() && p.Valid()
      modifies this`partitions, this`fileSize
      ensures Valid() && partitions == old(partitions) + [p]
    {
      OffsetPrefix(partitions, p, |partitions|);
      partitions := partitions + [p];
      fileSize := fileSize + p.size;
    }

    /** Copies a host file block by block. */
    method WritePart(part: Partition, offset: nat)
      modifies this`disk
      ensures disk == WriteAt(old(disk), offset, Content(part, blockSize))
    {
      if part.source.None? {
        return;
      }
      var src := part.source.value;
      var written := 0;
      assert src[..0] == [];
      while true
        invariant written <= |src|
        invariant blockSize > 0 ==> disk == WriteAt(old(disk), offset, src[..written])
        invariant blockSize == 0 ==> disk == old(disk)
        decreases |src| - written
      {
        var end := Min(written + blockSize, |src|);
        var block := src[written..end];
        if |block| == 0 {
          break;
        }
        NextBlock(old(disk), offset, src, written, end);
        disk := WriteAt(disk, offset + written, block);
        written := end;
      }
      assert blockSize > 0 ==> src[..written] == src;
    }

    /** Where the disk stands: `n` partitions are done, and an entry for one more may have failed. */
    ghost predicate Progress(base: seq<Byte>, n: nat, runs: Runs, failed: bool)
      reads this
    {
      && n <= |partitions| && (failed ==> n < |partitions|)
      && AllAdded(base, partitions, n, runs, blockSize)
      && var d := Written(base, partitions, n, runs, blockSize);
         if failed then !runs.add(n, d).0 && disk == runs.add(n, d).1 else disk == d
    }

    /** The entry of one partition. */
    method AddEntry(i: nat, currentOffset: nat, cgpt: Cgpt, ghost runs: Runs) returns (r: Outcome)
      requires AllAligned(partitions) && i < |partitions| && currentOffset == Offset(partitions, i)
      requires runs == cgpt.RunsFor(partitions)
      modifies this`disk
      ensures (r, disk) == (if runs.add(i, old(disk)).0 then Complete else CgptFailed(i), runs.add(i, old(disk)).1)
    {
      NeverMisaligned(disk, partitions, i, cgpt);
      var (outcome, d) := CgptAdd(disk, partitions[i], currentOffset, i, cgpt);
      r, disk := outcome, d;
    }

    /** One round of the loop: an entry in the table, then the partition. */
    method WriteNext(i: nat, currentOffset: nat, cgpt: Cgpt, ghost runs: Runs, ghost base: seq<Byte>)
      returns (r: Outcome)
      requires AllAligned(partitions) && i < |partitions| && currentOffset == Offset(partitions, i)
      requires runs == cgpt.RunsFor(partitions) && Progress(base, i, runs, false)
      modifies this`disk
      ensures r == Complete || r == CgptFailed(i)
      ensures Progress(base, if r.Complete? then i + 1 else i, runs, r.CgptFailed?)
    {
      r := AddEntry(i, currentOffset, cgpt, runs);
      if r == Complete {
        WritePart(partitions[i], currentOffset);
      }
    }

    /** The loop over the partitions. */
    method WritePartitions(cgpt: Cgpt, ghost runs: Runs, ghost base: seq<Byte>) returns (r: Outcome)
      requires AllAligned(partitions) && runs == cgpt.RunsFor(partitions) && disk == runs.boot(runs.create(base))
      modifies this`disk
      ensures r != AlignmentError
      ensures Progress(base, if r.Complete? then |partitions| else r.at, runs, r.CgptFailed?)
    {
      var currentOffset := SECTOR_SIZE * GPT_SECTORS;
      for i := 0 to |partitions|
        invariant currentOffset == Offset(partitions, i)
        invariant Progress(base, i, runs, false)
      {
        r := WriteNext(i, currentOffset, cgpt, runs, base);
        if r != Complete {
          return;
        }
        currentOffset := currentOffset + partitions[i].size;
      }
      r := Complete;
    }

    /** Writes everything: the table, and entry by entry the partitions. */
    method Finalise(cgpt: Cgpt) returns (r: Outcome)
      requires Valid()
      modifies this`disk
      ensures r != AlignmentError
      ensures var base := if isUsb then old(disk) else Zeros(fileSize);
              && Progress(base, if r.Complete? then |partitions| else r.at, cgpt.RunsFor(partitions), r.CgptFailed?)
              && (r.Complete? && blockSize > 0 && cgpt.WritesOnlyTables() && fileSize <= |base| ==>
                    |disk| == |base| && HoldsFiles(disk, partitions))
    {
      if !isUsb {
        disk := Zeros(fileSize);
      }
      ghost var base := disk;
      disk := cgpt.create(disk);
      disk := cgpt.boot(disk);
      r := WritePartitions(cgpt, cgpt.RunsFor(partitions), base);
      if r.Complete? && blockSize > 0 && cgpt.WritesOnlyTables() && fileSize <= |base| {
        RunsWriteTables(cgpt, partitions);
        FinishedImage(base, partitions, cgpt.RunsFor(partitions), blockSize, 0);
      }
    }
  }
}
