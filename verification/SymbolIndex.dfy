/** The symbol-index file: rows of text, entries, and the operations on the list of entries. */
module SymbolIndexFile {
  import opened Machine
  import opened Strings

  predicate IsBlank(c: char) {
    c == ' ' || c == '\t' || c == '\r' || c == '\n'
  }

  lemma BlanksAre(c: char)
    ensures IsBlank(c) <==> c in [' ', '\t', '\r', '\n']
  {
  }

  function TrimLeft(s: string): (r: string) {
    if s != "" && IsBlank(s[0]) then TrimLeft(s[1..]) else s
  }

  function TrimRight(s: string): (r: string) {
    if s != "" && IsBlank(s[|s| - 1]) then TrimRight(s[..|s| - 1]) else s
  }

  /** fxl::TrimString with blanks, tabs and line breaks. */
  function Trim(s: string): (r: string) {
    TrimRight(TrimLeft(s))
  }

  lemma {:induction false} TrimLeftShape(s: string)
    ensures var r := TrimLeft(s); (r != "" ==> !IsBlank(r[0])) && |r| <= |s| && r == s[|s| - |r|..]
    decreases |s|
  {
    if s != "" && IsBlank(s[0]) {
      TrimLeftShape(s[1..]);
    }
  }

  lemma {:induction false} TrimRightShape(s: string)
    ensures var r := TrimRight(s); (r != "" ==> !IsBlank(r[|r| - 1])) && r <= s
    decreases |s|
  {
    if s != "" && IsBlank(s[|s| - 1]) {
      TrimRightShape(s[..|s| - 1]);
    }
  }

  /** A trimmed text begins and ends with something else than a blank, and is part of the text. */
  lemma TrimShape(s: string)
    ensures var r := Trim(s);
            && (r != "" ==> !IsBlank(r[0]) && !IsBlank(r[|r| - 1]))
            && forall c :: c in r ==> c in s
  {
    TrimLeftShape(s);
    TrimRightShape(TrimLeft(s));
  }

  /** A text that neither begins nor ends with a blank stays as it is. */
  lemma TrimKeeps(s: string)
    requires s != "" && !IsBlank(s[0]) && !IsBlank(s[|s| - 1])
    ensures Trim(s) == s
  {
  }

  predicate AllBlank(s: string) {
    forall i :: 0 <= i < |s| ==> IsBlank(s[i])
  }

  lemma {:induction false} TrimLeftExactly(left: string, rest: string)
    requires AllBlank(left) && (rest != "" ==> !IsBlank(rest[0]))
    ensures TrimLeft(left + rest) == rest
    decreases |left|
  {
    if left == "" {
      assert left + rest == rest;
    } else {
      assert (left + rest)[1..] == left[1..] + rest;
      TrimLeftExactly(left[1..], rest);
    }
  }

  lemma {:induction false} TrimRightExactly(rest: string, right: string)
    requires AllBlank(right) && (rest != "" ==> !IsBlank(rest[|rest| - 1]))
    ensures TrimRight(rest + right) == rest
    decreases |right|
  {
    if right == "" {
      assert rest + right == rest;
    } else {
      assert (rest + right)[..|rest + right| - 1] == rest + right[..|right| - 1];
      TrimRightExactly(rest, right[..|right| - 1]);
    }
  }

  /** Exactly the blanks around a text go. */
  lemma TrimExactly(left: string, core: string, right: string)
    requires AllBlank(left) && AllBlank(right)
    requires core != "" ==> !IsBlank(core[0]) && !IsBlank(core[|core| - 1])
    ensures Trim(left + (core + right)) == core
  {
    if core == "" {
      assert left + (core + right) == (left + right) + "";
      TrimLeftExactly(left + right, "");
    } else {
      TrimLeftExactly(left, core + right);
      TrimRightExactly(core, right);
    }
  }

  /** The row of one line; None for an empty line or a comment. */
  function RowOf(line: string, sep: char): (row: Option<seq<string>>) {
    var t := Trim(line);
    if t == "" || t[0] == '#' then None else Some(Splitted(t, sep, false))
  }

  /** A line is skipped exactly when it is blank or its first other character is a hash. */
  lemma RowExactly(left: string, core: string, right: string, sep: char)
    requires AllBlank(left) && AllBlank(right)
    requires core != "" ==> !IsBlank(core[0]) && !IsBlank(core[|core| - 1])
    ensures RowOf(left + (core + right), sep) ==
            if core == "" || core[0] == '#' then None else Some(NonEmpty(Pieces(core, sep)))
  {
    TrimExactly(left, core, right);
  }

  /** The rows of some lines, in order. */
  function Rows(lines: seq<string>, sep: char): (rows: seq<seq<string>>) {
    if lines == [] then []
    else (match RowOf(lines[0], sep) case None => [] case Some(row) => [row]) + Rows(lines[1..], sep)
  }

  lemma {:induction false} RowsAppend(a: seq<string>, x: string, sep: char)
    ensures Rows(a + [x], sep) == Rows(a, sep) + match RowOf(x, sep) case None => [] case Some(row) => [row]
    decreases |a|
  {
    if a == [] {
      assert (a + [x])[1..] == [];
    } else {
      assert (a + [x])[1..] == a[1..] + [x];
      RowsAppend(a[1..], x, sep);
    }
  }

  /** A stream: one that could not be opened, or some text, after which reading may break off. */
  datatype Input = Unopened | Opened(text: string, broken: bool)

  /** The input can be read to its end. */
  predicate Readable(input: Input) {
    input.Opened? && !input.broken
  }

  /** Reader::Read; `ok` is false where an error is returned. */
  method Read(input: Input, sep: char) returns (ok: bool, rows: seq<seq<string>>)
    ensures ok <==> Readable(input)
    ensures ok ==> rows == Rows(LinesOf(input.text), sep)
  {
    rows := [];
    if input.Unopened? {
      return false, rows;
    }
    var left := input.text;
    ghost var done: seq<string> := [];
    while left != ""
      invariant LinesOf(input.text) == done + LinesOf(left)
      invariant rows == Rows(done, sep)
      decreases |left|
    {
      var line := left[..IndexOf(left, '\n')];
      FirstLine(left);
      left := AfterLine(left);
      Regroup(done, [line], LinesOf(left));
      RowsAppend(done, line, sep);
      done := done + [line];
      var trimmed := Trim(line);
      if trimmed == "" || trimmed[0] == '#' {
        continue;
      }
      var row := SplitString(trimmed, sep, false);
      rows := rows + [row];
    }
    assert done + [] == done;
    ok := !input.broken;
  }

  /** A row is never empty: a trimmed text does not begin with a separator that is a blank. */
  lemma RowNotEmpty(line: string, sep: char)
    requires IsBlank(sep) && RowOf(line, sep).Some?
    ensures RowOf(line, sep).value != []
  {
    var t := Trim(line);
    TrimShape(line);
    assert IndexOf(t, sep) > 0;
    assert Pieces(t, sep)[0] != "";
  }

  // ---------------------------------------------------------------------------------------------
  // Entries
  // ---------------------------------------------------------------------------------------------

  datatype Entry = Entry(symbolPath: string, buildDir: string) {
    function ToString(): (s: string) {
      symbolPath + if buildDir != "" then "\t" + buildDir else ""
    }

    /** The entries that survive being written to a file and read back. */
    predicate Storable() {
      && symbolPath != "" && symbolPath[0] == '/' && '\t' !in symbolPath && '\n' !in symbolPath
      && (buildDir != "" ==> buildDir[0] == '/' && '\t' !in buildDir && '\n' !in buildDir)
      && !IsBlank(ToString()[|ToString()| - 1])
    }
  }

  /** The entry of a row, when both of its paths are absolute. */
  function EntryOf(row: seq<string>): (e: Option<Entry>) {
    if row == [] then None
    else
      var path, dir := row[0], if |row| >= 2 then row[1] else "";
      if path == "" || path[0] != '/' || (dir != "" && dir[0] != '/') then None else Some(Entry(path, dir))
  }

  /** A row makes an entry exactly when its first column, and its second if it has one, are absolute paths. */
  lemma EntryExactly(row: seq<string>, e: Entry)
    requires "" !in row
    ensures EntryOf(row) == Some(e) <==>
            && |row| >= 1 && row[0] == e.symbolPath && row[0][..1] == "/"
            && (if |row| == 1 then e.buildDir == "" else row[1] == e.buildDir && row[1][..1] == "/")
  {
    assert |row| >= 1 ==> row[0] in row;
    assert |row| >= 2 ==> row[1] in row;
  }

  /** The entry of one line of the file. */
  function EntryOfLine(line: string): (e: Option<Entry>) {
    match RowOf(line, '\t')
    case None => None
    case Some(row) => EntryOf(row)
  }

  function Entries(lines: seq<string>): (es: seq<Entry>) {
    if lines == [] then []
    else (match EntryOfLine(lines[0]) case None => [] case Some(e) => [e]) + Entries(lines[1..])
  }

  function SavedText(es: seq<Entry>): (text: string) {
    if es == [] then "" else es[0].ToString() + "\n" + SavedText(es[1..])
  }

  function FieldsOf(e: Entry): (f: seq<string>)
    ensures f != []
  {
    if e.buildDir == "" then [e.symbolPath] else [e.symbolPath, e.buildDir]
  }

  lemma ToStringJoins(e: Entry)
    ensures e.ToString() == Join(FieldsOf(e), '\t')
  {
    var f := FieldsOf(e);
    if e.buildDir != "" {
      assert f[1..] == [e.buildDir];
      Regroup(e.symbolPath, "\t", e.buildDir);
    }
  }

  lemma StorableFields(e: Entry)
    requires e.Storable()
    ensures forall x :: x in FieldsOf(e) ==> '\t' !in x && x != ""
  {
  }

  lemma StorableRow(e: Entry)
    requires e.Storable()
    ensures Splitted(e.ToString(), '\t', false) == FieldsOf(e)
  {
    StorableFields(e);
    ToStringJoins(e);
    PiecesJoin(FieldsOf(e), '\t');
    NonEmptyAll(FieldsOf(e));
  }

  /** The length of some fields, each with one separator. */
  function Width(p: seq<string>): (n: nat) {
    if p == [] then 0 else |p[0]| + 1 + Width(p[1..])
  }

  lemma {:induction false} JoinWidth(p: seq<string>, sep: char)
    requires p != []
    ensures |Join(p, sep)| + 1 == Width(p)
    decreases |p|
  {
    if |p| > 1 {
      JoinWidth(p[1..], sep);
    } else {
      assert p[1..] == [];
    }
  }

  lemma {:induction false} NonEmptyWidth(p: seq<string>)
    ensures Width(NonEmpty(p)) <= Width(p)
    ensures forall x :: x in NonEmpty(p) ==> x in p
    decreases |p|
  {
    if p != [] {
      NonEmptyWidth(p[1..]);
      if p[0] != "" {
        assert NonEmpty(p)[1..] == NonEmpty(p[1..]);
      } else {
        assert NonEmpty(p) == NonEmpty(p[1..]);
      }
    }
  }

  /** The fields of a row are free of tabs and no wider than the trimmed line. */
  lemma RowShape(line: string)
    requires RowOf(line, '\t').Some?
    ensures var row := RowOf(line, '\t').value;
            && Width(row) <= |Trim(line)| + 1
            && forall x :: x in row ==> '\t' !in x
  {
    var t := Trim(line);
    var p := Pieces(t, '\t');
    PiecesFree(t, '\t');
    JoinPieces(t, '\t');
    JoinWidth(p, '\t');
    NonEmptyWidth(p);
  }

  lemma TrimShortens(s: string)
    requires s != "" && IsBlank(s[|s| - 1])
    ensures |Trim(s)| < |s|
  {
    TrimLeftShape(s);
    TrimRightShape(TrimLeft(s));
    var l := TrimLeft(s);
    if l != "" {
      assert l[|l| - 1] == s[|s| - 1];
    }
  }

  lemma EntryWidth(row: seq<string>)
    requires EntryOf(row).Some?
    ensures |EntryOf(row).value.ToString()| + 1 <= Width(row)
  {
    if |row| >= 2 {
      assert Width(row) == |row[0]| + 1 + Width(row[1..]);
      assert row[1..][0] == row[1];
    }
  }

  lemma StorableParses(e: Entry)
    requires e.Storable()
    ensures EntryOfLine(e.ToString()) == Some(e)
  {
    var s := e.ToString();
    assert s[0] == '/';
    TrimKeeps(s);
    StorableRow(e);
  }

  lemma ParsedIsStorable(e: Entry)
    requires '\n' !in e.symbolPath && '\n' !in e.buildDir
    requires EntryOfLine(e.ToString()) == Some(e)
    ensures e.Storable()
  {
    var s := e.ToString();
    var row := RowOf(s, '\t').value;
    RowShape(s);
    EntryWidth(row);
    assert row[0] in row && (|row| >= 2 ==> row[1] in row);
    if IsBlank(s[|s| - 1]) {
      TrimShortens(s);
    }
  }

  /** A line of the file gives back the entry that was written to it exactly when the entry is storable. */
  lemma LineRoundTripExactly(e: Entry)
    requires '\n' !in e.symbolPath && '\n' !in e.buildDir
    ensures EntryOfLine(e.ToString()) == Some(e) <==> e.Storable()
  {
    if e.Storable() {
      StorableParses(e);
    }
    if EntryOfLine(e.ToString()) == Some(e) {
      ParsedIsStorable(e);
    }
  }

  // ---------------------------------------------------------------------------------------------
  // Saving and loading
  // ---------------------------------------------------------------------------------------------

  /** The lines of a saved file. */
  function Texts(es: seq<Entry>): (lines: seq<string>)
    ensures |lines| == |es| && forall i :: 0 <= i < |es| ==> lines[i] == es[i].ToString()
  {
    if es == [] then [] else [es[0].ToString()] + Texts(es[1..])
  }

  lemma {:induction false} SavedLines(es: seq<Entry>)
    requires forall e :: e in es ==> '\n' !in e.symbolPath && '\n' !in e.buildDir
    ensures LinesOf(SavedText(es)) == Texts(es)
    decreases |es|
  {
    if es != [] {
      assert es[0] in es;
      LineThenRest(es[0].ToString(), SavedText(es[1..]));
      SavedLines(es[1..]);
    }
  }

  lemma {:induction false} PiecesWithout(s: string, sep: char, c: char)
    requires c !in s
    ensures forall x :: x in Pieces(s, sep) ==> c !in x
    decreases |s|
  {
    var i := IndexOf(s, sep);
    if i < |s| {
      PiecesWithout(s[i + 1..], sep, c);
    }
  }

  /** What is read from a line holds no line break. */
  lemma LineFree(line: string)
    requires '\n' !in line && EntryOfLine(line).Some?
    ensures var e := EntryOfLine(line).value; '\n' !in e.symbolPath && '\n' !in e.buildDir
  {
    var t := Trim(line);
    TrimShape(line);
    PiecesWithout(t, '\t', '\n');
    NonEmptyWidth(Pieces(t, '\t'));
    var row := RowOf(line, '\t').value;
    assert row[0] in row && (|row| >= 2 ==> row[1] in row);
  }

  lemma {:induction false} LoadedFree(lines: seq<string>)
    requires forall x :: x in lines ==> '\n' !in x
    ensures forall e :: e in Entries(lines) ==> '\n' !in e.symbolPath && '\n' !in e.buildDir
    decreases |lines|
  {
    if lines != [] {
      assert lines[0] in lines;
      LoadedFree(lines[1..]);
      if EntryOfLine(lines[0]).Some? {
        LineFree(lines[0]);
      }
    }
  }

  /** At most one entry per line, and as many as lines only when every line has one. */
  lemma {:induction false} EntriesPerLine(lines: seq<string>)
    ensures |Entries(lines)| <= |lines|
    ensures |Entries(lines)| == |lines| ==>
              forall i :: 0 <= i < |lines| ==> EntryOfLine(lines[i]) == Some(Entries(lines)[i])
    decreases |lines|
  {
    if lines != [] {
      EntriesPerLine(lines[1..]);
    }
  }

  /** The entries are those of the lines. */
  lemma {:induction false} EntriesExactly(lines: seq<string>, e: Entry)
    ensures e in Entries(lines) <==> exists i :: 0 <= i < |lines| && EntryOfLine(lines[i]) == Some(e)
    decreases |lines|
  {
    if lines != [] {
      EntriesExactly(lines[1..], e);
      assert forall i :: 0 < i < |lines| ==> lines[i] == lines[1..][i - 1];
    }
  }

  lemma {:induction false} EntriesOfLines(lines: seq<string>, es: seq<Entry>)
    requires |lines| == |es| && forall i :: 0 <= i < |es| ==> EntryOfLine(lines[i]) == Some(es[i])
    ensures Entries(lines) == es
    decreases |lines|
  {
    if lines != [] {
      EntriesOfLines(lines[1..], es[1..]);
    }
  }

  /** Saving and then loading gives back the list of entries exactly when all of them are storable. */
  lemma SaveLoadExactly(es: seq<Entry>)
    ensures Entries(LinesOf(SavedText(es))) == es <==> forall e :: e in es ==> e.Storable()
  {
    var lines := LinesOf(SavedText(es));
    if forall e :: e in es ==> e.Storable() {
      SavedLines(es);
      forall i | 0 <= i < |es|
        ensures EntryOfLine(lines[i]) == Some(es[i])
      {
        assert es[i] in es;
        StorableParses(es[i]);
      }
      EntriesOfLines(lines, es);
    }
    if Entries(lines) == es {
      LinesFree(SavedText(es));
      LoadedFree(lines);
      SavedLines(es);
      EntriesPerLine(lines);
      forall i | 0 <= i < |es|
        ensures es[i].Storable()
      {
        assert es[i] in es;
        ParsedIsStorable(es[i]);
      }
    }
  }

  /** A path that ends with a blank comes back without it. */
  lemma TrailingBlankLost()
    ensures Entries(LinesOf(SavedText([Entry("/a ", "")]))) != [Entry("/a ", "")]
  {
    var es := [Entry("/a ", "")];
    assert es[0] in es && es[0].ToString() == "/a " + "";
    SaveLoadExactly(es);
  }

  // ---------------------------------------------------------------------------------------------
  // The operations on the index
  // ---------------------------------------------------------------------------------------------

  predicate HasPath(es: seq<Entry>, path: string) {
    exists i :: 0 <= i < |es| && es[i].symbolPath == path
  }

  /** No two entries have the same symbol path. */
  predicate DistinctPaths(es: seq<Entry>) {
    forall i, j :: 0 <= i < j < |es| ==> es[i].symbolPath != es[j].symbolPath
  }

  function Added(es: seq<Entry>, e: Entry): (r: seq<Entry>)
    ensures HasPath(r, e.symbolPath)
    ensures r == es || (!HasPath(es, e.symbolPath) && r == es + [e])
  {
    if HasPath(es, e.symbolPath) then es
    else
      assert (es + [e])[|es|] == e;
      es + [e]
  }

  function AddedAll(es: seq<Entry>, more: seq<Entry>): (r: seq<Entry>)
    decreases |more|
  {
    if more == [] then es else Added(AddedAll(es, more[..|more| - 1]), more[|more| - 1])
  }

  /** The first entry with a path is dropped. */
  function Removed(es: seq<Entry>, path: string): (r: seq<Entry>) {
    if es == [] then [] else if es[0].symbolPath == path then es[1..] else [es[0]] + Removed(es[1..], path)
  }

  lemma AddedDistinct(es: seq<Entry>, e: Entry)
    requires DistinctPaths(es)
    ensures DistinctPaths(Added(es, e))
  {
  }

  lemma {:induction false} AddedAllKeeps(es: seq<Entry>, more: seq<Entry>)
    ensures es <= AddedAll(es, more)
    ensures forall i :: 0 <= i < |more| ==> HasPath(AddedAll(es, more), more[i].symbolPath)
    ensures DistinctPaths(es) ==> DistinctPaths(AddedAll(es, more))
    decreases |more|
  {
    if more != [] {
      var init, e := more[..|more| - 1], more[|more| - 1];
      AddedAllKeeps(es, init);
      var before, after := AddedAll(es, init), AddedAll(es, more);
      if DistinctPaths(es) {
        AddedDistinct(before, e);
      }
      forall i | 0 <= i < |more|
        ensures HasPath(after, more[i].symbolPath)
      {
        if i < |init| {
          assert HasPath(before, init[i].symbolPath);
          var k :| 0 <= k < |before| && before[k].symbolPath == init[i].symbolPath;
          assert after[k] == before[k];
        }
      }
    }
  }

  /** The entry at `i` is new: its path is neither in the list nor earlier in the file. */
  ghost predicate IsNew(es: seq<Entry>, more: seq<Entry>, i: nat)
    requires i < |more|
  {
    && !HasPath(es, more[i].symbolPath)
    && forall j :: 0 <= j < i ==> more[j].symbolPath != more[i].symbolPath
  }

  /** What a file adds: exactly its new entries, as they are and in their order, at `news`. */
  ghost predicate AddsAt(es: seq<Entry>, more: seq<Entry>, r: seq<Entry>, news: seq<nat>) {
    && |r| == |es| + |news| && es <= r
    && (forall k :: 0 <= k < |news| ==> news[k] < |more| && r[|es| + k] == more[news[k]])
    && (forall k, l :: 0 <= k < l < |news| ==> news[k] < news[l])
    && (forall i :: 0 <= i < |more| ==> (i in news <==> IsNew(es, more, i)))
  }

  lemma PathsMore(es: seq<Entry>, e: Entry, path: string)
    ensures HasPath(es + [e], path) <==> HasPath(es, path) || e.symbolPath == path
  {
    var r := es + [e];
    assert forall i :: 0 <= i < |es| ==> r[i] == es[i];
    assert r[|es|] == e;
  }

  lemma AddedPaths(es: seq<Entry>, e: Entry, path: string)
    ensures HasPath(Added(es, e), path) <==> HasPath(es, path) || e.symbolPath == path
  {
    PathsMore(es, e, path);
  }

  /** A path is in the list after some additions exactly when it was, or was offered. */
  lemma {:induction false} AddedAllPaths(es: seq<Entry>, more: seq<Entry>, path: string)
    ensures HasPath(AddedAll(es, more), path) <==> HasPath(es, path) || HasPath(more, path)
    decreases |more|
  {
    if more != [] {
      var init, e := more[..|more| - 1], more[|more| - 1];
      AddedAllPaths(es, init, path);
      AddedPaths(AddedAll(es, init), e, path);
      PathsMore(init, e, path);
      assert more == init + [e];
    }
  }

  lemma NewExactly(es: seq<Entry>, more: seq<Entry>, i: nat)
    requires i < |more|
    ensures IsNew(es, more, i) <==> !HasPath(AddedAll(es, more[..i]), more[i].symbolPath)
  {
    AddedAllPaths(es, more[..i], more[i].symbolPath);
    assert HasPath(more[..i], more[i].symbolPath) <==> exists j :: 0 <= j < i && more[..i][j].symbolPath == more[i].symbolPath;
    assert forall j :: 0 <= j < i ==> more[..i][j] == more[j];
  }

  lemma AddsNext(es: seq<Entry>, more: seq<Entry>, r: seq<Entry>, news: seq<nat>, e: Entry)
    requires AddsAt(es, more, r, news)
    ensures var all := more + [e];
            if IsNew(es, all, |more|) then AddsAt(es, all, r + [e], news + [|more|]) else AddsAt(es, all, r, news)
  {
    var all := more + [e];
    forall i | 0 <= i < |more|
      ensures IsNew(es, all, i) <==> IsNew(es, more, i)
    {
      assert all[i] == more[i] && forall j :: 0 <= j < i ==> all[j] == more[j];
    }
    assert |more| !in news;
    if IsNew(es, all, |more|) {
      var news' := news + [|more|];
      assert forall i :: i in news' <==> i in news || i == |more|;
    }
  }

  /** Adding a file appends exactly its entries with new paths, each with its own build directory, in order. */
  lemma {:induction false} AddedAllExactly(es: seq<Entry>, more: seq<Entry>) returns (news: seq<nat>)
    ensures AddsAt(es, more, AddedAll(es, more), news)
    decreases |more|
  {
    if more == [] {
      news := [];
    } else {
      var k := |more| - 1;
      news := AddedAllExactly(es, more[..k]);
      NewExactly(es, more, k);
      assert more == more[..k] + [more[k]];
      AddsNext(es, more[..k], AddedAll(es, more[..k]), news, more[k]);
      if IsNew(es, more, k) {
        news := news + [k];
      }
    }
  }

  lemma {:induction false} AddedAllNothing(es: seq<Entry>, more: seq<Entry>)
    requires forall i :: 0 <= i < |more| ==> HasPath(es, more[i].symbolPath)
    ensures AddedAll(es, more) == es
    decreases |more|
  {
    if more != [] {
      AddedAllNothing(es, more[..|more| - 1]);
    }
  }

  /** Adding the same file again changes nothing. */
  lemma AddAllTwice(es: seq<Entry>, more: seq<Entry>)
    ensures AddedAll(AddedAll(es, more), more) == AddedAll(es, more)
  {
    AddedAllKeeps(es, more);
    AddedAllNothing(AddedAll(es, more), more);
  }

  /** The index of the first entry with a path, or |es|. */
  function FirstAt(es: seq<Entry>, path: string): (i: nat)
    ensures i <= |es|
    ensures forall j :: 0 <= j < i ==> es[j].symbolPath != path
    ensures i < |es| ==> es[i].symbolPath == path
  {
    if es == [] || es[0].symbolPath == path then 0 else 1 + FirstAt(es[1..], path)
  }

  lemma {:induction false} RemovedAt(es: seq<Entry>, path: string, i: nat)
    requires i <= |es| && (forall j :: 0 <= j < i ==> es[j].symbolPath != path)
    requires i < |es| ==> es[i].symbolPath == path
    ensures Removed(es, path) == if i < |es| then es[..i] + es[i + 1..] else es
    decreases i
  {
    if i > 0 {
      RemovedAt(es[1..], path, i - 1);
    }
  }

  /** Removing drops the first entry with the path and keeps the others in order. */
  lemma {:induction false} RemovedFirst(es: seq<Entry>, path: string)
    ensures var i := FirstAt(es, path);
            Removed(es, path) == if i < |es| then es[..i] + es[i + 1..] else es
  {
    RemovedAt(es, path, FirstAt(es, path));
  }

  lemma CutDistinct(es: seq<Entry>, i: nat)
    requires DistinctPaths(es) && i < |es|
    ensures var r := es[..i] + es[i + 1..]; DistinctPaths(r) && !HasPath(r, es[i].symbolPath)
  {
    var r := es[..i] + es[i + 1..];
    forall j | 0 <= j < |r|
      ensures r[j] == es[if j < i then j else j + 1]
    {
    }
  }

  /** Where paths are distinct, removing leaves them distinct and the path gone. */
  lemma RemovedDistinct(es: seq<Entry>, path: string)
    requires DistinctPaths(es)
    ensures DistinctPaths(Removed(es, path)) && !HasPath(Removed(es, path), path)
  {
    var i := FirstAt(es, path);
    RemovedFirst(es, path);
    if i < |es| {
      CutDistinct(es, i);
    }
  }

  /** The calls that change the list of entries, on paths that are canonical already. */
  datatype Change = AddEntry(e: Entry) | AddEntries(more: seq<Entry>) | RemovePath(path: string)

  ghost function Changed(es: seq<Entry>, changes: seq<Change>): (r: seq<Entry>)
    decreases |changes|
  {
    if changes == [] then es
    else
      var before := Changed(es, changes[..|changes| - 1]);
      match changes[|changes| - 1]
      case AddEntry(e) => Added(before, e)
      case AddEntries(more) => AddedAll(before, more)
      case RemovePath(path) => Removed(before, path)
  }

  /** From a list with distinct paths, no sequence of changes makes two entries share one. */
  lemma {:induction false} ChangesKeepDistinct(es: seq<Entry>, changes: seq<Change>)
    requires DistinctPaths(es)
    ensures DistinctPaths(Changed(es, changes))
    decreases |changes|
  {
    if changes != [] {
      var init := changes[..|changes| - 1];
      ChangesKeepDistinct(es, init);
      var before := Changed(es, init);
      match changes[|changes| - 1]
      case AddEntry(e) => AddedDistinct(before, e);
      case AddEntries(more) => AddedAllKeeps(before, more);
      case RemovePath(path) => RemovedDistinct(before, path);
    }
  }

  /** The entries that AddAll offers, in the order of the rows. */
  function Canonicals(rows: seq<seq<string>>, prefix: string, canonical: string -> string): (es: seq<Entry>)
    ensures |es| == |rows|
  {
    seq(|rows|, i requires 0 <= i < |rows| =>
      if rows[i] == [] then Entry("", "")
      else
        var dir := if |rows[i]| >= 2 then prefix + rows[i][1] else "";
        Entry(canonical(prefix + rows[i][0]), if dir == "" then "" else canonical(dir)))
  }

  /** The first column is the symbol path, the second, if any, the build directory; both behind the prefix. */
  lemma CanonicalsAre(rows: seq<seq<string>>, prefix: string, canonical: string -> string, i: nat)
    requires i < |rows| && rows[i] != []
    ensures var e := Canonicals(rows, prefix, canonical)[i];
            && e.symbolPath == canonical(prefix + rows[i][0])
            && (|rows[i]| < 2 ==> e.buildDir == "")
            && (|rows[i]| >= 2 && prefix + rows[i][1] != "" ==> e.buildDir == canonical(prefix + rows[i][1]))
  {
  }

  lemma {:induction false} RowsNotEmpty(lines: seq<string>, sep: char, i: nat)
    requires IsBlank(sep) && i < |Rows(lines, sep)|
    ensures Rows(lines, sep)[i] != []
    decreases |lines|
  {
    if RowOf(lines[0], sep).None? {
      RowsNotEmpty(lines[1..], sep, i);
    } else if i == 0 {
      RowNotEmpty(lines[0], sep);
    } else {
      RowsNotEmpty(lines[1..], sep, i - 1);
    }
  }

  function EntriesOfRows(rows: seq<seq<string>>): (es: seq<Entry>)
    decreases |rows|
  {
    if rows == [] then []
    else
      EntriesOfRows(rows[..|rows| - 1]) +
      match EntryOf(rows[|rows| - 1]) case None => [] case Some(e) => [e]
  }

  lemma EntriesOfRowsNext(rows: seq<seq<string>>, i: nat)
    requires i < |rows|
    ensures EntriesOfRows(rows[..i + 1]) ==
            EntriesOfRows(rows[..i]) + match EntryOf(rows[i]) case None => [] case Some(e) => [e]
  {
    assert rows[..i + 1][..i] == rows[..i];
  }

  lemma {:induction false} EntriesOfRowsCons(row: seq<string>, rows: seq<seq<string>>)
    ensures EntriesOfRows([row] + rows) == (match EntryOf(row) case None => [] case Some(e) => [e]) + EntriesOfRows(rows)
    decreases |rows|
  {
    var all := [row] + rows;
    if rows == [] {
      assert all[..0] == [];
    } else {
      assert all[..|all| - 1] == [row] + rows[..|rows| - 1];
      EntriesOfRowsCons(row, rows[..|rows| - 1]);
    }
  }

  lemma {:induction false} RowsToEntries(lines: seq<string>)
    ensures EntriesOfRows(Rows(lines, '\t')) == Entries(lines)
    decreases |lines|
  {
    if lines != [] {
      RowsToEntries(lines[1..]);
      if RowOf(lines[0], '\t').Some? {
        EntriesOfRowsCons(RowOf(lines[0], '\t').value, Rows(lines[1..], '\t'));
      } else {
        assert Rows(lines, '\t') == Rows(lines[1..], '\t');
      }
    }
  }

  class SymbolIndex {
    var entries: seq<Entry>

    constructor ()
      ensures entries == []
    {
      entries := [];
    }

    /** The loop of Load over the rows of the file. */
    method AppendRows(rows: seq<seq<string>>)
      modifies this
      ensures entries == old(entries) + EntriesOfRows(rows)
    {
      for i := 0 to |rows|
        invariant entries == old(entries) + EntriesOfRows(rows[..i])
      {
        EntriesOfRowsNext(rows, i);
        var e := EntryOf(rows[i]);
        if e.Some? {
          entries := entries + [e.value];
        }
      }
      assert rows[..|rows|] == rows;
    }

    /** Load; None is a file that does not exist, and no error. */
    method Load(file: Option<Input>) returns (ok: bool)
      modifies this
      ensures ok <==> file.None? || Readable(file.value)
      ensures entries == if file.Some? && Readable(file.value) then Entries(LinesOf(file.value.text)) else []
    {
      entries := [];
      if file.None? {
        return true;
      }
      var rows;
      ok, rows := Read(file.value, '\t');
      if ok {
        AppendRows(rows);
        RowsToEntries(LinesOf(file.value.text));
      }
    }

    /** Save; None is a file that cannot be opened. */
    method Save(writable: bool) returns (text: Option<string>)
      ensures text == if writable then Some(SavedText(entries)) else None
    {
      if !writable {
        return None;
      }
      var saved := "";
      for i := 0 to |entries|
        invariant saved + SavedText(entries[i..]) == SavedText(entries)
      {
        Regroup(saved, entries[i].ToString() + "\n", SavedText(entries[i + 1..]));
        assert entries[i..][1..] == entries[i + 1..];
        saved := saved + (entries[i].ToString() + "\n");
      }
      assert saved + SavedText([]) == saved;
      text := Some(saved);
    }

    /** `canonical` is the lexical normalisation of paths. */
    method Add(symbolPath: string, buildDir: string, canonical: string -> string) returns (done: bool)
      modifies this
      ensures var e := Entry(canonical(symbolPath), if buildDir == "" then "" else canonical(buildDir));
              && entries == Added(old(entries), e)
              && (done <==> !HasPath(old(entries), e.symbolPath))
              && entries == if done then old(entries) + [e] else old(entries)
    {
      var path := canonical(symbolPath);
      var dir := if buildDir == "" then "" else canonical(buildDir);
      if HasPath(entries, path) {
        return false;
      }
      entries := entries + [Entry(path, dir)];
      done := true;
    }

    method AddAll(input: Input, prefix: string, canonical: string -> string) returns (ok: bool)
      modifies this
      ensures ok <==> Readable(input)
      ensures !ok ==> entries == old(entries)
      ensures ok ==>
                entries == AddedAll(old(entries), Canonicals(Rows(LinesOf(input.text), ' '), prefix, canonical))
    {
      var rows;
      ok, rows := Read(input, ' ');
      if !ok {
        return;
      }
      ghost var more := Canonicals(rows, prefix, canonical);
      for i := 0 to |rows|
        invariant entries == AddedAll(old(entries), more[..i])
      {
        RowsNotEmpty(LinesOf(input.text), ' ', i);
        var path := prefix + rows[i][0];
        var dir := if |rows[i]| >= 2 then prefix + rows[i][1] else "";
        var done := Add(path, dir, canonical);
        assert more[..i + 1][..i] == more[..i];
      }
      assert more[..|rows|] == more;
    }

    method Remove(symbolPath: string, canonical: string -> string) returns (done: bool)
      modifies this
      ensures entries == Removed(old(entries), canonical(symbolPath))
      ensures done <==> HasPath(old(entries), canonical(symbolPath))
    {
      var path := canonical(symbolPath);
      var i := 0;
      while i < |entries| && entries[i].symbolPath != path
        invariant 0 <= i <= |entries|
        invariant forall j :: 0 <= j < i ==> entries[j].symbolPath != path
      {
        i := i + 1;
      }
      RemovedAt(entries, path, i);
      if i == |entries| {
        return false;
      }
      entries := entries[..i] + entries[i + 1..];
      done := true;
    }
  }
}
