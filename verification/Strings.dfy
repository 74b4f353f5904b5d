/** Splitting and joining text, shared by the models of the parsers. */
module Strings {
  import opened Machine

  /** The index of the first `c`, or |s|. */
  function IndexOf(s: string, c: char): (i: nat)
    ensures i <= |s|
    ensures forall j :: 0 <= j < i ==> s[j] != c
    ensures i < |s| ==> s[i] == c
  {
    if s == "" || s[0] == c then 0 else 1 + IndexOf(s[1..], c)
  }

  /** The pieces between the separators; a text without separators is its own only piece. */
  function Pieces(s: string, sep: char): (p: seq<string>)
    ensures p != []
    decreases |s|
  {
    var i := IndexOf(s, sep);
    if i == |s| then [s] else [s[..i]] + Pieces(s[i + 1..], sep)
  }

  /** No piece holds a separator. */
  lemma {:induction false} PiecesFree(s: string, sep: char)
    ensures forall x :: x in Pieces(s, sep) ==> sep !in x
    decreases |s|
  {
    var i := IndexOf(s, sep);
    if i < |s| {
      PiecesFree(s[i + 1..], sep);
    }
  }

  function Join(p: seq<string>, sep: char): (s: string)
    requires p != []
  {
    if |p| == 1 then p[0] else p[0] + [sep] + Join(p[1..], sep)
  }

  lemma JoinCons(first: string, rest: seq<string>, sep: char)
    requires rest != []
    ensures Join([first] + rest, sep) == first + [sep] + Join(rest, sep)
  {
    assert ([first] + rest)[1..] == rest;
  }

  lemma CutAround(s: string, i: nat)
    requires i < |s|
    ensures s[..i] + [s[i]] + s[i + 1..] == s
  {
  }

  lemma {:induction false} JoinPieces(s: string, sep: char)
    ensures Join(Pieces(s, sep), sep) == s
    decreases |s|
  {
    var i := IndexOf(s, sep);
    if i < |s| {
      JoinPieces(s[i + 1..], sep);
      JoinCons(s[..i], Pieces(s[i + 1..], sep), sep);
      CutAround(s, i);
    }
  }

  lemma {:induction false} IndexOfFirst(a: string, b: string, c: char)
    requires c !in a
    ensures IndexOf(a + [c] + b, c) == |a|
    decreases |a|
  {
    if a != "" {
      assert (a + [c] + b)[1..] == a[1..] + [c] + b;
      assert a[0] in a;
      IndexOfFirst(a[1..], b, c);
    }
  }

  lemma IndexOfNone(a: string, c: char)
    requires c !in a
    ensures IndexOf(a, c) == |a|
  {
  }

  lemma PiecesCons(first: string, tail: string, sep: char)
    requires sep !in first
    ensures Pieces(first + [sep] + tail, sep) == [first] + Pieces(tail, sep)
  {
    var s := first + [sep] + tail;
    IndexOfFirst(first, tail, sep);
    assert s[..|first|] == first && s[|first| + 1..] == tail;
  }

  lemma {:induction false} PiecesJoin(p: seq<string>, sep: char)
    requires p != [] && forall x :: x in p ==> sep !in x
    ensures Pieces(Join(p, sep), sep) == p
    decreases |p|
  {
    assert p[0] in p;
    if |p| == 1 {
      IndexOfNone(p[0], sep);
    } else {
      PiecesCons(p[0], Join(p[1..], sep), sep);
      PiecesJoin(p[1..], sep);
      assert p == [p[0]] + p[1..];
    }
  }

  /** The first of the remaining pieces, and the rest. */
  lemma PiecesFrom(s: string, start: nat, end: nat, sep: char)
    requires start <= |s| && end == start + IndexOf(s[start..], sep)
    ensures end <= |s|
    ensures end == |s| ==> Pieces(s[start..], sep) == [s[start..end]]
    ensures end < |s| ==> Pieces(s[start..], sep) == [s[start..end]] + Pieces(s[end + 1..], sep)
  {
    assert s[start..][..end - start] == s[start..end];
    if end < |s| {
      assert s[start..][end - start + 1..] == s[end + 1..];
    } else {
      assert s[start..end] == s[start..];
    }
  }

  function NonEmpty(p: seq<string>): (r: seq<string>) {
    if p == [] then [] else (if p[0] == "" then [] else [p[0]]) + NonEmpty(p[1..])
  }

  /** Exactly the pieces that are not empty. */
  lemma {:induction false} NonEmptyExactly(p: seq<string>, x: string)
    ensures x in NonEmpty(p) <==> x in p && x != ""
    decreases |p|
  {
    if p != [] {
      NonEmptyExactly(p[1..], x);
      assert x in p <==> x == p[0] || x in p[1..];
    }
  }

  lemma {:induction false} NonEmptyAll(p: seq<string>)
    requires "" !in p
    ensures NonEmpty(p) == p
    decreases |p|
  {
    if p != [] {
      assert p[0] in p;
      NonEmptyAll(p[1..]);
    }
  }

  lemma {:induction false} NonEmptyAppend(p: seq<string>, x: string)
    ensures NonEmpty(p + [x]) == NonEmpty(p) + (if x == "" then [] else [x])
    decreases |p|
  {
    if p != [] {
      assert (p + [x])[1..] == p[1..] + [x];
      NonEmptyAppend(p[1..], x);
    } else {
      assert (p + [x])[1..] == [];
    }
  }

  /** What fxl::SplitString yields for one delimiter. */
  function Splitted(src: string, delimiter: char, wantAll: bool): (r: seq<string>) {
    if src == "" then []
    else if wantAll then Pieces(src, delimiter)
    else NonEmpty(Pieces(src, delimiter))
  }

  /** The pieces found so far and those still to come make up the whole; `start` is -1 at the end. */
  ghost predicate SplitUpTo(src: string, sep: char, wantAll: bool, start: int, pieces: seq<string>, r: seq<string>) {
    && -1 <= start <= |src|
    && Pieces(src, sep) == (if start == -1 then pieces else pieces + Pieces(src[start..], sep))
    && r == if wantAll then pieces else NonEmpty(pieces)
  }

  lemma SplitStep(src: string, sep: char, wantAll: bool, start: nat, end: nat, pieces: seq<string>, r: seq<string>)
    requires SplitUpTo(src, sep, wantAll, start, pieces, r) && end == start + IndexOf(src[start..], sep)
    ensures var view := src[start..end];
            SplitUpTo(src, sep, wantAll, if end == |src| then -1 else end + 1, pieces + [view],
                      if wantAll || view != "" then r + [view] else r)
  {
    var view := src[start..end];
    PiecesFrom(src, start, end, sep);
    NonEmptyAppend(pieces, view);
    if end < |src| {
      Regroup(pieces, [view], Pieces(src[end + 1..], sep));
    }
  }

  /** fxl::SplitString with kKeepWhitespace; a start of -1 is npos. */
  method SplitString(src: string, delimiter: char, wantAll: bool) returns (r: seq<string>)
    ensures r == Splitted(src, delimiter, wantAll)
  {
    r := [];
    if src == "" {
      return;
    }
    var start := 0;
    ghost var pieces: seq<string> := [];
    assert src[0..] == src;
    while start != -1
      invariant SplitUpTo(src, delimiter, wantAll, start, pieces, r)
      decreases if start == -1 then 0 else |src| + 1 - start
    {
      var end := start + IndexOf(src[start..], delimiter);
      var view := src[start..end];
      SplitStep(src, delimiter, wantAll, start, end, pieces, r);
      start := if end == |src| then -1 else end + 1;
      pieces := pieces + [view];
      if wantAll || view != "" {
        r := r + [view];
      }
    }
  }

  /** The lines that getline yields: a line break at the very end starts no further line. */
  function LinesOf(text: string): (lines: seq<string>)
    decreases |text|
  {
    if text == "" then []
    else
      var i := IndexOf(text, '\n');
      if i == |text| then [text] else [text[..i]] + LinesOf(text[i + 1..])
  }

  /** What follows the first line. */
  function AfterLine(text: string): (rest: string)
    ensures text != "" ==> |rest| < |text|
  {
    var i := IndexOf(text, '\n');
    if i == |text| then "" else text[i + 1..]
  }

  lemma FirstLine(text: string)
    requires text != ""
    ensures LinesOf(text) == [text[..IndexOf(text, '\n')]] + LinesOf(AfterLine(text))
  {
    var i := IndexOf(text, '\n');
    if i == |text| {
      assert text[..i] == text;
    }
  }

  /** No line holds a line break. */
  lemma {:induction false} LinesFree(text: string)
    ensures forall x :: x in LinesOf(text) ==> '\n' !in x
    decreases |text|
  {
    if text != "" {
      FirstLine(text);
      LinesFree(AfterLine(text));
    }
  }

  /** Lines, each with its line break. */
  function Ended(lines: seq<string>): (text: string) {
    if lines == [] then "" else lines[0] + "\n" + Ended(lines[1..])
  }

  lemma LineThenRest(line: string, rest: string)
    requires '\n' !in line
    ensures LinesOf(line + "\n" + rest) == [line] + LinesOf(rest)
  {
    var text := line + "\n" + rest;
    IndexOfFirst(line, rest, '\n');
    assert text[..|line|] == line && text[|line| + 1..] == rest;
    FirstLine(text);
  }

  /** Written lines are read back, with or without a line break at the end of a last line that is not empty. */
  lemma {:induction false} LinesRoundTrip(lines: seq<string>, last: string)
    requires '\n' !in last && forall x :: x in lines ==> '\n' !in x
    ensures LinesOf(Ended(lines) + last) == lines + if last == "" then [] else [last]
    decreases |lines|
  {
    if lines == [] {
      assert Ended(lines) + last == last;
      IndexOfNone(last, '\n');
    } else {
      assert lines[0] in lines;
      LinesRoundTrip(lines[1..], last);
      LineThenRest(lines[0], Ended(lines[1..]) + last);
      Regroup(lines[0] + "\n", Ended(lines[1..]), last);
    }
  }
}
