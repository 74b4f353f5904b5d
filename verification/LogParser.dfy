/** Integers in text, as std::from_chars reads them. */
module Numerals {
  import opened Machine

  predicate IsBase(base: nat) {
    base == 10 || base == 16
  }

  /** The value of a digit, 16 for any other character; both cases of letters count. */
  function DigitValue(c: char): (d: nat)
    ensures d <= 16
  {
    if '0' <= c <= '9' then c as int - '0' as int
    else if 'a' <= c <= 'f' then c as int - 'a' as int + 10
    else if 'A' <= c <= 'F' then c as int - 'A' as int + 10
    else 16
  }

  /** Ten figures, six letters in either case, and nothing else. */
  lemma DigitsAre(c: char)
    ensures forall k :: 0 <= k < 10 ==> DigitValue("0123456789"[k]) == k
    ensures forall k :: 0 <= k < 6 ==> DigitValue("abcdef"[k]) == DigitValue("ABCDEF"[k]) == 10 + k
    ensures DigitValue(c) < 16 ==> c in "0123456789" || c in "abcdef" || c in "ABCDEF"
  {
    var d := DigitValue(c);
    if d < 10 {
      assert c == "0123456789"[d];
    } else if d < 16 {
      assert c == "abcdef"[d - 10] || c == "ABCDEF"[d - 10];
    }
  }

  function Digit(d: nat): (c: char)
    requires d < 16
    ensures DigitValue(c) == d && (d < 10 ==> '0' <= c <= '9')
  {
    if d < 10 then '0' + d as char else 'a' + (d - 10) as char
  }

  predicate AllDigits(s: string, base: nat) {
    forall i :: 0 <= i < |s| ==> DigitValue(s[i]) < base
  }

  function ValueOf(s: string, base: nat): (v: nat)
    requires IsBase(base) && AllDigits(s, base)
  {
    if s == "" then 0
    else
      var v := ValueOf(s[..|s| - 1], base);
      (if base == 10 then 10 * v else 16 * v) + DigitValue(s[|s| - 1])
  }

  function Digits(n: nat, base: nat): (s: string)
    requires IsBase(base)
    ensures s != "" && AllDigits(s, base)
  {
    if n < base then [Digit(n)] else Digits(n / base, base) + [Digit(n % base)]
  }

  lemma {:induction false} DigitsValue(n: nat, base: nat)
    requires IsBase(base)
    ensures ValueOf(Digits(n, base), base) == n
    decreases n
  {
    if n >= base {
      var init := Digits(n / base, base);
      DigitsValue(n / base, base);
      assert (init + [Digit(n % base)])[..|init|] == init;
      if base == 10 {
        assert n == (n / 10) * 10 + n % 10;
      } else {
        assert n == (n / 16) * 16 + n % 16;
      }
    }
  }

  /**
   * The outcome of ParseInt for a field. An overflow is accepted because the whole field was consumed,
   * but the variable is left as it was.
   */
  datatype ParsedInt = Rejected | Overflow | Value(v: int)

  function ParseMagnitude(negative: bool, digits: string, base: nat, lo: int, hi: nat): (r: ParsedInt)
    requires IsBase(base)
  {
    if digits == "" || !AllDigits(digits, base) then Rejected
    else
      var v: int := if negative then 0 - ValueOf(digits, base) else ValueOf(digits, base);
      if lo <= v <= hi then Value(v) else Overflow
  }

  /** `lo` is 0 for the unsigned types, which know no sign. */
  function ParseDigits(s: string, base: nat, lo: int, hi: nat): (r: ParsedInt)
    requires IsBase(base)
  {
    if lo < 0 && s != "" && s[0] == '-' then ParseMagnitude(true, s[1..], base, lo, hi)
    else ParseMagnitude(false, s, base, lo, hi)
  }

  function ParseInt(s: string, lo: int, hi: nat): (r: ParsedInt) {
    if |s| > 2 && s[0] == '0' && s[1] == 'x' then ParseDigits(s[2..], 16, lo, hi)
    else ParseDigits(s, 10, lo, hi)
  }

  /** A number as the markup may hold it: in decimal or, behind "0x", in hexadecimal. */
  function Numeral(n: int, hex: bool): (s: string) {
    (if hex then "0x" else "") + ((if n < 0 then "-" else "") + Digits(if n < 0 then -n else n, if hex then 16 else 10))
  }

  /** Any digits, with or without a sign. */
  lemma DigitsParse(digits: string, negative: bool, base: nat, lo: int, hi: nat)
    requires IsBase(base) && lo <= 0 && digits != "" && AllDigits(digits, base)
    ensures var v := if negative then 0 - ValueOf(digits, base) else ValueOf(digits, base);
            ParseDigits((if negative then "-" else "") + digits, base, lo, hi) ==
            if negative && lo == 0 then Rejected else if lo <= v <= hi then Value(v) else Overflow
  {
    assert DigitValue('-') == 16 && DigitValue(digits[0]) < base;
    if negative {
      assert ("-" + digits)[1..] == digits && ("-" + digits)[0] == '-';
    } else {
      assert "" + digits == digits;
    }
  }

  lemma PrefixParses(digits: string, negative: bool, hex: bool, lo: int, hi: nat)
    requires digits != "" && AllDigits(digits, if hex then 16 else 10)
    ensures var body := (if negative then "-" else "") + digits;
            ParseInt((if hex then "0x" else "") + body, lo, hi) == ParseDigits(body, if hex then 16 else 10, lo, hi)
  {
    var body := (if negative then "-" else "") + digits;
    if hex {
      assert ("0x" + body)[2..] == body;
    } else {
      assert "" + body == body;
      assert negative ==> body[0] == '-';
      assert !negative ==> body == digits;
      assert |digits| > 1 ==> DigitValue(digits[1]) < 10;
      assert DigitValue('x') == 16;
    }
  }

  /**
   * Every number, in either base and for every integer type: it is read back when it fits, refused when
   * it is negative and the type has no sign, and otherwise taken for a number all the same.
   */
  lemma NumeralParses(n: int, hex: bool, lo: int, hi: nat)
    requires lo <= 0
    ensures ParseInt(Numeral(n, hex), lo, hi) ==
            if n < 0 && lo == 0 then Rejected else if lo <= n <= hi then Value(n) else Overflow
  {
    var base, size := if hex then 16 else 10, if n < 0 then -n else n;
    var digits := Digits(size, base);
    DigitsValue(size, base);
    PrefixParses(digits, n < 0, hex, lo, hi);
    DigitsParse(digits, n < 0, base, lo, hi);
  }

  /** Digits of a base, behind a sign when the type has one. */
  predicate Spells(s: string, base: nat, signed: bool) {
    (s != "" && AllDigits(s, base)) || (signed && |s| > 1 && s[0] == '-' && AllDigits(s[1..], base))
  }

  /** Exactly the fields that are not taken for a number. */
  lemma RejectedExactly(s: string, lo: int, hi: nat)
    requires lo <= 0
    ensures ParseInt(s, lo, hi) == Rejected <==>
            !(if |s| > 2 && s[..2] == "0x" then Spells(s[2..], 16, lo < 0) else Spells(s, 10, lo < 0))
  {
    assert |s| > 2 ==> (s[..2] == "0x" <==> s[0] == '0' && s[1] == 'x');
    assert DigitValue('-') == 16;
  }
}

/** The log parser: lines with markup become calls of the symbolizer, all others are echoed. */
module LogParser {
  import opened Machine
  import opened Strings
  import opened Numerals
  import opened SymbolizerIndex

  datatype AddressType = Unknown | ReturnAddress | ProgramCounter

  datatype Call =
    | Table(c: Command)
    | Backtrace(frame: int, address: U64, kind: AddressType, message: string)

  const MAX64: nat := 0xFFFF_FFFF_FFFF_FFFF
  const MAX_INT: nat := 0x7FFF_FFFF
  const MIN_INT: int := -0x8000_0000

  /** What the uninitialised variable of each field happens to hold. */
  datatype Junk = Junk(word: nat -> U64, frame: int)

  function Word(fields: seq<string>, i: nat, junk: Junk): (r: Option<U64>)
    requires i < |fields|
  {
    match ParseInt(fields[i], 0, MAX64)
    case Rejected => None
    case Overflow => Some(junk.word(i))
    case Value(v) => Some(v)
  }

  function Frame(field: string, junk: Junk): (r: Option<int>) {
    match ParseInt(field, MIN_INT, MAX_INT)
    case Rejected => None
    case Overflow => Some(junk.frame)
    case Value(v) => Some(v)
  }

  function ModuleCall(f: seq<string>, junk: Junk): (r: Option<Call>) {
    if |f| < 5 then None
    else
      var id := Word(f, 1, junk);
      if id.None? || f[3] != "elf" then None else Some(Table(AddModule(id.value, f[2], f[4])))
  }

  function MMapCall(f: seq<string>, junk: Junk): (r: Option<Call>) {
    if |f| < 7 then None
    else
      var address, size, id, offset := Word(f, 1, junk), Word(f, 2, junk), Word(f, 4, junk), Word(f, 6, junk);
      if address.None? || size.None? || id.None? || offset.None? || f[3] != "load" then None
      else Some(Table(MMap(address.value, size.value, id.value, offset.value)))
  }

  function BacktraceCall(f: seq<string>, junk: Junk): (r: Option<Call>) {
    if |f| < 3 then None
    else
      var frame, address := Frame(f[1], junk), Word(f, 2, junk);
      if frame.None? || address.None? then None
      else
        var kind := if |f| < 4 then Unknown
                    else if f[3] == "ra" then ReturnAddress
                    else if f[3] == "pc" then ProgramCounter
                    else Unknown;
        var message := if |f| >= 5 then f[4]
                       else if |f| == 4 && kind == Unknown then f[3]
                       else "";
        Some(Backtrace(frame.value, address.value, kind, message))
  }

  /** ProcessMarkup on the fields of the markup. */
  function CallOf(f: seq<string>, junk: Junk): (r: Option<Call>) {
    if f == [] then None
    else if f[0] == "reset" then Some(Table(Reset))
    else if f[0] == "module" then ModuleCall(f, junk)
    else if f[0] == "mmap" then MMapCall(f, junk)
    else if f[0] == "bt" then BacktraceCall(f, junk)
    else None
  }

  // ---------------------------------------------------------------------------------------------
  // Lines
  // ---------------------------------------------------------------------------------------------

  predicate Triple(s: string, i: nat, c: char) {
    i + 3 <= |s| && s[i] == c && s[i + 1] == c && s[i + 2] == c
  }

  /** The first triple of `c` at or after `from`, or |s| when there is none. */
  function FindTriple(s: string, from: nat, c: char): (i: nat)
    requires from <= |s|
    ensures from <= i <= |s|
    ensures i < |s| ==> Triple(s, i, c)
    ensures forall j :: from <= j < i ==> !Triple(s, j, c)
    decreases |s| - from
  {
    if from == |s| || Triple(s, from, c) then from else FindTriple(s, from + 1, c)
  }

  /** The text before the markup and the markup itself, when the line has both braces. */
  function MarkupOf(line: string): (r: Option<(string, string)>) {
    var start := FindTriple(line, 0, '{');
    if start == |line| then None
    else
      var end := FindTriple(line, start, '}');
      if end == |line| then None
      else Some((line[..start], line[start + 3..end]))
  }

  /** What one line does: a call, with the context it sets, or an echo of the line. */
  datatype Effect = Calls(context: string, call: Call) | Echoes(line: string)

  function EffectOf(line: string, junk: Junk): (e: Effect) {
    match MarkupOf(line)
    case None => Echoes(line)
    case Some(m) =>
      match CallOf(Splitted(m.1, ':', true), junk)
      case None => Echoes(line)
      case Some(call) => Calls(m.0, call)
  }

  /** The effects of some lines, when the uninitialised variables at line number i hold junk(i). */
  ghost predicate AreEffects(lines: seq<string>, junk: nat -> Junk, effects: seq<Effect>) {
    && |effects| == |lines|
    && forall i :: 0 <= i < |lines| ==> effects[i] == EffectOf(lines[i], junk(i))
  }

  /** The table commands among some effects, in order. */
  ghost function CommandsOf(effects: seq<Effect>): (cmds: seq<Command>)
    decreases |effects|
  {
    if effects == [] then []
    else
      var before, last := CommandsOf(effects[..|effects| - 1]), effects[|effects| - 1];
      if last.Calls? && last.call.Table? then before + [last.call.c] else before
  }

  lemma CommandsAppend(effects: seq<Effect>, e: Effect)
    ensures CommandsOf(effects + [e]) ==
            if e.Calls? && e.call.Table? then CommandsOf(effects) + [e.call.c] else CommandsOf(effects)
  {
    assert (effects + [e])[..|effects|] == effects;
  }

  lemma RunAppend(cmds: seq<Command>, c: Command)
    ensures Run(cmds + [c]) == Apply(Run(cmds), c)
  {
    assert (cmds + [c])[..|cmds|] == cmds;
  }

  /** Some lines have had their effects, the others are still in the input. */
  ghost predicate InProgress(lines: seq<string>, junk: nat -> Junk, effects: seq<Effect>, input: string) {
    && |effects| <= |lines|
    && LinesOf(input) == lines[|effects|..]
    && AreEffects(lines[..|effects|], junk, effects)
  }

  lemma OneMore(
    lines: seq<string>, junk: nat -> Junk, before: seq<Effect>, was: string, effects: seq<Effect>, input: string)
    requires InProgress(lines, junk, before, was) && LinesOf(was) != [] && LinesOf(was)[1..] == LinesOf(input)
    requires effects == before + [EffectOf(LinesOf(was)[0], junk(|before|))]
    ensures InProgress(lines, junk, effects, input)
  {
    var n := |before|;
    assert lines[n] == LinesOf(was)[0];
    assert lines[n + 1..] == lines[n..][1..];
    forall i | 0 <= i < n
      ensures effects[i] == EffectOf(lines[i], junk(i))
    {
      assert lines[..n][i] == lines[i];
    }
  }

  /** The parser with its input stream, the symbolizer's tables and what it has done so far. */
  class Parser {
    const junk: nat -> Junk
    const tables: Tables
    var input: string
    var context: string
    var effects: seq<Effect>

    /** The tables are those of the commands in the lines read so far. */
    ghost predicate Valid()
      reads this, tables
    {
      tables.View() == Run(CommandsOf(effects))
    }

    constructor (input: string, junk: nat -> Junk)
      ensures Valid() && fresh(tables) && this.input == input && this.junk == junk && effects == []
    {
      this.input, this.junk, context, effects := input, junk, "", [];
      tables := new Tables();
    }

    /** The call of the symbolizer; a backtrace only reads the tables. */
    method Dispatch(call: Call)
      modifies tables
      ensures tables.View() == if call.Table? then Apply(old(tables.View()), call.c) else old(tables.View())
    {
      match call
      case Table(Reset) =>
        tables.ResetTables();
      case Table(AddModule(id, name, buildId)) =>
        tables.DeclareModule(id, name, buildId);
      case Table(MMap(address, size, id, offset)) =>
        var note := tables.MapModule(address, size, id, offset);
      case Backtrace(_, address, _, _) =>
        var found := tables.FindModule(address);
    }

    method Echo(line: string)
      requires Valid()
      modifies this`effects
      ensures Valid() && effects == old(effects) + [Echoes(line)]
    {
      CommandsAppend(effects, Echoes(line));
      effects := effects + [Echoes(line)];
    }

    method Perform(call: Call)
      requires Valid()
      modifies this`effects, tables
      ensures Valid() && effects == old(effects) + [Calls(context, call)]
    {
      Dispatch(call);
      CommandsAppend(effects, Calls(context, call));
      if call.Table? {
        RunAppend(CommandsOf(effects), call.c);
      }
      effects := effects + [Calls(context, call)];
    }

    static method ProcessMarkup(markup: string, junk: Junk) returns (call: Option<Call>)
      ensures call == CallOf(Splitted(markup, ':', true), junk)
    {
      var fields := SplitString(markup, ':', true);
      call := CallOf(fields, junk);
    }

    /** The part of ProcessOneLine after the line was read; the context is set also for markup that is not valid. */
    method ProcessLine(line: string)
      requires Valid()
      modifies this`context, this`effects, tables
      ensures Valid()
      ensures effects == old(effects) + [EffectOf(line, junk(|old(effects)|))]
      ensures context == match MarkupOf(line) case None => old(context) case Some(m) => m.0
    {
      var start := FindTriple(line, 0, '{');
      var end := |line|;
      if start != |line| {
        end := FindTriple(line, start, '}');
      }
      if end != |line| {
        context := line[..start];
        var call := ProcessMarkup(line[start + 3..end], junk(|effects|));
        if call.Some? {
          Perform(call.value);
          return;
        }
      }
      Echo(line);
    }

    /** Returns false when there is no more line in the input. */
    method ProcessOneLine() returns (more: bool)
      requires Valid()
      modifies this, tables
      ensures Valid()
      ensures more <==> old(input) != ""
      ensures !more ==> effects == old(effects) && input == old(input)
      ensures more ==>
                && LinesOf(old(input)) != []
                && LinesOf(old(input))[1..] == LinesOf(input)
                && |input| < |old(input)|
                && effects == old(effects) + [EffectOf(LinesOf(old(input))[0], junk(|old(effects)|))]
    {
      var i := IndexOf(input, '\n');
      var line, eof := input[..i], i == |input|;
      if eof && line == "" {
        return false;
      }
      FirstLine(input);
      input := AfterLine(input);
      ProcessLine(line);
      more := true;
    }

    /** The loop of the program: every line has its effect, in order. */
    method ProcessAll()
      requires Valid() && effects == []
      modifies this, tables
      ensures AreEffects(LinesOf(old(input)), junk, effects)
      ensures tables.View() == Run(CommandsOf(effects))
    {
      ghost var lines := LinesOf(input);
      var more := true;
      while more
        invariant Valid() && InProgress(lines, junk, effects, input)
        invariant !more ==> input == ""
        decreases |input|, more
      {
        ghost var before, was := effects, input;
        more := ProcessOneLine();
        if more {
          OneMore(lines, junk, before, was, effects, input);
        }
      }
      assert lines[..|lines|] == lines;
    }
  }

  // ---------------------------------------------------------------------------------------------
  // Rendering
  // ---------------------------------------------------------------------------------------------

  function KindFields(kind: AddressType, message: string): (f: seq<string>) {
    match kind
    case Unknown => if message == "" then [] else [message]
    case ReturnAddress => ["ra"] + if message == "" then [] else [message]
    case ProgramCounter => ["pc"] + if message == "" then [] else [message]
  }

  /**
   * The fields of the commented format; `flags` is the access field of an mmap, and `hex` says which of
   * the numeric fields are in hexadecimal.
   */
  function FieldsOf(call: Call, flags: string, hex: nat -> bool): (f: seq<string>)
    ensures f != []
  {
    match call
    case Table(Reset) => ["reset"]
    case Table(AddModule(id, name, buildId)) => ["module", Numeral(id, hex(1)), name, "elf", buildId]
    case Table(MMap(address, size, id, offset)) =>
      ["mmap", Numeral(address, hex(1)), Numeral(size, hex(2)), "load", Numeral(id, hex(4)), flags, Numeral(offset, hex(6))]
    case Backtrace(frame, address, kind, message) =>
      ["bt", Numeral(frame, hex(1)), Numeral(address, hex(2))] + KindFields(kind, message)
  }

  predicate Renderable(call: Call, flags: string) {
    match call
    case Table(Reset) => true
    case Table(AddModule(id, name, buildId)) => ':' !in name && ':' !in buildId
    case Table(MMap(_, _, _, _)) => ':' !in flags
    case Backtrace(frame, address, kind, message) =>
      && MIN_INT <= frame <= MAX_INT
      && ':' !in message
      && (kind == Unknown ==> message != "ra" && message != "pc")
  }

  function Render(context: string, call: Call, flags: string, hex: nat -> bool, rest: string): (line: string) {
    context + "{{{" + Join(FieldsOf(call, flags, hex), ':') + "}}}" + rest
  }

  lemma NumeralPlain(n: int, hex: bool)
    ensures ':' !in Numeral(n, hex)
  {
    var base := if hex then 16 else 10;
    var s := Digits(if n < 0 then -n else n, base);
    forall i | 0 <= i < |s|
      ensures s[i] != ':'
    {
      assert DigitValue(s[i]) < base;
    }
  }

  lemma FieldsPlain(call: Call, flags: string, hex: nat -> bool)
    requires Renderable(call, flags)
    ensures forall x :: x in FieldsOf(call, flags, hex) ==> ':' !in x
  {
    match call
    case Table(Reset) =>
    case Table(AddModule(id, _, _)) =>
      NumeralPlain(id, hex(1));
    case Table(MMap(address, size, id, offset)) =>
      NumeralPlain(address, hex(1));
      NumeralPlain(size, hex(2));
      NumeralPlain(id, hex(4));
      NumeralPlain(offset, hex(6));
    case Backtrace(frame, address, kind, message) =>
      NumeralPlain(frame, hex(1));
      NumeralPlain(address, hex(2));
  }

  /** No triple of `c` starts before position `n`. */
  predicate NoneBefore(s: string, n: nat, c: char) {
    forall i :: 0 <= i < n ==> !Triple(s, i, c)
  }

  /** A text in front of the opening braces, and a markup in front of the closing ones, that end where they should. */
  predicate Braced(context: string, markup: string) {
    NoneBefore(context + "{{{", |context|, '{') && NoneBefore(markup + "}}}", |markup|, '}')
  }

  lemma ContextEnds(context: string, tail: string)
    ensures var start := FindTriple(context + "{{{" + tail, 0, '{');
            start <= |context| && (start == |context| <==> NoneBefore(context + "{{{", |context|, '{'))
  {
    var line, front := context + "{{{" + tail, context + "{{{";
    assert forall i :: 0 <= i < |front| ==> line[i] == front[i];
    assert forall i :: 0 <= i < |context| ==> Triple(line, i, '{') == Triple(front, i, '{');
    assert Triple(line, |context|, '{');
  }

  lemma MarkupEnds(context: string, markup: string, rest: string)
    ensures var end := FindTriple(context + "{{{" + (markup + "}}}" + rest), |context|, '}');
            && |context| + 3 <= end <= |context| + 3 + |markup|
            && (end == |context| + 3 + |markup| <==> NoneBefore(markup + "}}}", |markup|, '}'))
  {
    var o, line, tail := |context| + 3, context + "{{{" + (markup + "}}}" + rest), markup + "}}}";
    assert forall i :: 0 <= i < |tail| ==> line[o + i] == tail[i];
    assert forall i :: 0 <= i < |markup| ==> Triple(line, o + i, '}') == Triple(tail, i, '}');
    assert Triple(line, o + |markup|, '}');
    var end := FindTriple(line, |context|, '}');
    if end < o + |markup| {
      assert Triple(tail, end - o, '}');
    }
  }

  /** The markup and the context of a line are found exactly when no triple of braces starts too early in them. */
  lemma MarkupFoundExactly(context: string, markup: string, rest: string)
    ensures MarkupOf(context + "{{{" + markup + "}}}" + rest) == Some((context, markup)) <==> Braced(context, markup)
  {
    var line := context + "{{{" + (markup + "}}}" + rest);
    assert line == context + "{{{" + markup + "}}}" + rest;
    ContextEnds(context, markup + "}}}" + rest);
    MarkupEnds(context, markup, rest);
    assert line[..|context|] == context && line[|context| + 3..|context| + 3 + |markup|] == markup;
  }

  lemma WordParses(fields: seq<string>, i: nat, n: U64, hex: bool, junk: Junk)
    requires i < |fields| && fields[i] == Numeral(n, hex)
    ensures Word(fields, i, junk) == Some(n)
  {
    NumeralParses(n, hex, 0, MAX64);
  }

  lemma ModuleParses(id: U64, name: string, buildId: string, hex: nat -> bool, junk: Junk)
    ensures ModuleCall(["module", Numeral(id, hex(1)), name, "elf", buildId], junk) ==
            Some(Table(AddModule(id, name, buildId)))
  {
    WordParses(["module", Numeral(id, hex(1)), name, "elf", buildId], 1, id, hex(1), junk);
  }

  lemma MMapParses(address: U64, size: U64, id: U64, offset: U64, flags: string, hex: nat -> bool, junk: Junk)
    ensures MMapCall(FieldsOf(Table(MMap(address, size, id, offset)), flags, hex), junk) ==
            Some(Table(MMap(address, size, id, offset)))
  {
    var f := FieldsOf(Table(MMap(address, size, id, offset)), flags, hex);
    WordParses(f, 1, address, hex(1), junk);
    WordParses(f, 2, size, hex(2), junk);
    WordParses(f, 4, id, hex(4), junk);
    WordParses(f, 6, offset, hex(6), junk);
  }

  /** How the optional fields behind the address are told apart. */
  lemma KindParses(f: seq<string>, kind: AddressType, message: string, junk: Junk)
    requires |f| == 3 && (kind == Unknown ==> message != "ra" && message != "pc")
    requires Frame(f[1], junk).Some? && Word(f, 2, junk).Some?
    ensures BacktraceCall(f + KindFields(kind, message), junk) ==
            Some(Backtrace(Frame(f[1], junk).value, Word(f, 2, junk).value, kind, message))
  {
    var g, k := f + KindFields(kind, message), KindFields(kind, message);
    assert g[1] == f[1] && g[2] == f[2];
    assert forall i :: 0 <= i < |k| ==> g[3 + i] == k[i];
  }

  lemma BacktraceParses(frame: int, address: U64, kind: AddressType, message: string, hex: nat -> bool, junk: Junk)
    requires MIN_INT <= frame <= MAX_INT && (kind == Unknown ==> message != "ra" && message != "pc")
    ensures BacktraceCall(FieldsOf(Backtrace(frame, address, kind, message), "", hex), junk) ==
            Some(Backtrace(frame, address, kind, message))
  {
    var f := ["bt", Numeral(frame, hex(1)), Numeral(address, hex(2))];
    NumeralParses(frame, hex(1), MIN_INT, MAX_INT);
    WordParses(f, 2, address, hex(2), junk);
    KindParses(f, kind, message, junk);
  }

  lemma FieldsParse(call: Call, flags: string, hex: nat -> bool, junk: Junk)
    requires Renderable(call, flags)
    ensures CallOf(FieldsOf(call, flags, hex), junk) == Some(call)
  {
    match call
    case Table(Reset) =>
    case Table(AddModule(id, name, buildId)) =>
      ModuleParses(id, name, buildId, hex, junk);
    case Table(MMap(address, size, id, offset)) =>
      MMapParses(address, size, id, offset, flags, hex, junk);
    case Backtrace(frame, address, kind, message) =>
      BacktraceParses(frame, address, kind, message, hex, junk);
  }

  /**
   * A call rendered with any mixture of decimal and hexadecimal numbers is parsed back to the same call,
   * with the same context and whatever follows it.
   */
  lemma RenderRoundTrip(context: string, call: Call, flags: string, hex: nat -> bool, rest: string, junk: Junk)
    requires Renderable(call, flags) && Braced(context, Join(FieldsOf(call, flags, hex), ':'))
    ensures EffectOf(Render(context, call, flags, hex, rest), junk) == Calls(context, call)
  {
    var fields := FieldsOf(call, flags, hex);
    FieldsPlain(call, flags, hex);
    MarkupFoundExactly(context, Join(fields, ':'), rest);
    PiecesJoin(fields, ':');
    FieldsParse(call, flags, hex, junk);
    assert Pieces("", ':') == [""];
  }

  // ---------------------------------------------------------------------------------------------
  // What is not a call
  // ---------------------------------------------------------------------------------------------

  /** The field is a number for an unsigned 64-bit variable, or for an int; one that does not fit counts. */
  predicate IsWord(field: string) {
    ParseInt(field, 0, 0xFFFF_FFFF_FFFF_FFFF) != Rejected
  }

  predicate IsFrame(field: string) {
    ParseInt(field, -0x8000_0000, 0x7FFF_FFFF) != Rejected
  }

  /** The fields of valid markup; further fields do no harm. */
  predicate IsCommand(f: seq<string>) {
    && f != []
    && (|| f[0] == "reset"
        || (f[0] == "module" && |f| >= 5 && IsWord(f[1]) && f[3] == "elf")
        || (f[0] == "mmap" && |f| >= 7 && f[3] == "load" &&
            IsWord(f[1]) && IsWord(f[2]) && IsWord(f[4]) && IsWord(f[6]))
        || (f[0] == "bt" && |f| >= 3 && IsFrame(f[1]) && IsWord(f[2])))
  }

  lemma CallsExactly(f: seq<string>, junk: Junk)
    ensures CallOf(f, junk).Some? <==> IsCommand(f)
  {
  }

  /** Fields behind those that a command needs change nothing. */
  lemma FurtherFields(f: seq<string>, more: seq<string>, junk: Junk)
    requires IsCommand(f) && (f[0] == "bt" ==> |f| >= 5)
    ensures CallOf(f + more, junk) == CallOf(f, junk)
  {
  }

  /** A line has markup exactly when closing braces follow opening ones. */
  lemma HasMarkupExactly(line: string)
    ensures MarkupOf(line).Some? <==> exists i, j :: 0 <= i <= j && Triple(line, i, '{') && Triple(line, j, '}')
  {
    var start := FindTriple(line, 0, '{');
    if start < |line| {
      var end := FindTriple(line, start, '}');
    }
  }

  /** A line is echoed, as it is, exactly when it has no markup or none that is a command. */
  lemma EchoesExactly(line: string, junk: Junk)
    ensures EffectOf(line, junk) == Echoes(line) <==>
            MarkupOf(line).None? || !IsCommand(Splitted(MarkupOf(line).value.1, ':', true))
  {
    if MarkupOf(line).Some? {
      CallsExactly(Splitted(MarkupOf(line).value.1, ':', true), junk);
    }
  }
}
