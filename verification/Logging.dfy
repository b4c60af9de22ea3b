/**
  The log writer that puts a prefix in front of every line of a message whose
  text arrives in arbitrary chunks.
 */
module Logging {
  import opened Bytes

  const LF: char := '\n'
  const CR: char := '\r'

  predicate NoNewline(s: string) {
    LF !in s
  }

  // ----- Rust's `str::lines`

  function IndexOfNewline(s: string): (i: nat)
    ensures i <= |s| && NoNewline(s[..i])
    ensures i < |s| ==> s[i] == LF
  {
    if s == [] || s[0] == LF then 0
    else
      var i := IndexOfNewline(s[1..]);
      assert s[..i + 1] == [s[0]] + s[1..][..i];
      i + 1
  }

  function StripCr(s: string): (r: string)
    ensures NoNewline(s) ==> NoNewline(r)
  {
    if s != [] && s[|s| - 1] == CR then s[..|s| - 1] else s
  }

  /** Lines of a text: a line ending is a line feed, with the carriage return before it if there is one. */
  function Lines(s: string): (r: seq<string>)
    ensures r == [] <==> s == []
    ensures forall k :: 0 <= k < |r| ==> NoNewline(r[k])
    decreases |s|
  {
    if s == [] then []
    else
      var i := IndexOfNewline(s);
      if i == |s| then [s] else [StripCr(s[..i])] + Lines(s[i + 1..])
  }

  predicate EndsWithNewline(s: string) {
    s != [] && s[|s| - 1] == LF
  }

  // ----- Output as prefixed lines

  /** A line that has been started: whether it got the full prefix or only the level, and its text so far. */
  datatype Line = Line(full: bool, text: string)

  datatype Decor = Decor(full: string, level: string)
  {
    function Of(line: Line): string {
      if line.full then full else level
    }

    ghost predicate Valid() {
      && NoNewline(full) && full != []
      && NoNewline(level) && level != []
    }
  }

  const NO_DECOR := Decor([], [])

  /** Lines that are all ended by a line feed. */
  function Closed(d: Decor, lines: seq<Line>): string {
    if lines == [] then []
    else Closed(d, lines[..|lines| - 1]) + d.Of(lines[|lines| - 1]) + lines[|lines| - 1].text + [LF]
  }

  /** The same lines with the last one possibly still open. */
  function Render(d: Decor, lines: seq<Line>, open: bool): string {
    if open && lines != []
    then Closed(d, lines[..|lines| - 1]) + d.Of(lines[|lines| - 1]) + lines[|lines| - 1].text
    else Closed(d, lines)
  }

  /** The output with the inserted prefixes erased. */
  function Erased(lines: seq<Line>, open: bool): string {
    Render(NO_DECOR, lines, open)
  }

  lemma {:induction false} RenderStart(d: Decor, lines: seq<Line>, line: Line)
    ensures Render(d, lines + [line], true) == Closed(d, lines) + d.Of(line) + line.text
    ensures Closed(d, lines + [line]) == Render(d, lines + [line], true) + [LF]
  {
    assert (lines + [line])[..|lines|] == lines;
  }

  /** Appending text that has no line feed to an open line. */
  lemma {:induction false} RenderExtend(d: Decor, lines: seq<Line>, line: Line, more: string)
    ensures Render(d, lines + [Line(line.full, line.text + more)], true) == Render(d, lines + [line], true) + more
  {
    RenderStart(d, lines, line);
    RenderStart(d, lines, Line(line.full, line.text + more));
    Assoc(Closed(d, lines) + d.Of(line), line.text, more);
  }

  // ----- The chunk as the writer passes it on

  /** The chunk without the carriage returns that precede a line feed. */
  function DropCr(s: string): (r: string)
    ensures |r| <= |s|
  {
    if s == [] then []
    else if |s| > 1 && s[0] == CR && s[1] == LF then DropCr(s[1..])
    else [s[0]] + DropCr(s[1..])
  }

  predicate HasCrLf(s: string) {
    exists i :: 0 <= i < |s| - 1 && s[i] == CR && s[i + 1] == LF
  }

  predicate StartsWithCrLf(s: string) {
    |s| > 1 && s[0] == CR && s[1] == LF
  }

  lemma HasCrLfStep(s: string)
    requires s != []
    ensures HasCrLf(s) <==> StartsWithCrLf(s) || HasCrLf(s[1..])
  {
    if HasCrLf(s[1..]) {
      var i :| 0 <= i < |s[1..]| - 1 && s[1..][i] == CR && s[1..][i + 1] == LF;
      assert s[i + 1] == CR && s[i + 1 + 1] == LF;
    }
    if HasCrLf(s) {
      var i :| 0 <= i < |s| - 1 && s[i] == CR && s[i + 1] == LF;
      if i > 0 {
        assert s[1..][i - 1] == CR && s[1..][i - 1 + 1] == LF;
      }
    }
  }

  /** A chunk is passed on unchanged exactly when no carriage return precedes a line feed in it. */
  lemma {:induction false} DropCrIsIdentityIff(s: string)
    ensures DropCr(s) == s <==> !HasCrLf(s)
    ensures HasCrLf(s) <==> |DropCr(s)| < |s|
  {
    if |s| == 0 {
    } else {
      HasCrLfStep(s);
      DropCrIsIdentityIff(s[1..]);
      assert s == [s[0]] + s[1..];
    }
  }

  /** The shortest chunk that is not passed on unchanged. */
  lemma CrLfLosesItsCr()
    ensures DropCr([CR, LF]) == [LF]
  {
    assert [CR, LF][1..] == [LF];
    assert [LF][1..] == [];
  }

  lemma DropCrStep(c: char, t: string)
    requires !(c == CR && t != [] && t[0] == LF)
    ensures DropCr([c] + t) == [c] + DropCr(t)
  {
    assert ([c] + t)[1..] == t;
  }

  lemma {:induction false} DropCrNoNewline(s: string)
    requires NoNewline(s)
    ensures DropCr(s) == s
  {
    if s == [] {
    } else {
      DropCrNoNewline(s[1..]);
      assert s == [s[0]] + s[1..];
    }
  }

  lemma {:induction false} DropCrLine(a: string, rest: string)
    requires NoNewline(a)
    ensures DropCr(a + [LF] + rest) == StripCr(a) + [LF] + DropCr(rest)
  {
    if a == [] {
      DropCrStep(LF, rest);
      assert a + [LF] + rest == [LF] + rest;
    } else if a == [CR] {
      assert (a + [LF] + rest)[1..] == [LF] + rest;
      DropCrStep(LF, rest);
    } else {
      var t := a[1..] + [LF] + rest;
      assert a + [LF] + rest == [a[0]] + t;
      assert t[0] == if |a| == 1 then LF else a[1];
      DropCrStep(a[0], t);
      DropCrLine(a[1..], rest);
      assert StripCr(a) == [a[0]] + StripCr(a[1..]);
      assert [a[0]] + (StripCr(a[1..]) + [LF] + DropCr(rest)) == [a[0]] + StripCr(a[1..]) + [LF] + DropCr(rest);
    }
  }

  /** Lines joined with line feeds, without one at the end. */
  function Joined(ls: seq<string>): string {
    if ls == [] then [] else if |ls| == 1 then ls[0] else ls[0] + [LF] + Joined(ls[1..])
  }

  lemma JoinedCons(x: string, ls: seq<string>)
    ensures Joined([x] + ls) == if ls == [] then x else x + [LF] + Joined(ls)
  {
    assert ([x] + ls)[1..] == ls;
  }

  /** A text with a line feed is its first line, the line feed and the rest. */
  lemma {:induction false} LinesStep(s: string)
    requires IndexOfNewline(s) < |s|
    ensures var a, rest := s[..IndexOfNewline(s)], s[IndexOfNewline(s) + 1..];
            && s == a + [LF] + rest
            && Lines(s) == [StripCr(a)] + Lines(rest)
            && (EndsWithNewline(s) <==> rest == [] || EndsWithNewline(rest))
  {
  }

  lemma {:induction false} LastLine(s: string)
    requires IndexOfNewline(s) == |s|
    ensures NoNewline(s) && !EndsWithNewline(s) && Joined(Lines(s)) == s
  {
    assert s[..|s|] == s;
  }

  function FinalNewline(s: string): string {
    if EndsWithNewline(s) then [LF] else []
  }

  /** The lines of a chunk, joined again, are the chunk without the dropped carriage returns. */
  lemma {:induction false} LinesAreTheChunk(s: string)
    ensures DropCr(s) == Joined(Lines(s)) + FinalNewline(s)
    decreases |s|
  {
    var i := IndexOfNewline(s);
    if i == |s| {
      LastLine(s);
      DropCrNoNewline(s);
    } else {
      var a, rest := s[..i], s[i + 1..];
      LinesStep(s);
      DropCrLine(a, rest);
      LinesAreTheChunk(rest);
      JoinedCons(StripCr(a), Lines(rest));
      if rest != [] {
        Assoc(StripCr(a) + [LF], Joined(Lines(rest)), FinalNewline(rest));
      }
    }
  }

  // ----- The writer

  datatype Level = Error | Warn | Info | Debug | Trace
  {
    function Name(): (s: string)
      ensures NoNewline(s)
    {
      match this
      case Error => "ERROR"
      case Warn => "WARN"
      case Info => "INFO"
      case Debug => "DEBUG"
      case Trace => "TRACE"
    }
  }

  function PadLeft(s: string, width: nat, pad: char): (r: string)
    requires pad != LF
    ensures |r| == if |s| >= width then |s| else width
    ensures NoNewline(s) ==> NoNewline(r)
    decreases width - |s|
  {
    if |s| >= width then s else PadLeft([pad] + s, width, pad)
  }

  function Decimal(n: nat): (s: string)
    ensures NoNewline(s)
  {
    var digit := (48 + n % 10) as char;
    if n < 10 then [digit] else Decimal(n / 10) + [digit]
  }

  /** What a log record says beside its text. */
  datatype Record = Record(level: Level, file: Option<string>, line: Option<nat>)
  {
    predicate Ok() {
      file.Some? ==> NoNewline(file.value)
    }

    function FileName(): (s: string)
      requires Ok()
      ensures NoNewline(s)
    {
      if file.Some? then file.value else "<unknown file>"
    }

    /** The prefix of the first line of a message, and the shorter one of the lines that follow within a chunk. */
    function Prefixes(): (d: Decor)
      requires Ok()
      ensures d.Valid()
    {
      var place := PadLeft(FileName(), 12, ' ') + "@" + PadLeft(Decimal(LineNumber()), 3, '0');
      Decor("[" + PadLeft(level.Name(), 5, ' ') + "]: " + place + ": ",
            level.Name() + ": ")
    }

    function LineNumber(): nat {
      if line.Some? then line.value else 0
    }
  }

  // ----- What a prefix tells

  predicate Digits(s: string) {
    forall i :: 0 <= i < |s| ==> '0' <= s[i] <= '9'
  }

  /** The number that digits spell. */
  function ReadDecimal(s: string): int {
    if s == [] then 0 else ReadDecimal(s[..|s| - 1]) * 10 + (s[|s| - 1] as int - '0' as int)
  }

  lemma {:induction false} DecimalReadsBack(n: nat)
    ensures Digits(Decimal(n)) && ReadDecimal(Decimal(n)) == n
  {
    var s := Decimal(n);
    if n < 10 {
      assert s[..0] == [];
    } else {
      DecimalReadsBack(n / 10);
      assert s[..|s| - 1] == Decimal(n / 10);
    }
  }

  lemma {:induction false} LeadingZero(s: string)
    ensures ReadDecimal(['0'] + s) == ReadDecimal(s)
  {
    var z := ['0'] + s;
    if s == [] {
      assert z[..0] == [];
    } else {
      LeadingZero(s[..|s| - 1]);
      assert z[..|z| - 1] == ['0'] + s[..|s| - 1];
    }
  }

  lemma {:induction false} PaddedNumber(s: string, width: nat)
    requires Digits(s)
    ensures Digits(PadLeft(s, width, '0')) && ReadDecimal(PadLeft(s, width, '0')) == ReadDecimal(s)
    decreases width - |s|
  {
    if |s| >= width {
    } else {
      LeadingZero(s);
      PaddedNumber(['0'] + s, width);
    }
  }

  /** The line number as it is written, which reads back as the number. */
  function LineText(n: nat): string {
    PadLeft(Decimal(n), 3, '0')
  }

  lemma LineReadsBack(n: nat)
    ensures Digits(LineText(n)) && ReadDecimal(LineText(n)) == n
  {
    DecimalReadsBack(n);
    PaddedNumber(Decimal(n), 3);
  }

  lemma {:induction false} SplitAtLast(a: string, x: string, b: string, y: string, c: char)
    requires a + [c] + x == b + [c] + y && c !in x && c !in y
    ensures a == b && x == y
  {
    var s := a + [c] + x;
    assert s[|a|] == c && s[|b|] == c;
    if |a| == |b| {
      assert s[..|a|] == a && s[|a| + 1..] == x;
      assert s[..|b|] == b && s[|b| + 1..] == y;
    }
  }

  lemma LevelNames(a: Level, b: Level)
    ensures |PadLeft(a.Name(), 5, ' ')| == 5
    ensures PadLeft(a.Name(), 5, ' ') == PadLeft(b.Name(), 5, ' ') ==> a == b
  {
    PaddedLevel(a);
    PaddedLevel(b);
  }

  lemma PaddedLevel(a: Level)
    ensures PadLeft(a.Name(), 5, ' ') ==
              match a
              case Error => "ERROR"
              case Warn => " WARN"
              case Info => " INFO"
              case Debug => "DEBUG"
              case Trace => "TRACE"
  {
    if a.Warn? || a.Info? {
      assert PadLeft(a.Name(), 5, ' ') == PadLeft([' '] + a.Name(), 5, ' ');
    }
  }

  /** The padded level in brackets, then the padded file, an at sign, the line and a colon. */
  lemma {:induction false} PrefixParts(r: Record)
    requires r.Ok()
    ensures r.Prefixes().full ==
              ("[" + PadLeft(r.level.Name(), 5, ' ') + "]: ")
              + (PadLeft(r.FileName(), 12, ' ') + ['@'] + (LineText(r.LineNumber()) + ": "))
  {
    var head := "[" + PadLeft(r.level.Name(), 5, ' ') + "]: ";
    var file, line := PadLeft(r.FileName(), 12, ' '), LineText(r.LineNumber());
    assert head + (file + "@" + line) + ": " == head + (file + ['@'] + (line + ": "));
  }

  /** A prefix tells the level, the file up to leading blanks, and the line, and nothing else. */
  lemma {:induction false} PrefixTells(r: Record, q: Record)
    requires r.Ok() && q.Ok()
    ensures r.Prefixes().full == q.Prefixes().full <==>
              && r.level == q.level && r.LineNumber() == q.LineNumber()
              && PadLeft(r.FileName(), 12, ' ') == PadLeft(q.FileName(), 12, ' ')
    ensures r.Prefixes().level == q.Prefixes().level <==> r.level == q.level
  {
    ShortPrefix(r);
    ShortPrefix(q);
    PrefixParts(r);
    PrefixParts(q);
    LevelNames(r.level, q.level);
    LevelNames(q.level, r.level);
    LineReadsBack(r.LineNumber());
    LineReadsBack(q.LineNumber());
    if r.Prefixes().full == q.Prefixes().full {
      var l, m := PadLeft(r.level.Name(), 5, ' '), PadLeft(q.level.Name(), 5, ' ');
      var f, g := PadLeft(r.FileName(), 12, ' '), PadLeft(q.FileName(), 12, ' ');
      var x, y := LineText(r.LineNumber()), LineText(q.LineNumber());
      SamePrefix(l, f, x, m, g, y);
    }
  }

  /** The short prefix is the level and a colon. */
  lemma ShortPrefix(r: Record)
    requires r.Ok()
    ensures r.Prefixes().level ==
              match r.level
              case Error => "ERROR: "
              case Warn => "WARN: "
              case Info => "INFO: "
              case Debug => "DEBUG: "
              case Trace => "TRACE: "
  {
  }

  lemma {:induction false} SamePrefix(l: string, f: string, x: string, m: string, g: string, y: string)
    requires |l| == |m| == 5 && Digits(x) && Digits(y)
    requires ("[" + l + "]: ") + (f + ['@'] + (x + ": ")) == ("[" + m + "]: ") + (g + ['@'] + (y + ": "))
    ensures l == m && f == g && x == y
  {
    var s := ("[" + l + "]: ") + (f + ['@'] + (x + ": "));
    assert s[1..6] == l && s[9..] == f + ['@'] + (x + ": ");
    assert s[1..6] == m && s[9..] == g + ['@'] + (y + ": ");
    SplitAtLast(f, x + ": ", g, y + ": ", '@');
    assert (x + ": ")[..|x|] == x && (y + ": ")[..|y|] == y;
  }

  /**
    The lines after a chunk: the open line is extended or a fully prefixed one
    is started; the others get the level.
   */
  function AddChunk(lines: seq<Line>, open: bool, chunk: string): (r: seq<Line>)
    ensures r != []
  {
    AddLines(StartOrExtend(lines, open, FirstLine(chunk)), OtherLines(chunk))
  }

  function FirstLine(chunk: string): (s: string)
    ensures NoNewline(s)
  {
    if Lines(chunk) == [] then [] else Lines(chunk)[0]
  }

  function OtherLines(chunk: string): (r: seq<string>)
    ensures forall k :: 0 <= k < |r| ==> NoNewline(r[k])
  {
    if Lines(chunk) == [] then [] else Lines(chunk)[1..]
  }

  function StartOrExtend(lines: seq<Line>, open: bool, text: string): (r: seq<Line>)
    ensures r != []
  {
    if open && lines != [] then
      var last := lines[|lines| - 1];
      lines[..|lines| - 1] + [Line(last.full, last.text + text)]
    else lines + [Line(true, text)]
  }

  function AddLines(lines: seq<Line>, more: seq<string>): (r: seq<Line>)
    requires lines != []
    ensures r != []
    decreases |more|
  {
    if more == [] then lines else AddLines(lines + [Line(false, more[0])], more[1..])
  }

  /** What is written for the lines of a chunk after the first. */
  function Tail(d: Decor, more: seq<string>): string {
    if more == [] then [] else [LF] + d.level + more[0] + Tail(d, more[1..])
  }

  lemma {:induction false} RenderTail(d: Decor, lines: seq<Line>, more: seq<string>)
    requires lines != []
    ensures Render(d, AddLines(lines, more), true) == Render(d, lines, true) + Tail(d, more)
    decreases |more|
  {
    if more == [] {
      assert Render(d, lines, true) + [] == Render(d, lines, true);
    } else {
      var line := Line(false, more[0]);
      RenderTail(d, lines + [line], more[1..]);
      RenderStart(d, lines, line);
      var init := lines[..|lines| - 1];
      assert lines == init + [lines[|lines| - 1]];
      RenderStart(d, init, lines[|lines| - 1]);
      Regroup(Render(d, lines, true), [LF], d.level, more[0], Tail(d, more[1..]));
    }
  }

  lemma Regroup(a: string, b: string, c: string, e: string, f: string)
    ensures a + b + c + e + f == a + (b + c + e + f)
  {
  }

  lemma RenderStartOrExtend(d: Decor, lines: seq<Line>, open: bool, text: string)
    requires open ==> lines != []
    ensures Render(d, StartOrExtend(lines, open, text), true)
              == Render(d, lines, open) + (if open then [] else d.full) + text
  {
    if open {
      var init, last := lines[..|lines| - 1], lines[|lines| - 1];
      assert lines == init + [last];
      RenderExtend(d, init, last, text);
      assert Render(d, lines, open) + [] == Render(d, lines, open);
    } else {
      RenderStart(d, lines, Line(true, text));
    }
  }

  /** What a chunk adds to the output. */
  function ChunkOutput(d: Decor, open: bool, chunk: string): string {
    (if open then [] else d.full) + FirstLine(chunk) + Tail(d, OtherLines(chunk))
  }

  lemma {:induction false} RenderChunk(d: Decor, lines: seq<Line>, open: bool, chunk: string)
    requires open ==> lines != []
    ensures Render(d, AddChunk(lines, open, chunk), true) == Render(d, lines, open) + ChunkOutput(d, open, chunk)
  {
    RenderStartOrExtend(d, lines, open, FirstLine(chunk));
    RenderTail(d, StartOrExtend(lines, open, FirstLine(chunk)), OtherLines(chunk));
    Regroup3(Render(d, lines, open), if open then [] else d.full, FirstLine(chunk), Tail(d, OtherLines(chunk)));
  }

  lemma Regroup3(a: string, b: string, c: string, e: string)
    ensures a + b + c + e == a + (b + c + e)
  {
  }

  lemma {:induction false} JoinedIsTail(ls: seq<string>)
    requires ls != []
    ensures Joined(ls) == ls[0] + Tail(NO_DECOR, ls[1..])
  {
    if |ls| > 1 {
      JoinedIsTail(ls[1..]);
      assert ls[0] + [LF] + (ls[1] + Tail(NO_DECOR, ls[1..][1..]))
          == ls[0] + ([LF] + [] + ls[1] + Tail(NO_DECOR, ls[1..][1..]));
    } else {
      assert ls[0] + [] == ls[0];
    }
  }

  /** With the prefixes erased, a chunk adds itself without the dropped carriage returns. */
  lemma {:induction false} ErasedChunk(lines: seq<Line>, open: bool, chunk: string)
    requires open ==> lines != []
    ensures Erased(AddChunk(lines, open, chunk), !EndsWithNewline(chunk)) == Erased(lines, open) + DropCr(chunk)
  {
    RenderEndedChunk(NO_DECOR, lines, open, chunk);
    PlainChunkOutput(open, chunk);
    LinesAreTheChunk(chunk);
    Assoc(Erased(lines, open), Joined(Lines(chunk)), FinalNewline(chunk));
  }

  /** The output after a chunk, with the line feed at its end. */
  lemma {:induction false} RenderEndedChunk(d: Decor, lines: seq<Line>, open: bool, chunk: string)
    requires open ==> lines != []
    ensures Render(d, AddChunk(lines, open, chunk), !EndsWithNewline(chunk))
              == Render(d, lines, open) + ChunkOutput(d, open, chunk) + FinalNewline(chunk)
  {
    RenderChunk(d, lines, open, chunk);
    CloseLast(d, AddChunk(lines, open, chunk));
  }

  lemma PlainChunkOutput(open: bool, chunk: string)
    ensures ChunkOutput(NO_DECOR, open, chunk) == Joined(Lines(chunk))
  {
    if Lines(chunk) != [] {
      JoinedIsTail(Lines(chunk));
    }
  }

  lemma CloseLast(d: Decor, lines: seq<Line>)
    requires lines != []
    ensures Render(d, lines, false) == Render(d, lines, true) + [LF]
  {
    var init, last := lines[..|lines| - 1], lines[|lines| - 1];
    assert lines == init + [last];
    RenderStart(d, init, last);
  }

  ghost predicate CleanLines(lines: seq<Line>) {
    forall k :: 0 <= k < |lines| ==> NoNewline(lines[k].text)
  }

  lemma {:induction false} AddLinesClean(lines: seq<Line>, more: seq<string>)
    requires lines != [] && CleanLines(lines) && forall k :: 0 <= k < |more| ==> NoNewline(more[k])
    ensures CleanLines(AddLines(lines, more))
    decreases |more|
  {
    if more == [] {
    } else {
      AddLinesClean(lines + [Line(false, more[0])], more[1..]);
    }
  }

  lemma AddChunkClean(lines: seq<Line>, open: bool, chunk: string)
    requires CleanLines(lines)
    ensures CleanLines(AddChunk(lines, open, chunk))
  {
    AddLinesClean(StartOrExtend(lines, open, FirstLine(chunk)), OtherLines(chunk));
  }

  class DecoratedLog {
    const decor: Decor
    var output: string
    var atLineStart: bool
    ghost var lines: seq<Line>

    ghost predicate Valid()
      reads this
    {
      && decor.Valid()
      && (atLineStart || lines != [])
      && CleanLines(lines)
      && output == Render(decor, lines, !atLineStart)
    }

    constructor (decor: Decor)
      requires decor.Valid()
      ensures Valid() && this.decor == decor && output == [] && atLineStart && lines == []
    {
      this.decor, output, atLineStart, lines := decor, [], true, [];
    }

    /** The lines of a chunk after the first are known to start a line of output. */
    method WriteFollowing(rest: seq<string>)
      modifies this`output
      ensures output == old(output) + Tail(decor, rest)
    {
      assert rest[0..] == rest;
      for i := 0 to |rest|
        invariant output + Tail(decor, rest[i..]) == old(output) + Tail(decor, rest)
      {
        assert rest[i..][1..] == rest[i + 1..];
        Regroup(output, [LF], decor.level, rest[i], Tail(decor, rest[i + 1..]));
        output := output + [LF] + decor.level + rest[i];
      }
      assert output + [] == output;
    }

    method WriteStr(s: string)
      requires Valid()
      modifies this`output, this`atLineStart, this`lines
      ensures Valid()
      ensures lines == AddChunk(old(lines), !old(atLineStart), s)
      ensures atLineStart <==> EndsWithNewline(s)
      ensures Erased(lines, !atLineStart) == old(Erased(lines, !atLineStart)) + DropCr(s)
    {
      ghost var open := !atLineStart;
      WriteLines(s);
      ChunkLemmas(decor, lines, open, s);
      lines := AddChunk(lines, open, s);
      if EndsWithNewline(s) {
        output := output + [LF];
        atLineStart := true;
      }
    }

    /** The prefix if a line starts here, the first line, and the lines that follow it. */
    method WriteLines(s: string)
      modifies this`output, this`atLineStart
      ensures output == old(output) + ChunkOutput(decor, !old(atLineStart), s) && !atLineStart
    {
      var ls := Lines(s);
      var first := if ls == [] then [] else ls[0];
      if atLineStart {
        output := output + decor.full;
        atLineStart := false;
      }
      output := output + first;
      WriteFollowing(if ls == [] then [] else ls[1..]);
      Regroup3(old(output), if old(atLineStart) then decor.full else [], FirstLine(s), Tail(decor, OtherLines(s)));
    }
  }

  /** What the code above relies on, for one chunk. */
  lemma {:induction false} ChunkLemmas(d: Decor, lines: seq<Line>, open: bool, chunk: string)
    requires CleanLines(lines) && (open ==> lines != [])
    ensures CleanLines(AddChunk(lines, open, chunk))
    ensures Render(d, AddChunk(lines, open, chunk), !EndsWithNewline(chunk))
              == Render(d, lines, open) + ChunkOutput(d, open, chunk) + FinalNewline(chunk)
    ensures Erased(AddChunk(lines, open, chunk), !EndsWithNewline(chunk)) == Erased(lines, open) + DropCr(chunk)
  {
    RenderEndedChunk(d, lines, open, chunk);
    ErasedChunk(lines, open, chunk);
    AddChunkClean(lines, open, chunk);
  }

  // ----- What the whole output looks like

  /** All pieces of a text between line feeds. */
  function Pieces(s: string): (r: seq<string>)
    ensures r != []
    decreases |s|
  {
    var i := IndexOfNewline(s);
    if i == |s| then [s] else [s[..i]] + Pieces(s[i + 1..])
  }

  lemma {:induction false} IndexIsUnique(s: string, i: nat)
    requires i <= |s| && NoNewline(s[..i]) && (i < |s| ==> s[i] == LF)
    ensures i == IndexOfNewline(s)
  {
    if i == 0 {
    } else {
      assert s[0] == s[..i][0];
      assert forall c :: c in s[1..][..i - 1] ==> c in s[..i];
      IndexIsUnique(s[1..], i - 1);
    }
  }

  lemma {:induction false} PiecesAppend(a: string, b: string)
    requires NoNewline(b)
    ensures Pieces(a + [LF] + b) == Pieces(a) + [b]
    decreases |a|
  {
    var s := a + [LF] + b;
    var i := IndexOfNewline(a);
    assert s[..i] == a[..i];
    IndexIsUnique(s, i);
    if i == |a| {
      assert s[i + 1..] == b && a[..i] == a && b[..|b|] == b;
      IndexIsUnique(b, |b|);
    } else {
      assert s[i + 1..] == a[i + 1..] + [LF] + b;
      PiecesAppend(a[i + 1..], b);
    }
  }

  function Prefixed(d: Decor, lines: seq<Line>): (r: seq<string>) {
    if lines == [] then [] else Prefixed(d, lines[..|lines| - 1]) + [d.Of(lines[|lines| - 1]) + lines[|lines| - 1].text]
  }

  /** The lines of the output are the started lines, each with one prefix in front and none inside. */
  lemma {:induction false} OutputLines(d: Decor, lines: seq<Line>)
    requires d.Valid() && CleanLines(lines) && lines != []
    ensures Pieces(Render(d, lines, true)) == Prefixed(d, lines)
    ensures Pieces(Render(d, lines, false)) == Prefixed(d, lines) + [[]]
  {
    var init, last := lines[..|lines| - 1], lines[|lines| - 1];
    var u := d.Of(last) + last.text;
    if init == [] {
      assert u[..|u|] == u;
      IndexIsUnique(u, |u|);
      assert Render(d, lines, true) == u;
    } else {
      OutputLines(d, init);
      NextLine(d, lines);
      PiecesAppend(Render(d, init, true), u);
    }
    CloseLast(d, lines);
    PiecesAppend(Render(d, lines, true), []);
    assert Render(d, lines, true) + [LF] + [] == Render(d, lines, false);
  }

  lemma NextLine(d: Decor, lines: seq<Line>)
    requires |lines| > 1
    ensures Render(d, lines, true)
              == Render(d, lines[..|lines| - 1], true) + [LF] + (d.Of(lines[|lines| - 1]) + lines[|lines| - 1].text)
  {
    CloseLast(d, lines[..|lines| - 1]);
  }

  /** A line is open exactly when the output is neither empty nor ended by a line feed. */
  lemma LineStartIffNewline(d: Decor, lines: seq<Line>, open: bool)
    requires d.Valid() && CleanLines(lines) && (open ==> lines != [])
    ensures open <==> Render(d, lines, open) != [] && !EndsWithNewline(Render(d, lines, open))
  {
    if lines != [] {
      CloseLast(d, lines);
      var last := lines[|lines| - 1];
      var u := d.Of(last) + last.text;
      assert Render(d, lines, true) == Closed(d, lines[..|lines| - 1]) + u;
      assert Render(d, lines, true)[|Render(d, lines, true)| - 1] == u[|u| - 1];
      assert u[|u| - 1] in u;
    }
  }

  function Concat(chunks: seq<string>): string {
    if chunks == [] then [] else Concat(chunks[..|chunks| - 1]) + chunks[|chunks| - 1]
  }

  function ConcatDropCr(chunks: seq<string>): (s: string) {
    if chunks == [] then [] else ConcatDropCr(chunks[..|chunks| - 1]) + DropCr(chunks[|chunks| - 1])
  }

  /** The text survives exactly when no chunk holds a carriage return followed by a line feed. */
  lemma {:induction false} TextSurvivesIff(chunks: seq<string>)
    ensures |ConcatDropCr(chunks)| <= |Concat(chunks)|
    ensures ConcatDropCr(chunks) == Concat(chunks) <==> forall k :: 0 <= k < |chunks| ==> !HasCrLf(chunks[k])
  {
    if chunks == [] {
    } else {
      var init, last := chunks[..|chunks| - 1], chunks[|chunks| - 1];
      TextSurvivesIff(init);
      DropCrIsIdentityIff(last);
      assert forall k :: 0 <= k < |init| ==> init[k] == chunks[k];
      if ConcatDropCr(chunks) == Concat(chunks) {
        assert |DropCr(last)| == |last| && |ConcatDropCr(init)| == |Concat(init)|;
        assert ConcatDropCr(chunks)[..|Concat(init)|] == ConcatDropCr(init);
        assert Concat(chunks)[..|Concat(init)|] == Concat(init);
      }
    }
  }

  /** The lines of a whole message. */
  function MessageLines(chunks: seq<string>): (r: seq<Line>) {
    if chunks == [] then []
    else
      var init := chunks[..|chunks| - 1];
      AddChunk(MessageLines(init), MessageOpen(init), chunks[|chunks| - 1])
  }

  predicate MessageOpen(chunks: seq<string>) {
    chunks != [] && !EndsWithNewline(chunks[|chunks| - 1])
  }

  lemma {:induction false} MessageErased(chunks: seq<string>)
    ensures CleanLines(MessageLines(chunks)) && (MessageOpen(chunks) ==> MessageLines(chunks) != [])
    ensures Erased(MessageLines(chunks), MessageOpen(chunks)) == ConcatDropCr(chunks)
  {
    if chunks == [] {
    } else {
      var init, last := chunks[..|chunks| - 1], chunks[|chunks| - 1];
      MessageErased(init);
      ErasedChunk(MessageLines(init), MessageOpen(init), last);
      AddChunkClean(MessageLines(init), MessageOpen(init), last);
    }
  }

  /** A text output that the logger may be connected to. */
  class Console {
    var text: string

    constructor ()
      ensures text == []
    {
      text := [];
    }
  }

  /** `DecoratedLog::write`: the message, then a line feed. */
  method WriteMessage(decor: Decor, chunks: seq<string>, console: Console)
    requires decor.Valid()
    modifies console
    ensures console.text == old(console.text) + Render(decor, MessageLines(chunks + [[LF]]), false)
    ensures Erased(MessageLines(chunks + [[LF]]), false) == ConcatDropCr(chunks) + [LF]
  {
    var log := new DecoratedLog(decor);
    var all := chunks + [[LF]];
    WriteChunks(log, all);
    assert all[..|all| - 1] == chunks;
    MessageErased(all);
    assert DropCr([LF]) == [LF];
    console.text := console.text + log.output;
  }

  method WriteChunks(log: DecoratedLog, chunks: seq<string>)
    requires log.Valid() && log.atLineStart && log.lines == []
    modifies log
    ensures log.Valid() && log.lines == MessageLines(chunks) && log.atLineStart == !MessageOpen(chunks)
  {
    for i := 0 to |chunks|
      invariant log.Valid()
      invariant log.lines == MessageLines(chunks[..i]) && log.atLineStart == !MessageOpen(chunks[..i])
    {
      MessageStep(chunks, i);
      log.WriteStr(chunks[i]);
    }
    assert chunks[..|chunks|] == chunks;
  }

  lemma {:induction false} MessageStep(chunks: seq<string>, i: nat)
    requires i < |chunks|
    ensures MessageLines(chunks[..i + 1]) == AddChunk(MessageLines(chunks[..i]), MessageOpen(chunks[..i]), chunks[i])
    ensures MessageOpen(chunks[..i + 1]) == !EndsWithNewline(chunks[i])
  {
    assert chunks[..i + 1][..i] == chunks[..i];
  }

  /** The global logger: connected to a console, or disabled. */
  class Logger {
    var writer: Console?
    /** The debug console of the hypervisor, in builds that write to it. */
    const debugcon: Console?

    ghost predicate Valid()
      reads this
    {
      writer != null ==> writer != debugcon
    }

    constructor (debugcon: Console?)
      ensures Valid() && writer == null && this.debugcon == debugcon
    {
      writer, this.debugcon := null, debugcon;
    }

    method SetOutput(output: Console?)
      requires output != null ==> output != debugcon
      modifies this`writer
      ensures Valid() && writer == output
    {
      writer := output;
    }

    method Disable()
      modifies this`writer
      ensures Valid() && writer == null
    {
      SetOutput(null);
    }

    /** The decorated message goes to the writer and to the debug console, to each if it is there. */
    method Log(record: Record, chunks: seq<string>)
      requires Valid() && record.Ok()
      modifies writer, debugcon
      ensures writer != null ==> writer.text == old(writer.text) + MessageText(record, chunks)
      ensures debugcon != null ==> debugcon.text == old(debugcon.text) + MessageText(record, chunks)
    {
      if writer != null {
        WriteMessage(record.Prefixes(), chunks, writer);
      }
      if debugcon != null {
        WriteMessage(record.Prefixes(), chunks, debugcon);
      }
    }
  }

  /** A whole message, line by line, each with its prefix. */
  function MessageText(record: Record, chunks: seq<string>): string
    requires record.Ok()
  {
    Render(record.Prefixes(), MessageLines(chunks + [[LF]]), false)
  }
}
