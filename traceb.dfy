/** The traceback renderer: it walks a chain of stack-frame records from the
    catch site down to the faulting frame, renders one text block per frame
    (file, function and line header, then the function's source up to the
    failing line, numbered, with that line highlighted), and assembles the
    blocks outermost-first followed by the faulting frame's locals.

    Reflection is replaced by values: a `Frame` carries what the live frame
    and its code object would be asked for, `source` being the text
    `inspect.getsource` returns and `locals` the `f_locals` items in mapping
    order, each value already converted with `str`. */
module Traceb {
  import opened PyText

  datatype Option<T> = None | Some(value: T)

  // ---------------------------------------------------------------------------
  // Constants
  // ---------------------------------------------------------------------------

  const FRAME_OVERFLOW: string := "\t..."
  const NEWLINE: string := "\n"
  const TAB_SIZE: nat := 4
  const TAB: string := "    "

  /** `LINENO % s`: `s` between the escape codes for magenta and reset. */
  function LinenoStyle(s: string): string
  {
    "\U{1B}[35m" + s + "\U{1B}[0m"
  }

  /** `ERRLINE % s`: `s` followed by a red `<<]` marker. */
  function ErrlineStyle(s: string): string
  {
    s + " \U{1B}[31m<<]\U{1B}[0m"
  }

  // ---------------------------------------------------------------------------
  // indent_line and indent_lines
  // ---------------------------------------------------------------------------

  /** `tab_count or 1`: a missing or zero count means one tab; any other
      count is kept. */
  function TabCount(tabCount: Option<int>): (n: int)
    ensures n != 0
    ensures n == 1 <==> tabCount in {None, Some(0), Some(1)}
    ensures tabCount.Some? && tabCount.value != 0 ==> n == tabCount.value
  {
    if tabCount.None? || tabCount.value == 0 then 1 else tabCount.value
  }

  /** `indent_line`: the line behind `TAB * tab_count`; a negative count
      leaves the line as it is, as Python's string repetition does. */
  function IndentLine(line: string, tabCount: Option<int>): (r: string)
    ensures |r| >= |line| && r[|r| - |line|..] == line
  {
    Repeat(TAB, TabCount(tabCount)) + line
  }

  /** `TAB * n` is `TAB_SIZE * n` spaces, none when `n <= 0`. */
  lemma {:induction false} RepeatTab(n: int)
    ensures |Repeat(TAB, n)| == if n <= 0 then 0 else TAB_SIZE * n
    ensures forall i :: 0 <= i < |Repeat(TAB, n)| ==> Repeat(TAB, n)[i] == ' '
  {
    if n > 0 {
      RepeatTab(n - 1);
    }
  }

  /** An indented line is the line itself behind `TAB_SIZE * tab_count`
      spaces (none for a negative count). */
  lemma IndentLineShape(line: string, tabCount: Option<int>)
    ensures |IndentLine(line, tabCount)| ==
      |line| + (if TabCount(tabCount) < 0 then 0 else TAB_SIZE * TabCount(tabCount))
    ensures IndentLine(line, tabCount)[|IndentLine(line, tabCount)| - |line|..] == line
    ensures forall i :: 0 <= i < |IndentLine(line, tabCount)| - |line| ==> IndentLine(line, tabCount)[i] == ' '
  {
    RepeatTab(TabCount(tabCount));
  }

  /** With no count, or a count of 0 or 1, a line gets exactly one tab. */
  lemma IndentLineDefault(line: string, tabCount: Option<int>)
    requires tabCount in {None, Some(0), Some(1)}
    ensures IndentLine(line, tabCount) == TAB + line
  {
    assert Repeat(TAB, 1) == TAB + Repeat(TAB, 0);
  }

  /** `predicate or (lambda l: True)`: a missing predicate accepts every line. */
  predicate Selected(pred: Option<string -> bool>, line: string)
  {
    pred.None? || pred.value(line)
  }

  /** What `indent_lines` leaves in the list: each selected entry indented,
      every other entry as it was. */
  function IndentAll(lines: seq<string>, pred: Option<string -> bool>, tabCount: Option<int>): (r: seq<string>)
    ensures |r| == |lines|
  {
    seq(|lines|, i requires 0 <= i < |lines| =>
      if Selected(pred, lines[i]) then IndentLine(lines[i], tabCount) else lines[i])
  }

  /** Entries the predicate rejects are left alone; the others get exactly
      the indent prefix. */
  lemma IndentAllAt(lines: seq<string>, pred: Option<string -> bool>, tabCount: Option<int>, i: nat)
    requires i < |lines|
    ensures |IndentAll(lines, pred, tabCount)| == |lines|
    ensures !Selected(pred, lines[i]) ==> IndentAll(lines, pred, tabCount)[i] == lines[i]
    ensures Selected(pred, lines[i]) ==>
      IndentAll(lines, pred, tabCount)[i] == Repeat(TAB, TabCount(tabCount)) + lines[i]
  {
  }

  /** `indent_lines` rewrites the entries of the list in place and returns the
      same list. */
  method IndentLines(lines: array<string>, pred: Option<string -> bool>, tabCount: Option<int>)
    returns (r: array<string>)
    modifies lines
    ensures r == lines
    ensures lines[..] == IndentAll(old(lines[..]), pred, tabCount)
  {
    var ind := 0;
    while ind < lines.Length
      invariant 0 <= ind <= lines.Length
      invariant forall i :: 0 <= i < ind ==>
        lines[i] == if Selected(pred, old(lines[i])) then IndentLine(old(lines[i]), tabCount) else old(lines[i])
      invariant forall i :: ind <= i < lines.Length ==> lines[i] == old(lines[i])
    {
      var line := lines[ind];
      if Selected(pred, line) {
        lines[ind] := IndentLine(line, tabCount);
      }
      ind := ind + 1;
    }
    r := lines;
  }

  // ---------------------------------------------------------------------------
  // Frames and the source window (render_tb_source)
  // ---------------------------------------------------------------------------

  /** One stack-frame record: `co_filename`, `co_name`, `f_lineno`,
      `co_firstlineno`, the source text of the code object and the locals. */
  datatype Frame = Frame(
    filename: string,
    name: string,
    lineno: int,
    firstlineno: int,
    source: string,
    locals: seq<(string, string)>)

  /** One line of a source window: its absolute line number, its indented
      text and whether it is the failing line. */
  datatype Entry = Entry(number: int, text: string, highlighted: bool)

  /** The function's source split into lines. */
  function SourceLines(f: Frame): seq<string>
  {
    Split(f.source, '\n')
  }

  /** `linestop`: how many lines the failing line lies below the function's
      first line. */
  function Offset(f: Frame): int
  {
    f.lineno - f.firstlineno
  }

  /** The failing line lies within the function's source text. */
  predicate WellPlaced(f: Frame)
  {
    0 <= Offset(f) < |SourceLines(f)|
  }

  /** The lines of the window before numbering: an overflow marker, the source
      from the first line through `source[:linestop + 1]`, another overflow
      marker, all indented by one tab. */
  function Wrapped(f: Frame): seq<string>
  {
    IndentAll([FRAME_OVERFLOW] + SliceTo(SourceLines(f), Offset(f) + 1) + [FRAME_OVERFLOW], None, Some(1))
  }

  /** The entries of a list of lines whose first entry stands one line above
      `start`: entry `i` is numbered `start + i - 1` and is highlighted when
      that number is `errLine`. */
  function Entries(lines: seq<string>, start: int, errLine: int): (w: seq<Entry>)
    ensures |w| == |lines|
  {
    seq(|lines|, i requires 0 <= i < |lines| => Entry(start + i - 1, lines[i], start + i - 1 == errLine))
  }

  /** The window of a frame as entries. */
  function WindowEntries(f: Frame): (w: seq<Entry>)
    ensures |w| == |Wrapped(f)|
  {
    Entries(Wrapped(f), f.firstlineno, f.lineno)
  }

  /** `str(lineno).rjust(3, "0")` */
  function PaddedNumber(n: int): string
  {
    RJust(IntToString(n), 3, '0')
  }

  /** `|` + coloured padded number + space + text, the text marked when the
      entry is the failing line. */
  function FormatEntry(e: Entry): string
  {
    "|" + LinenoStyle(PaddedNumber(e.number)) + " " + (if e.highlighted then ErrlineStyle(e.text) else e.text)
  }

  function FormatAll(w: seq<Entry>): (r: seq<string>)
    ensures |r| == |w|
  {
    seq(|w|, i requires 0 <= i < |w| => FormatEntry(w[i]))
  }

  function WindowLines(f: Frame): (r: seq<string>)
    ensures |r| == |WindowEntries(f)|
  {
    FormatAll(WindowEntries(f))
  }

  /** The string `render_tb_source` returns. */
  function WindowText(f: Frame): string
  {
    Join(WindowLines(f), NEWLINE)
  }

  /** `render_tb_source`: builds the wrapped list, indents it in place,
      numbers it in place and joins the lines. */
  method RenderSource(f: Frame) returns (text: string)
    ensures text == WindowText(f)
  {
    var linestart := f.firstlineno;
    var linestop := f.lineno - linestart;
    var shown := SliceTo(Split(f.source, NEWLINE[0]), linestop + 1);
    var wrapped := [FRAME_OVERFLOW] + shown + [FRAME_OVERFLOW];
    var source := new string[|wrapped|](i requires 0 <= i < |wrapped| => wrapped[i]);
    assert source[..] == wrapped;
    source := IndentLines(source, None, Some(1));
    assert source[..] == Wrapped(f);
    NumberLines(source, linestart, f.lineno);
    text := Join(source[..], NEWLINE);
  }

  /** The loop of `render_tb_source` that overwrites each entry with its
      numbered form: entry `ind` gets the number `linestart + ind - 1` and the
      `ERRLINE` marker when that number is the failing line. */
  method NumberLines(source: array<string>, linestart: int, errLine: int)
    modifies source
    ensures source[..] == FormatAll(Entries(old(source[..]), linestart, errLine))
  {
    ghost var indented := source[..];
    ghost var numbered := FormatAll(Entries(indented, linestart, errLine));
    var ind := 0;
    while ind < source.Length
      invariant 0 <= ind <= source.Length == |indented| == |numbered|
      invariant source[..] == numbered[..ind] + indented[ind..]
    {
      assert source[ind] == indented[ind] by {
        assert source[..][ind] == (numbered[..ind] + indented[ind..])[ind];
      }
      var line := source[ind];
      var lineno := linestart + ind - 1;
      if lineno == errLine {
        line := ErrlineStyle(line);
      }
      var lineText := "|" + LinenoStyle(RJust(IntToString(lineno), 3, '0')) + " " + line;
      assert lineText == numbered[ind];
      ghost var before := source[..];
      source[ind] := lineText;
      assert source[..] == before[ind := numbered[ind]];
      SpliceStep(numbered, indented, ind);
      ind := ind + 1;
    }
    assert numbered[..ind] + indented[ind..] == numbered;
  }

  /** One step of a loop that overwrites a list entry by entry. */
  lemma SpliceStep<T>(done: seq<T>, todo: seq<T>, i: nat)
    requires i < |done| == |todo|
    ensures (done[..i] + todo[i..])[i := done[i]] == done[..i + 1] + todo[i + 1..]
  {
  }

  // ---------------------------------------------------------------------------
  // Properties of the source window
  // ---------------------------------------------------------------------------

  /** Entry `i` carries the number `co_firstlineno + i - 1`, and exactly the
      entry at index `offset + 1` is highlighted, whatever the frame. */
  lemma WindowNumbering(f: Frame)
    ensures forall i :: 0 <= i < |WindowEntries(f)| ==>
      WindowEntries(f)[i].number == f.firstlineno + i - 1 &&
      (WindowEntries(f)[i].highlighted <==> i == Offset(f) + 1)
  {
  }

  /** For a well-placed frame the window holds the `offset + 1` lines from the
      function's first line through the failing line, each indented by one
      tab and numbered with its true line number, between two indented
      overflow markers. */
  lemma {:induction false} WindowShape(f: Frame)
    requires WellPlaced(f)
    ensures |WindowEntries(f)| == Offset(f) + 3
    ensures WindowEntries(f)[0].text == TAB + FRAME_OVERFLOW
    ensures WindowEntries(f)[Offset(f) + 2].text == TAB + FRAME_OVERFLOW
    ensures forall k :: 0 <= k <= Offset(f) ==>
      WindowEntries(f)[k + 1].text == TAB + SourceLines(f)[k] &&
      WindowEntries(f)[k + 1].number == f.firstlineno + k
  {
    var shown := SliceTo(SourceLines(f), Offset(f) + 1);
    var raw := [FRAME_OVERFLOW] + shown + [FRAME_OVERFLOW];
    assert |shown| == Offset(f) + 1;
    forall i | 0 <= i < |raw|
      ensures Wrapped(f)[i] == TAB + raw[i]
    {
      IndentLineDefault(raw[i], Some(1));
    }
  }

  /** The number of highlighted entries. */
  function HighlightCount(w: seq<Entry>): nat
  {
    if |w| == 0 then 0 else (if w[0].highlighted then 1 else 0) + HighlightCount(w[1..])
  }

  lemma {:induction false} HighlightCountSingle(w: seq<Entry>, k: nat)
    requires k < |w|
    requires forall i :: 0 <= i < |w| ==> (w[i].highlighted <==> i == k)
    ensures HighlightCount(w) == 1
  {
    if k == 0 {
      NoHighlight(w[1..]);
    } else {
      HighlightCountSingle(w[1..], k - 1);
    }
  }

  lemma {:induction false} NoHighlight(w: seq<Entry>)
    requires forall i :: 0 <= i < |w| ==> !w[i].highlighted
    ensures HighlightCount(w) == 0
  {
    if |w| > 0 {
      NoHighlight(w[1..]);
    }
  }

  /** For a well-placed frame exactly one window line is highlighted: the one
      at index `offset + 1`, numbered `f_lineno`, showing the failing line. */
  lemma ExactlyOneHighlight(f: Frame)
    requires WellPlaced(f)
    ensures HighlightCount(WindowEntries(f)) == 1
    ensures WindowEntries(f)[Offset(f) + 1].highlighted
    ensures WindowEntries(f)[Offset(f) + 1].number == f.lineno
    ensures WindowEntries(f)[Offset(f) + 1].text == TAB + SourceLines(f)[Offset(f)]
  {
    WindowShape(f);
    WindowNumbering(f);
    HighlightCountSingle(WindowEntries(f), Offset(f) + 1);
  }

  /** When the failing line lies more than one line above the function's first
      line, nothing is highlighted. */
  lemma NoHighlightAbove(f: Frame)
    requires Offset(f) < -1
    ensures HighlightCount(WindowEntries(f)) == 0
  {
    WindowNumbering(f);
    NoHighlight(WindowEntries(f));
  }

  /** When the failing line lies past the end of the source, the slice is
      clamped: the window shows every source line between the two markers,
      and the only line that can be highlighted is the closing marker, when
      the failing line is the one just past the source. */
  lemma {:induction false} WindowClamped(f: Frame)
    requires Offset(f) >= |SourceLines(f)|
    ensures |WindowEntries(f)| == |SourceLines(f)| + 2
    ensures forall k :: 0 <= k < |SourceLines(f)| ==>
      WindowEntries(f)[k + 1].text == TAB + SourceLines(f)[k]
    ensures HighlightCount(WindowEntries(f)) == (if Offset(f) == |SourceLines(f)| then 1 else 0)
  {
    var raw := [FRAME_OVERFLOW] + SourceLines(f) + [FRAME_OVERFLOW];
    assert SliceTo(SourceLines(f), Offset(f) + 1) == SourceLines(f);
    forall i | 0 <= i < |raw|
      ensures Wrapped(f)[i] == TAB + raw[i]
    {
      IndentLineDefault(raw[i], Some(1));
    }
    WindowNumbering(f);
    if Offset(f) == |SourceLines(f)| {
      HighlightCountSingle(WindowEntries(f), Offset(f) + 1);
    } else {
      NoHighlight(WindowEntries(f));
    }
  }

  /** A non-negative line number is written with at least three digits, padded
      with zeros, and reads back as the same number. */
  lemma PaddedNumberValue(n: int)
    requires n >= 0
    ensures |PaddedNumber(n)| >= 3
    ensures AllDigits(PaddedNumber(n)) && DecimalValue(PaddedNumber(n)) == n
  {
    var s := IntToString(n);
    var p := PaddedNumber(n);
    IntToStringValue(n);
    RJustShape(s, 3, '0');
    LeadingZerosValue(p[..|p| - |s|], s);
    assert p == p[..|p| - |s|] + s;
  }

  // ---------------------------------------------------------------------------
  // render_tb_frame
  // ---------------------------------------------------------------------------

  /** The second line of a block: `in '<name>' @ line <lineno>:`, indented. */
  function Header(f: Frame): string
  {
    IndentLine("in " + PyRepr(f.name) + " @ line " + IntToString(f.lineno) + ":", None)
  }

  /** The block `render_tb_frame` appends for a frame. */
  function FrameBlock(f: Frame): string
  {
    Join(["from " + f.filename, Header(f), WindowText(f)], "\n")
  }

  /** `render_tb_frame`: renders the frame and appends exactly one block. */
  method RenderFrame(tb: Frame, render: TracebackRender)
    modifies render`rendered
    ensures render.rendered == old(render.rendered) + [FrameBlock(tb)]
  {
    var frameRender := ["from " + tb.filename];
    frameRender := frameRender + [IndentLine("in " + PyRepr(tb.name) + " @ line " + IntToString(tb.lineno) + ":", None)];
    var source := RenderSource(tb);
    frameRender := frameRender + [source];
    assert frameRender == ["from " + tb.filename, Header(tb), WindowText(tb)];
    render.rendered := render.rendered + [Join(frameRender, "\n")];
  }

  /** A padded line number never holds a newline. */
  lemma PaddedNumberOneLine(n: int)
    ensures '\n' !in PaddedNumber(n)
  {
    var s := IntToString(n);
    IntToStringValue(n);
    RJustShape(s, 3, '0');
    var p := PaddedNumber(n);
    forall i | 0 <= i < |p|
      ensures p[i] != '\n'
    {
      if i >= |p| - |s| {
        assert p[i] == p[|p| - |s|..][i - (|p| - |s|)];
        if n < 0 && i == |p| - |s| {
          assert p[i] == s[0];
        } else if n < 0 {
          assert p[i] == s[1..][i - (|p| - |s|) - 1];
        }
      }
    }
  }

  /** A window line is one line of text. */
  lemma WindowLinesOneLine(f: Frame)
    ensures forall i :: 0 <= i < |WindowLines(f)| ==> '\n' !in WindowLines(f)[i]
  {
    var raw := [FRAME_OVERFLOW] + SliceTo(SourceLines(f), Offset(f) + 1) + [FRAME_OVERFLOW];
    SplitPieces(f.source, '\n');
    forall i | 0 <= i < |WindowLines(f)|
      ensures '\n' !in WindowLines(f)[i]
    {
      var e := WindowEntries(f)[i];
      IndentLineDefault(raw[i], Some(1));
      assert '\n' !in raw[i];
      assert '\n' !in e.text;
      PaddedNumberOneLine(e.number);
    }
  }

  /** The header never holds a newline, whatever the function name. */
  lemma HeaderOneLine(f: Frame)
    ensures '\n' !in Header(f)
  {
    var r := PyRepr(f.name);
    var s := IntToString(f.lineno);
    assert '\n' !in r by {
      ReprShape(f.name);
    }
    assert '\n' !in s by {
      IntToStringValue(f.lineno);
      if f.lineno < 0 {
        assert s == [s[0]] + s[1..];
      }
    }
    var line := "in " + r + " @ line " + s + ":";
    assert '\n' !in line;
    IndentLineDefault(line, None);
  }

  /** Read line by line, a block is `from <filename>`, then the header, then
      the lines of the source window, for any file name without a newline. */
  lemma FrameBlockLines(f: Frame)
    requires '\n' !in f.filename
    ensures Split(FrameBlock(f), '\n') == ["from " + f.filename, Header(f)] + WindowLines(f)
  {
    var w := WindowLines(f);
    var head := ["from " + f.filename, Header(f)];
    assert |w| >= 2;
    JoinAppend(head, w, NEWLINE);
    JoinCons(head[0], [Header(f)], NEWLINE);
    JoinCons(head[0], [Header(f), Join(w, NEWLINE)], NEWLINE);
    JoinCons(Header(f), [Join(w, NEWLINE)], NEWLINE);
    assert FrameBlock(f) == Join(head + w, NEWLINE);
    HeaderOneLine(f);
    WindowLinesOneLine(f);
    JoinThenSplit(head + w, '\n');
  }

  /** For a plain function name the header reads `in '<name>' @ line N:`
      behind one tab. */
  lemma HeaderOfPlainName(f: Frame)
    requires forall i :: 0 <= i < |f.name| ==> PlainChar(f.name[i])
    ensures Header(f) == TAB + "in '" + f.name + "' @ line " + IntToString(f.lineno) + ":"
  {
    ReprOfPlainName(f.name);
    IndentLineDefault("in " + PyRepr(f.name) + " @ line " + IntToString(f.lineno) + ":", None);
  }

  // ---------------------------------------------------------------------------
  // TracebackRender, message and render_tb
  // ---------------------------------------------------------------------------

  /** `f"{name}: {value}"` for each local, in mapping order. */
  function LocalLines(locals: seq<(string, string)>): (r: seq<string>)
    ensures |r| == |locals|
  {
    seq(|locals|, i requires 0 <= i < |locals| => locals[i].0 + ": " + locals[i].1)
  }

  /** The text of `message`: the blocks in reverse order joined by newlines,
      then `locals:`, then each local indented, all joined by newlines. */
  function MessageOf(rendered: seq<string>, locals: seq<(string, string)>): string
  {
    Join([Join(Reverse(rendered), NEWLINE)] + (["locals:"] + IndentAll(LocalLines(locals), None, None)), NEWLINE)
  }

  /** The accumulator of one render: the blocks rendered so far, deepest
      first, and the faulting frame once it has been reached. */
  class TracebackRender {
    var rendered: seq<string>
    var lastTb: Option<Frame>

    constructor ()
      ensures rendered == [] && lastTb == None
    {
      rendered := [];
      lastTb := None;
    }

    /** The `last` setter. */
    method SetLast(tb: Frame)
      modifies this`lastTb
      ensures lastTb == Some(tb)
    {
      lastTb := Some(tb);
    }

    /** The `message` property; `None` stands for the attribute error raised
        when no faulting frame has been recorded. */
    function Message(): (m: Option<string>)
      reads this
      ensures m.None? <==> lastTb.None?
    {
      if lastTb.None? then None else Some(MessageOf(rendered, lastTb.value.locals))
    }
  }

  /** The blocks of a chain in chain order, catch site first. */
  function Blocks(chain: seq<Frame>): (r: seq<string>)
    ensures |r| == |chain|
  {
    seq(|chain|, k requires 0 <= k < |chain| => FrameBlock(chain[k]))
  }

  /** `inner` of `render_tb`: recurse to the deepest frame, record it as
      `last`, then render each frame on the way back out. */
  method RenderTbInner(render: TracebackRender, chain: seq<Frame>, i: nat)
    requires i < |chain|
    modifies render
    decreases |chain| - i
    ensures render.rendered == old(render.rendered) + Reverse(Blocks(chain)[i..])
    ensures render.lastTb == Some(chain[|chain| - 1])
  {
    if i + 1 < |chain| {
      RenderTbInner(render, chain, i + 1);
    } else {
      render.SetLast(chain[i]);
    }
    RenderFrame(chain[i], render);
    assert Blocks(chain)[i..][1..] == Blocks(chain)[i + 1..];
  }

  /** `render_tb`: a fresh accumulator holding one block per frame, deepest
      first, and the deepest frame as `last`. */
  method RenderTb(chain: seq<Frame>) returns (render: TracebackRender)
    requires |chain| >= 1
    ensures fresh(render)
    ensures render.rendered == Reverse(Blocks(chain))
    ensures render.lastTb == Some(chain[|chain| - 1])
    ensures render.Message() == Some(Report(chain))
  {
    render := new TracebackRender();
    RenderTbInner(render, chain, 0);
    assert Blocks(chain)[0..] == Blocks(chain);
    RenderedMessage(chain);
  }

  /** The report for a chain: its blocks catch site first, then `locals:`,
      then one indented line per local of the deepest frame. */
  function Report(chain: seq<Frame>): string
    requires |chain| >= 1
  {
    Join(Blocks(chain) + (["locals:"] + IndentAll(LocalLines(chain[|chain| - 1].locals), None, None)), NEWLINE)
  }

  // ---------------------------------------------------------------------------
  // Properties of the render
  // ---------------------------------------------------------------------------

  /** A non-empty `_rendered` is flattened into the message: the message is the
      reversed blocks, `locals:` and the indented locals, joined by newlines. */
  lemma MessageFlat(rendered: seq<string>, locals: seq<(string, string)>)
    requires |rendered| >= 1
    ensures MessageOf(rendered, locals) ==
      Join(Reverse(rendered) + (["locals:"] + IndentAll(LocalLines(locals), None, None)), NEWLINE)
  {
    JoinFlatHead(Reverse(rendered), ["locals:"] + IndentAll(LocalLines(locals), None, None), NEWLINE);
  }

  /** The message after `render_tb` reads catch site first, faulting frame
      last, then the faulting frame's locals. */
  lemma RenderedMessage(chain: seq<Frame>)
    requires |chain| >= 1
    ensures MessageOf(Reverse(Blocks(chain)), chain[|chain| - 1].locals) == Report(chain)
  {
    MessageFlat(Reverse(Blocks(chain)), chain[|chain| - 1].locals);
    ReverseReverse(Blocks(chain));
  }

  /** `render_tb` leaves one block per frame in `_rendered`, deepest first:
      block `k` is the block of the frame `k` places above the deepest, so the
      first is the faulting frame's and the last the catch site's. */
  lemma RenderedOrder(chain: seq<Frame>, k: nat)
    requires k < |chain|
    ensures |Reverse(Blocks(chain))| == |chain|
    ensures Reverse(Blocks(chain))[k] == FrameBlock(chain[|chain| - 1 - k])
  {
    var b := Blocks(chain);
    var j := |chain| - 1 - k;
    ReverseAt(b, k);
    assert b[j] == FrameBlock(chain[j]);
  }

  /** The locals section has one line per local of the faulting frame, in
      mapping order, each `name: value` behind one tab. */
  lemma LocalsSection(locals: seq<(string, string)>)
    ensures |IndentAll(LocalLines(locals), None, None)| == |locals|
    ensures forall i :: 0 <= i < |locals| ==>
      IndentAll(LocalLines(locals), None, None)[i] == TAB + locals[i].0 + ": " + locals[i].1
  {
    forall i | 0 <= i < |locals|
      ensures IndentAll(LocalLines(locals), None, None)[i] == TAB + locals[i].0 + ": " + locals[i].1
    {
      IndentLineDefault(LocalLines(locals)[i], None);
    }
  }

  /** With no locals the message ends in `locals:`. */
  lemma MessageWithoutLocals(rendered: seq<string>)
    ensures MessageOf(rendered, []) == Join(Reverse(rendered), NEWLINE) + NEWLINE + "locals:"
  {
    assert ["locals:"] + IndentAll(LocalLines([]), None, None) == ["locals:"];
    JoinAppend([Join(Reverse(rendered), NEWLINE)], ["locals:"], NEWLINE);
  }
}
