# Traceback renderer of Chell, modelled in Dafny

Chell's traceback renderer (`src/chell/traceb.py`) turns a caught exception's
chain of traceback records into one diagnostic string. `render_tb` recurses
along `tb_next` to the deepest record and records it as `last`. On the way
back out, `render_tb_frame` appends one block per frame to the accumulator
`_rendered`, so the blocks end up deepest first. Each block has three parts:
a `from <file>` line, an indented `in '<name>' @ line N:` line, and a source
window built by `render_tb_source`. The window holds the function's source
from its first line through the failing line, between two `FRAME_OVERFLOW`
markers. Every line of it is indented, numbered with its absolute line number
zero-padded to three digits, and prefixed with `|`. The failing line carries
the `ERRLINE` marker. `message` joins the blocks in reverse order, so the
catch site comes first. It then appends `locals:` and one indented
`name: value` line per local of the faulting frame.

Files:

- `pytext.dfy`, module `PyText`: the Python built-ins the renderer relies on.
  These are `sep.join`, `str.split`, `str * n`, `str.rjust`, `str(int)`,
  `repr(str)`, `xs[:stop]` and `xs[::-1]`, each with its laws. The laws
  include split/join round trips, `str(n)` reading back as `n`, and
  reversal being an involution.
- `traceb.dfy`, module `Traceb`: the renderer itself.
  - The pure parts are functions: `indent_line`, the window, the block and
    `message`.
  - The parts that mutate state are methods. `IndentLines` rewrites an
    `array` in place. `NumberLines` is the loop of `render_tb_source` that
    overwrites each entry. The class `TracebackRender` holds `rendered` and
    `lastTb`. `RenderFrame` appends to `rendered`, and `RenderTbInner`
    recurses like `inner`.
  - Each method is proved against the function that specifies it, and the
    properties are proved as lemmas about those functions.

A frame record is the datatype `Frame`. It holds the file name, the function
name, `f_lineno`, `co_firstlineno`, the text `inspect.getsource` returns,
and the locals as `(name, str(value))` pairs in mapping order. The chain is
a `seq<Frame>` that starts at the catch site. Its last element is the only
record without a `tb_next`.

Details of the code's behaviour the model keeps:

- The slice `[:linestop + 1]` is Python's. A negative stop counts from the
  end of the list instead of being clamped to the front (`PyText.SliceTo`).
- The overflow markers are emitted unconditionally. They are numbered like
  the other lines (`co_firstlineno - 1` and `f_lineno + 1` for a well-placed
  frame), so their numbers are not left out.
- The function name appears as its `repr`, in quotes.
- `locals:` follows the last block on the next line.

## Model

| member | source | states |
|---|---|---|
| `Traceb.TabCount` | src/chell/traceb.py:19 | `tab_count or 1`: the count is never 0. It is 1 exactly for `None`, 0 or 1; any other count is kept |
| `Traceb.IndentLine` | src/chell/traceb.py:18-20 | `indent_line` only adds a prefix: the result ends with the original line |
| `Traceb.IndentLineShape` | src/chell/traceb.py:18-20 | an indented line is the line behind `TAB_SIZE * tab_count` spaces, or behind none for a negative count |
| `Traceb.IndentLineDefault` | src/chell/traceb.py:18-20 | with `tab_count` `None`, 0 or 1 the result is exactly `TAB + line` |
| `Traceb.RepeatTab` | src/chell/traceb.py:20 | `TAB * n` is `4n` spaces, and empty when `n <= 0` |
| `Traceb.IndentAllAt` | src/chell/traceb.py:23-32 | the list keeps its length; entries the predicate rejects are unchanged; accepted entries get exactly the indent prefix |
| `Traceb.IndentLines` | src/chell/traceb.py:23-32 | rewrites the array in place, returns that same array, and leaves it equal to `IndentAll` of the old contents |
| `Traceb.RenderSource` | src/chell/traceb.py:106-123 | returns exactly the window text `WindowText(f)` specified by the window functions |
| `Traceb.NumberLines` | src/chell/traceb.py:116-121 | the loop rewrites entry `i` in place as `\|`, then the padded number `linestart + i - 1`, a space and the old text. The text is wrapped in the `ERRLINE` mark exactly when that number is the failing line |
| `Traceb.WindowNumbering` | src/chell/traceb.py:116-119 | for every frame, window entry `i` is numbered `co_firstlineno + i - 1` and is highlighted iff `i == offset + 1` |
| `Traceb.WindowShape` | src/chell/traceb.py:107-114 | for `0 <= offset < #lines` the window has `offset + 3` lines. They are a tab-indented marker, the `offset + 1` source lines through the failing line (each tab-indented, source line `k` numbered `co_firstlineno + k`), and a tab-indented marker |
| `Traceb.ExactlyOneHighlight` | src/chell/traceb.py:116-121 | for a well-placed frame exactly one window line is highlighted. It is the line at index `offset + 1`, numbered `f_lineno`, and it shows the failing source line |
| `Traceb.HighlightCountSingle` | src/chell/traceb.py:118-119 | a window whose only highlighted index is `k` has highlight count 1 |
| `Traceb.NoHighlightAbove` | src/chell/traceb.py:108-119 | when `f_lineno` lies more than one line above `co_firstlineno`, no line is highlighted |
| `Traceb.WindowClamped` | src/chell/traceb.py:107-119 | when the failing line lies past the end of the source, the slice is clamped. The window has `#lines + 2` lines and shows every source line, tab-indented, between the markers. The closing marker is highlighted when the failing line is the one just past the source; otherwise nothing is |
| `Traceb.PaddedNumberValue` | src/chell/traceb.py:120 | a non-negative line number is written with at least 3 digits, zero-padded, and reads back as the same number |
| `Traceb.FrameBlockLines` | src/chell/traceb.py:94-103 | split into lines, a block is `from <filename>`, then the header, then exactly the window lines (for a file name without a newline) |
| `Traceb.HeaderOneLine` | src/chell/traceb.py:98-99 | the header line never contains a newline, whatever the function name |
| `Traceb.HeaderOfPlainName` | src/chell/traceb.py:98-99 | for an ordinary function name the header is `TAB + "in '<name>' @ line <lineno>:"` |
| `Traceb.RenderFrame` | src/chell/traceb.py:85-103 | appends exactly one block, `FrameBlock(tb)`, to `rendered` and changes nothing else |
| `Traceb.TracebackRender.constructor` | src/chell/traceb.py:37-41 | a new accumulator has no blocks and no `last` record |
| `Traceb.TracebackRender.SetLast` | src/chell/traceb.py:50-52 | the `last` setter records the given frame |
| `Traceb.TracebackRender.Message` | src/chell/traceb.py:54-64 | `message` fails (an attribute error on `None`) exactly when no `last` record is set. What it holds otherwise is given by its body, `MessageOf` the blocks and the last frame's locals, and the lemmas on `MessageOf` state its properties |
| `Traceb.RenderTbInner` | src/chell/traceb.py:74-79 | appends the blocks of `chain[i..]` in reverse order and sets `last` to the deepest frame, the one without a `tb_next` |
| `Traceb.RenderTb` | src/chell/traceb.py:67-82 | for a chain of N frames the result holds N blocks, deepest first, and `last` is the deepest frame. Its `message` is the report: blocks catch site first, then `locals:` and the locals |
| `Traceb.RenderedOrder` | src/chell/traceb.py:74-79 | block `k` of `_rendered` is the block of the frame `k` places above the deepest one |
| `Traceb.MessageFlat` | src/chell/traceb.py:56-64 | for non-empty `_rendered`, `message` is the reversed blocks, then `locals:`, then the indented locals, all joined by newlines |
| `Traceb.RenderedMessage` | src/chell/traceb.py:56-64 | after `render_tb`, `message` lists the blocks catch site first and the faulting frame last, then the locals section |
| `Traceb.LocalsSection` | src/chell/traceb.py:60-63 | the locals section has exactly one line per local, in mapping order, each `TAB + name + ": " + value` |
| `Traceb.MessageWithoutLocals` | src/chell/traceb.py:61-64 | with no locals the message ends in `"\nlocals:"` |
| `PyText.Split` | src/chell/traceb.py:110 | `str.split` always yields at least one piece |
| `PyText.SplitPieces` | src/chell/traceb.py:110 | splitting yields one more piece than there are separators, and no piece contains the separator |
| `PyText.SplitThenJoin` | src/chell/traceb.py:110 | joining the split pieces with the separator gives the source text back |
| `PyText.JoinThenSplit` | src/chell/traceb.py:123 | splitting the newline-join of newline-free lines gives the lines back |
| `PyText.JoinAppend` | src/chell/traceb.py:64 | joining two non-empty lists is joining each of them, with the separator in between |
| `PyText.JoinFlatHead` | src/chell/traceb.py:56-64 | joining a joined non-empty list with more parts equals joining all the parts at once |
| `PyText.RJustShape` | src/chell/traceb.py:120 | `rjust(3, "0")` gives `max(3, len)` characters: fill characters, then the original string |
| `PyText.RepeatChar` | src/chell/traceb.py:120 | `c * n` is `n` copies of `c`, and none when `n <= 0` |
| `PyText.NatToStringValue` | src/chell/traceb.py:120 | `str(n)` for `n >= 0` is a non-empty digit string, with no leading zero unless `n == 0`, that reads back as `n` |
| `PyText.IntToStringValue` | src/chell/traceb.py:99 | `str(n)` starts with `-` exactly when `n < 0`, and the digits read back as `\|n\|` |
| `PyText.LeadingZerosValue` | src/chell/traceb.py:120 | zeros in front of a numeral do not change its value |
| `PyText.ReprQuote` | src/chell/traceb.py:99 | `repr` prefers single quotes: they are used whenever the text holds no single quote. When the text holds a double quote, single quotes are used too. So the chosen quote occurs in the text (and must be escaped) only when the text holds both kinds of quote |
| `PyText.ReprShape` | src/chell/traceb.py:99 | `repr` of a string is enclosed in the chosen quote and never holds a newline |
| `PyText.ReprOfPlainName` | src/chell/traceb.py:99 | `repr` of printable ASCII without single quotes or backslashes is the text in single quotes |
| `PyText.SliceTo` | src/chell/traceb.py:110 | `xs[:stop]` is a prefix of `xs`. Its length is `min(stop, len)` for `stop >= 0` and `max(0, len + stop)` for negative `stop` |
| `PyText.ReverseAt` | src/chell/traceb.py:57 | element `k` of `xs[::-1]` is element `len - 1 - k` of `xs` |
| `PyText.ReverseReverse` | src/chell/traceb.py:57 | reversing twice restores the order |

## Left out

- `src/build/setup.py` is not part of this model. It is packaging glue over YAML loading and `setuptools`. Its `parse_build` merges values into `setup_build` but then serialises `SETUP_BUILD`, which discards the merge (src/build/setup.py:268-294).
- `src/chell/shell/base.py` is not part of this model. It wraps stdin and stdout and runs an input loop whose only logic maps `"exit"` to `EXIT` and anything else to `UNKNOWN`.
- Reflection: `inspect.getsource`, `tb_frame`, `f_code`, `f_locals` and `str(value)` on arbitrary objects become the given fields of `Frame`. A failing source lookup, which the code lets propagate, is not modelled.
- ANSI escape sequences: `LINENO` and `ERRLINE` are modelled as the exact strings they produce. Nothing is claimed about how a terminal displays them.
- `TracebackRender.__str__` returns `message`. It is the same value as `Message` and has no member of its own.
- `render_tb` on `None`: the code would raise an attribute error. `RenderTb` requires a non-empty chain, because a caught exception always carries at least one record.
- Recursion depth: `inner` recurses once per frame, and Python's recursion limit is not modelled.
- The `predicate` passed to `indent_lines` is a pure `string -> bool`. Side effects of a Python callable are not modelled.
- `PyText.PyRepr` models quote choice and the escapes of the quote, the backslash, `\t`, `\n`, `\r` and the other ASCII control characters. It does not model the `\x`, `\u` and `\U` escapes Python uses for non-printable non-ASCII characters.
