/** Models of the Python string and list built-ins that the traceback renderer
    calls: `sep.join`, `str.split`, `str * n`, `str.rjust`, `str(int)`,
    `repr(str)`, `xs[:stop]` and `xs[::-1]`. Strings are sequences of
    characters; Python's `int` is unbounded like Dafny's. */
module PyText {

  // ---------------------------------------------------------------------------
  // sep.join(parts) and s.split(sep)
  // ---------------------------------------------------------------------------

  /** `sep.join(parts)`: the parts with `sep` between neighbours. */
  function Join(parts: seq<string>, sep: string): string
  {
    if |parts| == 0 then ""
    else if |parts| == 1 then parts[0]
    else parts[0] + sep + Join(parts[1..], sep)
  }

  /** `s.split(sep)` for a one-character separator: the maximal runs between
      separators, so there is always one more piece than separators. */
  function Split(s: string, sep: char): (r: seq<string>)
    ensures |r| >= 1
  {
    if |s| == 0 then [""]
    else
      var rest := Split(s[1..], sep);
      if s[0] == sep then [""] + rest
      else [[s[0]] + rest[0]] + rest[1..]
  }

  /** The number of occurrences of `c` in `s`. */
  function Count(s: string, c: char): nat
  {
    if |s| == 0 then 0 else (if s[0] == c then 1 else 0) + Count(s[1..], c)
  }

  /** One more piece than separators, and no piece holds a separator. */
  lemma {:induction false} SplitPieces(s: string, sep: char)
    ensures |Split(s, sep)| == Count(s, sep) + 1
    ensures forall i :: 0 <= i < |Split(s, sep)| ==> sep !in Split(s, sep)[i]
  {
    if |s| > 0 {
      SplitPieces(s[1..], sep);
      var rest := Split(s[1..], sep);
      if s[0] != sep {
        assert sep !in [s[0]] + rest[0];
      }
    }
  }

  lemma JoinCons(a: string, parts: seq<string>, sep: string)
    requires |parts| >= 1
    ensures Join([a] + parts, sep) == a + sep + Join(parts, sep)
  {
    assert ([a] + parts)[1..] == parts;
  }

  /** Gluing text onto the front of the first part glues it onto the front of
      the joined string. */
  lemma {:induction false} JoinExtendFirst(x: string, parts: seq<string>, sep: string)
    requires |parts| >= 1
    ensures Join([x + parts[0]] + parts[1..], sep) == x + Join(parts, sep)
  {
    if |parts| > 1 {
      JoinCons(x + parts[0], parts[1..], sep);
      JoinCons(parts[0], parts[1..], sep);
      assert [parts[0]] + parts[1..] == parts;
    }
  }

  /** Joining two non-empty lists is joining each and putting the separator
      between them. */
  lemma {:induction false} JoinAppend(xs: seq<string>, ys: seq<string>, sep: string)
    requires |xs| >= 1 && |ys| >= 1
    ensures Join(xs + ys, sep) == Join(xs, sep) + sep + Join(ys, sep)
  {
    if |xs| > 1 {
      JoinAppend(xs[1..], ys, sep);
      assert (xs + ys)[1..] == xs[1..] + ys;
    } else {
      assert (xs + ys)[1..] == ys;
    }
  }

  /** Joining a non-empty list and joining the result with more parts is
      joining all the parts at once. */
  lemma JoinFlatHead(xs: seq<string>, ys: seq<string>, sep: string)
    requires |xs| >= 1 && |ys| >= 1
    ensures Join([Join(xs, sep)] + ys, sep) == Join(xs + ys, sep)
  {
    JoinAppend(xs, ys, sep);
    JoinAppend([Join(xs, sep)], ys, sep);
  }

  /** Splitting on a character and joining the pieces with that character gives
      the original text back. */
  lemma {:induction false} SplitThenJoin(s: string, sep: char)
    ensures Join(Split(s, sep), [sep]) == s
  {
    if |s| > 0 {
      var rest := Split(s[1..], sep);
      SplitThenJoin(s[1..], sep);
      if s[0] == sep {
        JoinCons("", rest, [sep]);
        assert [sep] + s[1..] == s;
      } else {
        JoinExtendFirst([s[0]], rest, [sep]);
        assert [s[0]] + s[1..] == s;
      }
    }
  }

  /** Splitting text that starts with a separator-free prefix `a`. */
  lemma {:induction false} SplitPrefix(a: string, t: string, sep: char)
    requires sep !in a
    ensures Split(a + t, sep) == [a + Split(t, sep)[0]] + Split(t, sep)[1..]
  {
    if |a| > 0 {
      SplitPrefix(a[1..], t, sep);
      assert (a + t)[1..] == a[1..] + t;
      assert [a[0]] + (a[1..] + Split(t, sep)[0]) == a + Split(t, sep)[0];
    } else {
      assert a + t == t;
      assert a + Split(t, sep)[0] == Split(t, sep)[0];
      assert [Split(t, sep)[0]] + Split(t, sep)[1..] == Split(t, sep);
    }
  }

  /** Joining separator-free lines with the separator and splitting again gives
      the same lines back. */
  lemma {:induction false} JoinThenSplit(lines: seq<string>, sep: char)
    requires |lines| >= 1
    requires forall i :: 0 <= i < |lines| ==> sep !in lines[i]
    ensures Split(Join(lines, [sep]), sep) == lines
  {
    if |lines| == 1 {
      SplitPrefix(lines[0], "", sep);
      assert lines[0] + "" == lines[0];
    } else {
      var tail := Join(lines[1..], [sep]);
      JoinThenSplit(lines[1..], sep);
      assert Join(lines, [sep]) == lines[0] + ([sep] + tail);
      SplitPrefix(lines[0], [sep] + tail, sep);
      assert ([sep] + tail)[1..] == tail;
      assert Split([sep] + tail, sep) == [""] + lines[1..];
      assert lines[0] + "" == lines[0];
      assert [lines[0]] + lines[1..] == lines;
    }
  }

  // ---------------------------------------------------------------------------
  // s * n and s.rjust(width, fill)
  // ---------------------------------------------------------------------------

  /** `s * n`: `n` copies of `s` side by side; no copies when `n <= 0`. */
  function Repeat(s: string, n: int): string
  {
    if n <= 0 then "" else s + Repeat(s, n - 1)
  }

  /** `c * n` is `n` copies of the character `c`, none when `n <= 0`. */
  lemma {:induction false} RepeatChar(c: char, n: int)
    ensures |Repeat([c], n)| == if n <= 0 then 0 else n
    ensures forall i :: 0 <= i < |Repeat([c], n)| ==> Repeat([c], n)[i] == c
  {
    if n > 0 {
      RepeatChar(c, n - 1);
    }
  }

  /** `s.rjust(width, fill)`: `s` padded on the left with `fill` up to `width`
      characters; `s` itself when it is already that long. */
  function RJust(s: string, width: int, fill: char): string
  {
    if width <= |s| then s else Repeat([fill], width - |s|) + s
  }

  /** The padded string is `width` long (or `s` if longer), ends in `s`, and
      everything before `s` is the fill character. */
  lemma RJustShape(s: string, width: int, fill: char)
    ensures |RJust(s, width, fill)| == if width <= |s| then |s| else width
    ensures RJust(s, width, fill)[|RJust(s, width, fill)| - |s|..] == s
    ensures forall i :: 0 <= i < |RJust(s, width, fill)| - |s| ==> RJust(s, width, fill)[i] == fill
  {
    if width > |s| {
      RepeatChar(fill, width - |s|);
    }
  }

  // ---------------------------------------------------------------------------
  // str(n) for an int, and its inverse on digit strings
  // ---------------------------------------------------------------------------

  predicate IsDigit(c: char)
  {
    '0' <= c <= '9'
  }

  predicate AllDigits(s: string)
  {
    forall i :: 0 <= i < |s| ==> IsDigit(s[i])
  }

  function DigitChar(d: nat): (c: char)
    requires d < 10
    ensures IsDigit(c) && c as int - '0' as int == d
  {
    ('0' as int + d) as char
  }

  /** The value of a string of decimal digits, leading zeros allowed. */
  function DecimalValue(s: string): nat
    requires AllDigits(s)
  {
    if |s| == 0 then 0
    else DecimalValue(s[..|s| - 1]) * 10 + (s[|s| - 1] as int - '0' as int)
  }

  /** `str(n)` for `n >= 0`: the shortest decimal numeral of `n`. */
  function NatToString(n: nat): string
  {
    if n < 10 then [DigitChar(n)] else NatToString(n / 10) + [DigitChar(n % 10)]
  }

  /** `str(n)` for any `int`: a minus sign before the numeral of `-n` when
      `n` is negative. */
  function IntToString(n: int): string
  {
    if n < 0 then "-" + NatToString(-n) else NatToString(n)
  }

  /** `str` of a natural number is a non-empty digit string without a leading
      zero (unless the number is 0) that reads back as that number. */
  lemma {:induction false} NatToStringValue(n: nat)
    ensures |NatToString(n)| >= 1 && AllDigits(NatToString(n))
    ensures NatToString(n)[0] == '0' ==> n == 0
    ensures DecimalValue(NatToString(n)) == n
  {
    if n >= 10 {
      NatToStringValue(n / 10);
      var r := NatToString(n);
      assert r[..|r| - 1] == NatToString(n / 10);
    }
  }

  /** `str(n)` is the numeral of `n`, with a leading minus sign exactly when
      `n` is negative. */
  lemma IntToStringValue(n: int)
    ensures |IntToString(n)| >= 1 && (n < 0 <==> IntToString(n)[0] == '-')
    ensures n >= 0 ==> AllDigits(IntToString(n)) && DecimalValue(IntToString(n)) == n
    ensures n < 0 ==> AllDigits(IntToString(n)[1..]) && DecimalValue(IntToString(n)[1..]) == -n
  {
    if n < 0 {
      NatToStringValue(-n);
      assert IntToString(n)[1..] == NatToString(-n);
    } else {
      NatToStringValue(n);
    }
  }

  /** Zeros put in front of a numeral do not change its value. */
  lemma {:induction false} LeadingZerosValue(z: string, s: string)
    requires forall i :: 0 <= i < |z| ==> z[i] == '0'
    requires AllDigits(s)
    ensures AllDigits(z + s) && DecimalValue(z + s) == DecimalValue(s)
  {
    if |s| == 0 {
      assert z + s == z;
      ZerosValue(z);
    } else {
      LeadingZerosValue(z, s[..|s| - 1]);
      assert (z + s)[..|z + s| - 1] == z + s[..|s| - 1];
    }
  }

  lemma {:induction false} ZerosValue(z: string)
    requires forall i :: 0 <= i < |z| ==> z[i] == '0'
    ensures AllDigits(z) && DecimalValue(z) == 0
  {
    if |z| > 0 {
      ZerosValue(z[..|z| - 1]);
    }
  }

  // ---------------------------------------------------------------------------
  // repr(s) for a string
  // ---------------------------------------------------------------------------

  /** The quote `repr` chooses: single quotes are preferred, and the chosen
      quote needs escaping inside the text only when the text holds both
      kinds of quote. */
  function ReprQuote(s: string): (q: char)
    ensures q == '"' || q == '\''
    ensures '\'' !in s ==> q == '\''
    ensures q in s ==> '\'' in s && '"' in s
    ensures '"' in s ==> q == '\''
  {
    if '\'' in s && '"' !in s then '"' else '\''
  }

  function HexDigit(d: nat): char
    requires d < 16
  {
    "0123456789abcdef"[d]
  }

  /** How `repr` writes one character inside quotes `q`. */
  function EscapeChar(c: char, q: char): string
  {
    if c == q || c == '\\' then ['\\', c]
    else if c == '\t' then "\\t"
    else if c == '\n' then "\\n"
    else if c == '\r' then "\\r"
    else if c < ' ' || c == 127 as char then
      "\\x" + [HexDigit(c as int / 16), HexDigit(c as int % 16)]
    else [c]
  }

  function EscapeAll(s: string, q: char): string
  {
    if |s| == 0 then "" else EscapeChar(s[0], q) + EscapeAll(s[1..], q)
  }

  /** A character `repr` writes as itself inside single quotes. */
  predicate PlainChar(c: char)
  {
    ' ' <= c < 127 as char && c != '\'' && c != '\\'
  }

  /** `repr(s)` for a string: the escaped text between the chosen quotes. It is
      always one line long. */
  function PyRepr(s: string): string
  {
    var q := ReprQuote(s);
    [q] + EscapeAll(s, q) + [q]
  }

  /** No escape sequence holds a newline character. */
  lemma {:induction false} EscapeAllOneLine(s: string, q: char)
    requires q == '\'' || q == '"'
    ensures |EscapeAll(s, q)| >= |s| && '\n' !in EscapeAll(s, q)
  {
    if |s| > 0 {
      EscapeAllOneLine(s[1..], q);
      EscapeCharOneLine(s[0], q);
    }
  }

  lemma EscapeCharOneLine(c: char, q: char)
    requires q == '\'' || q == '"'
    ensures |EscapeChar(c, q)| >= 1 && '\n' !in EscapeChar(c, q)
  {
  }

  /** The repr is enclosed in the chosen quote and always fits on one line. */
  lemma ReprShape(s: string)
    ensures |PyRepr(s)| >= |s| + 2
    ensures PyRepr(s)[0] == PyRepr(s)[|PyRepr(s)| - 1] == ReprQuote(s)
    ensures '\n' !in PyRepr(s)
  {
    EscapeAllOneLine(s, ReprQuote(s));
  }

  lemma {:induction false} EscapePlain(s: string)
    requires forall i :: 0 <= i < |s| ==> PlainChar(s[i])
    ensures EscapeAll(s, '\'') == s
  {
    if |s| > 0 {
      EscapePlain(s[1..]);
      assert [s[0]] + s[1..] == s;
    }
  }

  /** The repr of a name made of printable ASCII with no single quote or
      backslash (every ASCII identifier, and names such as `<module>` or
      `<lambda>`) is the name in single quotes. */
  lemma ReprOfPlainName(s: string)
    requires forall i :: 0 <= i < |s| ==> PlainChar(s[i])
    ensures PyRepr(s) == "'" + s + "'"
  {
    assert forall i :: 0 <= i < |s| ==> s[i] != '\'';
    EscapePlain(s);
  }

  // ---------------------------------------------------------------------------
  // xs[:stop] and xs[::-1]
  // ---------------------------------------------------------------------------

  /** `xs[:stop]`: a negative `stop` counts from the end; the bound is then
      clamped to the sequence. */
  function SliceTo<T>(xs: seq<T>, stop: int): (r: seq<T>)
    ensures |r| == if stop < 0 then (if |xs| + stop < 0 then 0 else |xs| + stop)
                   else (if stop < |xs| then stop else |xs|)
    ensures r == xs[..|r|]
  {
    if stop < 0 then xs[..if |xs| + stop < 0 then 0 else |xs| + stop]
    else xs[..if stop < |xs| then stop else |xs|]
  }

  /** `xs[::-1]` */
  function Reverse<T>(xs: seq<T>): (r: seq<T>)
    ensures |r| == |xs|
  {
    if |xs| == 0 then [] else Reverse(xs[1..]) + [xs[0]]
  }

  /** Element `k` of the reversed sequence is element `|xs| - 1 - k` of the
      original. */
  lemma {:induction false} ReverseAt<T>(xs: seq<T>, k: nat)
    requires k < |xs|
    ensures Reverse(xs)[k] == xs[|xs| - 1 - k]
  {
    if k < |xs| - 1 {
      ReverseAt(xs[1..], k);
    }
  }

  /** Reversing twice gives the original order back. */
  lemma ReverseReverse<T>(xs: seq<T>)
    ensures Reverse(Reverse(xs)) == xs
  {
    forall k | 0 <= k < |xs|
      ensures Reverse(Reverse(xs))[k] == xs[k]
    {
      ReverseAt(Reverse(xs), k);
      ReverseAt(xs, |xs| - 1 - k);
    }
  }
}
