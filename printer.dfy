/**
 * The requirement checker's console printer: verbosity-gated, optionally
 * coloured output of wrapped text, section titles, error messages and
 * full-width banner blocks. Standard output is modelled as the string
 * `output` that every write appends to.
 */
module Printing {
  import opened Wrappers
  import opened PhpString
  import opened PhpWordWrap

  /** `PHP_EOL` on a Unix-like system. */
  const Eol: string := "\n"

  /** The break `wordwrap` uses when none is given, as in `printv`. */
  const WrapBreak: string := "\n"

  const Escape: char := '\U{1B}'

  /** The style table: style name to ANSI escape sequence. */
  const Styles: map<string, string> := map[
    "reset" := [Escape] + "[0m",
    "red" := [Escape] + "[31m",
    "green" := [Escape] + "[32m",
    "yellow" := [Escape] + "[33m",
    "title" := [Escape] + "[33m",
    "error" := [Escape] + "[37;41m",
    "success" := [Escape] + "[30;42m"
  ]

  /** The width used when none is given and the terminal reports none. */
  const DefaultWidth: int := 80

  /** The style `title` uses when none is given. */
  const TitleStyle: string := "title"

  /** The indent `getRequirementErrorMessage` puts before continuation lines. */
  const ErrorIndent: string := "   "

  /** The break `block` wraps with, '¬', as its two UTF-8 bytes. */
  const BlockBreak: string := ['\U{C2}', '\U{AC}']

  /** What the checker knows of a requirement: whether it holds, and the text explaining it. */
  datatype Requirement = Requirement(fulfilled: bool, testMessage: string)

  /** The printer's configuration as `printv` reads it. */
  datatype Settings = Settings(verbosity: int, colors: bool, width: int)

  /** `$width ?: 80`, where the width is the explicit one or else the terminal's. */
  function EffectiveWidth(width: Option<int>, terminalWidth: int): (w: int)
    ensures w != 0
    ensures width.Some? && width.value != 0 ==> w == width.value
    ensures width == Some(0) ==> w == DefaultWidth
    ensures width.None? ==> w == (if terminalWidth == 0 then DefaultWidth else terminalWidth)
  {
    var given := width.GetOr(terminalWidth);
    if given == 0 then DefaultWidth else given
  }

  /** The escape sequence put before a message: only with colours on and a known style. */
  function StyleCode(s: Settings, style: Option<string>): string
  {
    if s.colors && style.Some? && style.value in Styles then Styles[style.value] else []
  }

  /** The reset sequence put after every message once colours are on, styled or not. */
  function ResetCode(s: Settings): string
  {
    if s.colors then Styles["reset"] else []
  }

  /** What `printv($message, $verbosity, $style)` writes. */
  function Chunk(s: Settings, message: string, requested: int, style: Option<string>): string
  {
    if requested > s.verbosity then []
    else StyleCode(s, style) + WordWrap(message, s.width, WrapBreak) + ResetCode(s)
  }

  /** What `printvln($message, $verbosity, $style)` writes: the message, then an unstyled `PHP_EOL`. */
  function Line(s: Settings, message: string, requested: int, style: Option<string>): string
  {
    Chunk(s, message, requested, style) + Chunk(s, Eol, requested, None)
  }

  /** What a `printvln` per element of `messages` writes, in order. */
  function Lines(s: Settings, messages: seq<string>, requested: int, style: Option<string>): string
  {
    if |messages| == 0 then []
    else Lines(s, messages[..|messages| - 1], requested, style) + Line(s, messages[|messages| - 1], requested, style)
  }

  /** A text between its style code and the reset code. */
  function Styled(s: Settings, style: Option<string>, text: string): string
  {
    StyleCode(s, style) + text + ResetCode(s)
  }

  /** What `printvln` writes for a line that fits the width. */
  function Row(s: Settings, style: Option<string>, text: string): string
  {
    Styled(s, style, text) + Eol + ResetCode(s)
  }

  /** `Row` for each of `rows`, in order. */
  function Rows(s: Settings, style: Option<string>, rows: seq<string>): string
  {
    if |rows| == 0 then [] else Rows(s, style, rows[..|rows| - 1]) + Row(s, style, rows[|rows| - 1])
  }

  // ---------------------------------------------------------------------
  // title

  /** The style `title` resolves a missing one to. */
  function TitleStyleOf(style: Option<string>): (r: Option<string>)
    ensures r.Some?
    ensures style.None? ==> r == Some(TitleStyle)
    ensures style.Some? ==> r == style
  {
    Some(style.GetOr(TitleStyle))
  }

  /** The underline of a title: `str_repeat('=', min(strlen($title), $width))`. */
  function Underline(title: string, width: int): Option<string>
  {
    StrRepeat('=', Min(|title|, width))
  }

  /** What `title` writes before it returns or raises. */
  function TitleOutput(s: Settings, title: string, requested: int, style: Option<string>): string
  {
    var st := TitleStyleOf(style);
    Line(s, [], requested, st) + Line(s, title, requested, st) +
    match Underline(title, s.width)
    case None => []
    case Some(u) => Line(s, u, requested, st) + Line(s, [], requested, st)
  }

  // ---------------------------------------------------------------------
  // block

  /** The label in front of a block's message: `' ['.$title.'] '`. */
  function BlockPrefix(title: string): string
  {
    " [" + title + "] "
  }

  /** Room left for the message on a line: width minus prefix minus one, never negative. */
  function BlockLineLength(width: int, title: string): (n: int)
    ensures n >= 0
    ensures n == Max(width - |BlockPrefix(title)| - 1, 0)
  {
    var n := width - |BlockPrefix(title)| - 1;
    if n < 0 then 0 else n
  }

  /** The label followed by the trimmed message. */
  function BlockText(title: string, message: string): string
  {
    BlockPrefix(title) + Trim(message)
  }

  /** The pieces the wrapped block text explodes into at the '¬' breaks. */
  function BlockPieces(width: int, title: string, message: string): (r: seq<string>)
    ensures |r| >= 1
  {
    Explode(BlockBreak, WordWrap(BlockText(title, message), BlockLineLength(width, title), BlockBreak))
  }

  /**
   * The `index`-th piece as it goes on its line: later pieces are indented
   * under the label, their own leading blanks dropped, when there is any
   * room for text; the first piece is kept as it is.
   */
  function Reindent(piece: string, index: int, prefixLength: nat, lineLength: int): string
  {
    if index > 0 && lineLength > 0 then Repeat(' ', prefixLength) + LTrim(piece) else piece
  }

  /** The content line made of the `index`-th piece, padded on the right to the width. */
  function ContentLine(piece: string, index: int, prefixLength: nat, lineLength: int, width: int): string
  {
    PadRight(Reindent(piece, index, prefixLength, lineLength), width)
  }

  /** The content lines of a block, one per piece. */
  function ContentLines(pieces: seq<string>, prefixLength: nat, lineLength: int, width: int): (r: seq<string>)
    ensures |r| == |pieces|
  {
    seq(|pieces|, i requires 0 <= i < |pieces| => ContentLine(pieces[i], i, prefixLength, lineLength, width))
  }

  /** The content lines `block` prints for a title and a message. */
  function BlockLines(width: int, title: string, message: string): seq<string>
  {
    ContentLines(BlockPieces(width, title, message), |BlockPrefix(title)|, BlockLineLength(width, title), width)
  }

  /**
   * What the output statements of `block` write, given the band of spaces
   * (None when `str_repeat` raised) and the content lines.
   */
  function Banner(s: Settings, band: Option<string>, lines: seq<string>, requested: int, style: Option<string>): string
  {
    Line(s, [], requested, None) +
    match band
    case None => []
    case Some(b) =>
      Line(s, b, requested, style) +
      Lines(s, lines, requested, style) +
      Chunk(s, b, requested, style) +
      Line(s, [], requested, None)
  }

  /** What `block` writes before it returns or raises. */
  function BlockOutput(s: Settings, title: string, message: string, requested: int, style: Option<string>): string
  {
    Banner(s, StrRepeat(' ', s.width), BlockLines(s.width, title, message), requested, style)
  }

  /**
   * The do-while of `block` that turns the exploded pieces into padded
   * content lines, shifting one piece off the front at a time.
   */
  method BuildLines(wrapped: seq<string>, prefixLength: nat, lineLength: int, width: int) returns (lines: seq<string>)
    requires |wrapped| >= 1
    ensures lines == ContentLines(wrapped, prefixLength, lineLength, width)
  {
    lines := [];
    var rest := wrapped;
    // explode never returns an empty array, so the body runs at least once
    while |rest| > 0
      invariant |lines| + |rest| == |wrapped|
      invariant rest == wrapped[|lines|..]
      invariant forall i :: 0 <= i < |lines| ==> lines[i] == ContentLine(wrapped[i], i, prefixLength, lineLength, width)
    {
      var line := rest[0];
      rest := rest[1..];
      if |lines| > 0 && lineLength > 0 {
        line := Repeat(' ', prefixLength) + LTrim(line);
      }
      lines := lines + [PadRight(line, width)];
    }
  }

  lemma LinesSnoc(s: Settings, lines: seq<string>, i: int, requested: int, style: Option<string>)
    requires 0 <= i < |lines|
    ensures Lines(s, lines[..i + 1], requested, style) == Lines(s, lines[..i], requested, style) + Line(s, lines[i], requested, style)
  {
    assert lines[..i + 1][..i] == lines[..i];
  }

  /** Regrouping appended output. */
  lemma AppendTwo(o: string, a: string, b: string)
    ensures o + a + b == o + (a + b)
  {
  }

  /** Regrouping appended output. */
  lemma AppendFour(o: string, a: string, b: string, c: string, d: string)
    ensures o + a + b + c + d == o + (a + b + c + d)
  {
  }

  // ---------------------------------------------------------------------
  // The printer

  class Printer {
    var verbosity: int
    const supportColors: bool
    const width: int
    /** Everything written to standard output so far. */
    var output: string

    function Current(): Settings
      reads this`verbosity
    {
      Settings(verbosity, supportColors, width)
    }

    /**
     * `new Printer($verbosity, $supportColors, $width)`. The terminal is
     * asked for its width only when `width` is None; its answer is the
     * parameter `terminalWidth`.
     */
    constructor (verbosity: int, supportColors: bool, width: Option<int>, terminalWidth: int)
      ensures this.verbosity == verbosity && this.supportColors == supportColors
      ensures this.width == EffectiveWidth(width, terminalWidth)
      ensures output == []
    {
      var w := if width.None? then terminalWidth else width.value;
      this.verbosity := verbosity;
      this.supportColors := supportColors;
      this.width := if w == 0 then DefaultWidth else w;
      output := [];
    }

    method GetVerbosity() returns (v: int)
      ensures v == verbosity
    {
      v := verbosity;
    }

    method SetVerbosity(v: int)
      modifies this`verbosity
      ensures verbosity == v
      ensures output == old(output)
    {
      verbosity := v;
    }

    method Printv(message: string, requested: int, style: Option<string>)
      modifies this`output
      ensures output == old(output) + Chunk(Current(), message, requested, style)
    {
      if requested > verbosity {
        return;
      }
      var wrapped := WordWrap(message, width, WrapBreak);
      var styled := (if supportColors && style.Some? && style.value in Styles then Styles[style.value] else []) +
                    wrapped + (if supportColors then Styles["reset"] else []);
      output := output + styled;
    }

    method Printvln(message: string, requested: int, style: Option<string>)
      modifies this`output
      ensures output == old(output) + Line(Current(), message, requested, style)
    {
      Printv(message, requested, style);
      Printv(Eol, requested, None);
    }

    /** `title`; `raised` is the ValueError `str_repeat` throws for a negative width. */
    method Title(title: string, requested: int, style: Option<string>) returns (raised: bool)
      modifies this`output
      ensures raised <==> width < 0
      ensures output == old(output) + TitleOutput(Current(), title, requested, style)
    {
      var st := style;
      if st.None? {
        st := Some(TitleStyle);
      }
      assert st == TitleStyleOf(style);
      ghost var s := Current();
      ghost var l1, l2 := Line(s, [], requested, st), Line(s, title, requested, st);
      Printvln([], requested, st);
      ghost var o1 := output;
      Printvln(title, requested, st);
      AppendTwo(old(output), l1, l2);
      var underline := StrRepeat('=', Min(|title|, width));
      assert underline == Underline(title, s.width);
      if underline.None? {
        assert TitleOutput(s, title, requested, style) == l1 + l2 + [];
        return true;
      }
      ghost var l3, l4 := Line(s, underline.value, requested, st), Line(s, [], requested, st);
      assert TitleOutput(s, title, requested, style) == l1 + l2 + (l3 + l4);
      Printvln(underline.value, requested, st);
      Printvln([], requested, st);
      AppendTwo(old(output) + (l1 + l2), l3, l4);
      AppendTwo(old(output), l1 + l2, l3 + l4);
      raised := false;
    }

    function GetRequirementErrorMessage(requirement: Requirement): (r: Option<string>)
      reads this
      ensures r.None? <==> requirement.fulfilled
      ensures r.Some? ==> |r.value| >= |Eol| && r.value[|r.value| - |Eol|..] == Eol
    {
      if requirement.fulfilled then None
      else Some(WordWrap(requirement.testMessage, width - 3, Eol + ErrorIndent) + Eol)
    }

    /** The `foreach` of `block`: one `printvln` per content line. */
    method PrintLines(lines: seq<string>, requested: int, style: Option<string>)
      modifies this`output
      ensures output == old(output) + Lines(Current(), lines, requested, style)
    {
      ghost var s := Current();
      for i := 0 to |lines|
        invariant Current() == s
        invariant output == old(output) + Lines(s, lines[..i], requested, style)
      {
        ghost var o := output;
        Printvln(lines[i], requested, style);
        LinesSnoc(s, lines, i, requested, style);
        AppendTwo(old(output), Lines(s, lines[..i], requested, style), Line(s, lines[i], requested, style));
      }
      assert lines[..|lines|] == lines;
    }

    /** `block`; `raised` is the ValueError `str_repeat` throws for a negative width. */
    method Block(title: string, message: string, requested: int, style: Option<string>) returns (raised: bool)
      modifies this`output
      ensures raised <==> width < 0
      ensures output == old(output) + BlockOutput(Current(), title, message, requested, style)
    {
      var prefix := " [" + title + "] ";
      var lineLength := width - |prefix| - 1;
      if lineLength < 0 {
        lineLength := 0;
      }
      var text := prefix + Trim(message);
      var wrapped := Explode(BlockBreak, WordWrap(text, lineLength, BlockBreak));
      assert wrapped == BlockPieces(width, title, message);
      var lines := BuildLines(wrapped, |prefix|, lineLength, width);
      assert lines == BlockLines(width, title, message);
      ghost var s := Current();

      ghost var a := Line(s, [], requested, None);
      Printvln([], requested, None);
      var band := StrRepeat(' ', width);
      if band.None? {
        assert Banner(s, band, lines, requested, style) == a + [];
        return true;
      }
      ghost var o1 := output;
      Printvln(band.value, requested, style);
      ghost var o2 := output;
      PrintLines(lines, requested, style);
      ghost var o3 := output;
      Printv(band.value, requested, style);
      ghost var o4 := output;
      Printvln([], requested, None);
      ghost var l1, l2 := Line(s, band.value, requested, style), Lines(s, lines, requested, style);
      ghost var l3, l4 := Chunk(s, band.value, requested, style), Line(s, [], requested, None);
      assert o2 == o1 + l1 && o3 == o2 + l2 && o4 == o3 + l3 && output == o4 + l4;
      ghost var b := l1 + l2 + l3 + l4;
      AppendFour(o1, l1, l2, l3, l4);
      assert Banner(s, band, lines, requested, style) == a + b;
      AppendTwo(old(output), a, b);
      raised := false;
    }
  }
}
