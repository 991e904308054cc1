/** What the printer's operations are proved to write. */
module PrinterProperties {
  import opened Wrappers
  import opened PhpString
  import opened PhpStringFacts
  import opened PhpWordWrap
  import opened Printing

  /**
   * `printv` writes nothing when the requested verbosity is above the held
   * one; otherwise it writes the style code, the message cut into lines at
   * some of its spaces (each such space turned into wordwrap's default
   * break, a newline), and the reset code. Lines fit the width when the
   * message has no newline of its own.
   */
  lemma PrintvWrites(s: Settings, message: string, requested: int, style: Option<string>) returns (lines: seq<string>)
    ensures Join(" ", lines) == message
    ensures requested > s.verbosity ==> Chunk(s, message, requested, style) == []
    ensures requested <= s.verbosity ==> Chunk(s, message, requested, style) == StyleCode(s, style) + Join(WrapBreak, lines) + ResetCode(s)
    ensures Free(message, WrapBreak) ==> forall i :: 0 <= i < |lines| ==> Fits(lines[i], s.width)
  {
    lines := WordWrapLines(message, s.width, WrapBreak);
  }

  /**
   * The style code is the table's entry exactly when colours are on and the
   * style is a key of the table; the reset code appears whenever colours
   * are on, even for an unknown or missing style.
   */
  lemma StyleCodes(s: Settings, style: Option<string>)
    ensures StyleCode(s, style) != [] <==> s.colors && style.Some? && style.value in Styles
    ensures s.colors && style.Some? && style.value in Styles ==> StyleCode(s, style) == Styles[style.value]
    ensures ResetCode(s) != [] <==> s.colors
    ensures s.colors ==> ResetCode(s) == [Escape] + "[0m"
  {
    if s.colors && style.Some? && style.value in Styles {
      assert Styles[style.value][0] == Escape;
    }
  }

  /** With colours off, no escape byte is written unless the message holds one. */
  lemma NoEscapeWithoutColours(s: Settings, message: string, requested: int, style: Option<string>)
    requires !s.colors && Escape !in message
    ensures Escape !in Chunk(s, message, requested, style)
    ensures Escape !in Line(s, message, requested, style)
  {
    var lines := WordWrapLines(message, s.width, WrapBreak);
    PartsAvoid(" ", lines, Escape);
    JoinAvoids(WrapBreak, lines, Escape);
    EolChunk(s, requested);
  }

  /**
   * Wrapping `PHP_EOL` alone at the default break gives it back: with
   * `PHP_EOL` being `"\n"`, it is a break already present.
   */
  lemma EolWraps(width: int)
    ensures WordWrap(Eol, width, WrapBreak) == Eol
  {
    assert WrapInPlace(Eol, width, '\n', 1, Eol, 1, 1) == Eol;
  }

  /** The `PHP_EOL` chunk `printvln` adds: unstyled, gated, reset afterwards. */
  lemma EolChunk(s: Settings, requested: int)
    ensures Chunk(s, Eol, requested, None) == if requested > s.verbosity then [] else Eol + ResetCode(s)
  {
    EolWraps(s.width);
  }

  /**
   * `printvln` writes all or nothing: both the message chunk and the
   * unstyled `PHP_EOL` chunk, or neither, as both use the same verbosity.
   */
  lemma PrintvlnAllOrNothing(s: Settings, message: string, requested: int, style: Option<string>)
    ensures requested > s.verbosity ==> Line(s, message, requested, style) == []
    ensures requested <= s.verbosity ==>
      Line(s, message, requested, style) == Chunk(s, message, requested, style) + Eol + ResetCode(s)
  {
    EolChunk(s, requested);
  }

  /** A `printvln` that is not suppressed writes one `Row` of the wrapped message. */
  lemma LineIsRow(s: Settings, message: string, requested: int, style: Option<string>)
    requires requested <= s.verbosity
    ensures Line(s, message, requested, style) == Row(s, style, WordWrap(message, s.width, WrapBreak))
  {
    EolChunk(s, requested);
  }

  /** A `printvln` of a message that fits the width writes it unchanged. */
  lemma FittingLineIsRow(s: Settings, message: string, requested: int, style: Option<string>)
    requires requested <= s.verbosity && |message| <= s.width
    ensures Line(s, message, requested, style) == Row(s, style, message)
  {
    LineIsRow(s, message, requested, style);
    WordWrapShort(message, s.width, WrapBreak);
  }

  // ---------------------------------------------------------------------
  // title

  /**
   * A `title` that is not suppressed writes, in its style (`title` when
   * none is given): a blank line, the wrapped title, an underline of `=`
   * as long as the title but never longer than the width, and a blank line.
   */
  lemma TitleLayout(s: Settings, title: string, requested: int, style: Option<string>)
    requires requested <= s.verbosity && s.width >= 0
    ensures var st := TitleStyleOf(style);
      var u := Repeat('=', Min(|title|, s.width));
      TitleOutput(s, title, requested, style) ==
        Row(s, st, []) + Row(s, st, WordWrap(title, s.width, WrapBreak)) + Row(s, st, u) + Row(s, st, [])
    ensures style.None? ==> TitleStyleOf(style) == Some("title")
  {
    var st := TitleStyleOf(style);
    var u := Repeat('=', Min(|title|, s.width));
    assert Underline(title, s.width) == Some(u);
    var l1, l2 := Line(s, [], requested, st), Line(s, title, requested, st);
    var l3, l4 := Line(s, u, requested, st), Line(s, [], requested, st);
    assert TitleOutput(s, title, requested, style) == l1 + l2 + (l3 + l4);
    HeadingRows(s, title, u, requested, st);
  }

  /** The four `printvln`s of a title, with an underline that fits the width. */
  lemma HeadingRows(s: Settings, title: string, u: string, requested: int, st: Option<string>)
    requires requested <= s.verbosity && |u| <= s.width
    ensures Line(s, [], requested, st) + Line(s, title, requested, st) + (Line(s, u, requested, st) + Line(s, [], requested, st)) ==
      Row(s, st, []) + Row(s, st, WordWrap(title, s.width, WrapBreak)) + Row(s, st, u) + Row(s, st, [])
  {
    FittingLineIsRow(s, [], requested, st);
    LineIsRow(s, title, requested, st);
    FittingLineIsRow(s, u, requested, st);
  }

  /** The underline is made of `=` only and is `min(strlen($title), $width)` long. */
  lemma TitleUnderline(title: string, width: int)
    requires width >= 0
    ensures Underline(title, width).Some?
    ensures var u := Underline(title, width).value;
      |u| == Min(|title|, width) && |u| <= width && |u| <= |title| && forall k :: 0 <= k < |u| ==> u[k] == '='
  {
  }

  /** A `title` above the held verbosity writes nothing. */
  lemma TitleSuppressed(s: Settings, title: string, requested: int, style: Option<string>)
    requires requested > s.verbosity
    ensures TitleOutput(s, title, requested, style) == []
  {
    var st := TitleStyleOf(style);
    PrintvlnAllOrNothing(s, [], requested, st);
    PrintvlnAllOrNothing(s, title, requested, st);
    match Underline(title, s.width)
    case None =>
    case Some(u) =>
      PrintvlnAllOrNothing(s, u, requested, st);
  }

  /** With colours off, a title without an escape byte is written without one. */
  lemma TitleNoEscapeWithoutColours(s: Settings, title: string, requested: int, style: Option<string>)
    requires !s.colors && Escape !in title
    ensures Escape !in TitleOutput(s, title, requested, style)
  {
    var st := TitleStyleOf(style);
    NoEscapeWithoutColours(s, [], requested, st);
    NoEscapeWithoutColours(s, title, requested, st);
    match Underline(title, s.width)
    case None =>
    case Some(u) =>
      NoEscapeWithoutColours(s, u, requested, st);
  }

  // ---------------------------------------------------------------------
  // getRequirementErrorMessage

  /**
   * An unfulfilled requirement's message is its text cut into lines at some
   * of its spaces, the lines joined by `PHP_EOL` and a three-space indent,
   * and `PHP_EOL` at the end; without such a break in the text, every line
   * fits in `width - 3` columns.
   */
  lemma ErrorMessageLines(p: Printer, requirement: Requirement) returns (lines: seq<string>)
    requires !requirement.fulfilled
    ensures p.GetRequirementErrorMessage(requirement) == Some(Join(Eol + ErrorIndent, lines) + Eol)
    ensures Join(" ", lines) == requirement.testMessage
    ensures Free(requirement.testMessage, Eol + ErrorIndent) ==>
      forall i :: 0 <= i < |lines| ==> Fits(lines[i], p.width - 3)
  {
    lines := WordWrapLines(requirement.testMessage, p.width - 3, Eol + ErrorIndent);
  }

  // ---------------------------------------------------------------------
  // block

  /**
   * The content lines of a block: the first piece is never re-indented; a
   * later one is put under the label, its own leading blanks dropped, when
   * there is room for text; each is padded on the right to the width.
   */
  lemma ContentLinesShape(pieces: seq<string>, prefixLength: nat, lineLength: int, width: int)
    requires |pieces| >= 1
    ensures ContentLines(pieces, prefixLength, lineLength, width)[0] == PadRight(pieces[0], width)
    ensures forall i :: 0 < i < |pieces| ==>
      ContentLines(pieces, prefixLength, lineLength, width)[i] ==
        PadRight(if lineLength > 0 then Repeat(' ', prefixLength) + LTrim(pieces[i]) else pieces[i], width)
  {
  }

  /** Each content line is as long as its re-indented piece, or the width if that is more. */
  lemma ContentLinesWidth(pieces: seq<string>, prefixLength: nat, lineLength: int, width: int)
    ensures forall i :: 0 <= i < |pieces| ==>
      |ContentLines(pieces, prefixLength, lineLength, width)[i]| == Max(|Reindent(pieces[i], i, prefixLength, lineLength)|, width)
  {
  }

  /**
   * `explode` undoes the wrap: joined with '¬', the pieces are the wrapped
   * text. When the prefixed message holds no '¬', the pieces are the wrapped
   * lines themselves: joined with spaces they give the prefixed, trimmed
   * message back, and each fits the line length.
   */
  lemma BlockPiecesAreLines(width: int, title: string, message: string)
    ensures Join(BlockBreak, BlockPieces(width, title, message)) ==
      WordWrap(BlockText(title, message), BlockLineLength(width, title), BlockBreak)
    ensures Free(BlockText(title, message), BlockBreak) ==>
      Join(" ", BlockPieces(width, title, message)) == BlockText(title, message) &&
      forall i :: 0 <= i < |BlockPieces(width, title, message)| ==>
        Fits(BlockPieces(width, title, message)[i], BlockLineLength(width, title))
  {
    var text, n := BlockText(title, message), BlockLineLength(width, title);
    ImplodeExplode(BlockBreak, WordWrap(text, n, BlockBreak));
    var lines := WordWrapLines(text, n, BlockBreak);
    if Free(text, BlockBreak) {
      ExplodeImplode(BlockBreak, lines);
    }
  }

  /** A line that fits and whose words fit is no longer than `n` once its leading blanks go. */
  lemma LTrimFits(p: string, n: int)
    requires Fits(p, n) && WordsFit(p, n)
    ensures |LTrim(p)| <= n
  {
    if |p| == 0 {
      assert Word(p, 0, 0);
    } else if |p| > n {
      if p[0] == ' ' {
        assert Word(p, 1, |p|);
        assert LTrim(p) == LTrim(p[1..]);
      } else {
        assert Word(p, 0, |p|);
      }
    }
  }

  /**
   * When there is room for text, the prefixed message holds no '¬' and none
   * of its words is longer than the line length, every content line of a
   * block is exactly the width: the block is a rectangle.
   */
  lemma BlockLinesFillWidth(width: int, title: string, message: string)
    requires BlockLineLength(width, title) > 0
    requires Free(BlockText(title, message), BlockBreak)
    requires WordsFit(BlockText(title, message), BlockLineLength(width, title))
    ensures forall i :: 0 <= i < |BlockLines(width, title, message)| ==> |BlockLines(width, title, message)[i]| == width
  {
    var text, n := BlockText(title, message), BlockLineLength(width, title);
    var prefix := BlockPrefix(title);
    var pieces := BlockPieces(width, title, message);
    BlockPiecesAreLines(width, title, message);
    PartsWordsFit(pieces, n);
    FirstPieceShort(text, prefix, pieces, n);
    PiecesFillWidth(pieces, |prefix|, n, width);
  }

  /**
   * The first wrapped piece of a text that starts with a label ending in a
   * space is shorter than the label plus the line length.
   */
  lemma FirstPieceShort(text: string, prefix: string, pieces: seq<string>, n: int)
    requires |prefix| >= 2 && prefix[|prefix| - 1] == ' ' && |prefix| <= |text| && text[..|prefix|] == prefix
    requires n >= 0 && |pieces| >= 1 && Join(" ", pieces) == text && Fits(pieces[0], n)
    ensures |pieces[0]| < |prefix| + n + 1
  {
    JoinStartsWithFirst(" ", pieces);
    var p := pieces[0];
    assert text[|prefix| - 1] == ' ';
    if |p| >= |prefix| {
      assert p[|prefix| - 1] == text[|prefix| - 1];
      assert |p| <= n;
    }
  }

  /**
   * Content lines built from pieces that fit, with a short first piece and
   * room for text, are all exactly the width.
   */
  lemma PiecesFillWidth(pieces: seq<string>, prefixLength: nat, n: int, width: int)
    requires n > 0 && width == prefixLength + n + 1 && |pieces| >= 1 && |pieces[0]| < width
    requires forall i :: 0 <= i < |pieces| ==> Fits(pieces[i], n) && WordsFit(pieces[i], n)
    ensures forall i :: 0 <= i < |pieces| ==> |ContentLines(pieces, prefixLength, n, width)[i]| == width
  {
    ContentLinesShape(pieces, prefixLength, n, width);
    forall i | 0 < i < |pieces| ensures |LTrim(pieces[i])| <= n {
      LTrimFits(pieces[i], n);
    }
  }

  /** Joined `printvln`s of lines that fit the width are their `Row`s. */
  lemma {:induction false} FittingLinesAreRows(s: Settings, lines: seq<string>, requested: int, style: Option<string>)
    requires requested <= s.verbosity
    requires forall i :: 0 <= i < |lines| ==> |lines[i]| <= s.width
    ensures Lines(s, lines, requested, style) == Rows(s, style, lines)
  {
    if |lines| > 0 {
      FittingLinesAreRows(s, lines[..|lines| - 1], requested, style);
      FittingLineIsRow(s, lines[|lines| - 1], requested, style);
    }
  }

  /** Each line as `printv` wraps it at the default break. */
  function Wrapped(lines: seq<string>, width: int): (r: seq<string>)
    ensures |r| == |lines|
  {
    seq(|lines|, i requires 0 <= i < |lines| => WordWrap(lines[i], width, WrapBreak))
  }

  /** Lines that fit the width are not changed by the wrapping. */
  lemma WrappedFitting(lines: seq<string>, width: int)
    requires forall i :: 0 <= i < |lines| ==> |lines[i]| <= width
    ensures Wrapped(lines, width) == lines
  {
    forall i | 0 <= i < |lines| ensures Wrapped(lines, width)[i] == lines[i] {
      WordWrapShort(lines[i], width, WrapBreak);
    }
  }

  /** `printvln`s that are not suppressed write each line's `Row`, wrapped to the width. */
  lemma {:induction false} LinesAreRows(s: Settings, lines: seq<string>, requested: int, style: Option<string>)
    requires requested <= s.verbosity
    ensures Lines(s, lines, requested, style) == Rows(s, style, Wrapped(lines, s.width))
  {
    if |lines| > 0 {
      var n := |lines| - 1;
      LinesAreRows(s, lines[..n], requested, style);
      LineIsRow(s, lines[n], requested, style);
      var w := Wrapped(lines, s.width);
      assert w[..n] == Wrapped(lines[..n], s.width);
      assert w[n] == WordWrap(lines[n], s.width, WrapBreak);
    }
  }

  /**
   * The output statements of `block`, when not suppressed, for any band
   * that fits the width and any lines: a blank line, a styled band, each
   * line styled as `printv` wraps it, a second band without line end, and
   * an unstyled line end.
   */
  lemma BannerRows(s: Settings, band: string, lines: seq<string>, requested: int, style: Option<string>)
    requires requested <= s.verbosity && |band| <= s.width
    ensures Banner(s, Some(band), lines, requested, style) ==
      Row(s, None, []) + Row(s, style, band) + Rows(s, style, Wrapped(lines, s.width)) + Styled(s, style, band) + Row(s, None, [])
  {
    LinesAreRows(s, lines, requested, style);
    BannerWith(s, band, lines, Wrapped(lines, s.width), requested, style);
  }

  /** The output statements of `block`, given what the `foreach` writes as rows. */
  lemma BannerWith(s: Settings, band: string, lines: seq<string>, rows: seq<string>, requested: int, style: Option<string>)
    requires requested <= s.verbosity && |band| <= s.width
    requires Lines(s, lines, requested, style) == Rows(s, style, rows)
    ensures Banner(s, Some(band), lines, requested, style) ==
      Row(s, None, []) + Row(s, style, band) + Rows(s, style, rows) + Styled(s, style, band) + Row(s, None, [])
  {
    FittingLineIsRow(s, [], requested, None);
    FittingLineIsRow(s, band, requested, style);
    WordWrapShort(band, s.width, WrapBreak);
    Substitute(Line(s, [], requested, None), Row(s, None, []),
      Line(s, band, requested, style), Row(s, style, band),
      Lines(s, lines, requested, style), Rows(s, style, rows),
      Chunk(s, band, requested, style), Styled(s, style, band));
  }

  /** Replacing each part of a banner by an equal string. */
  lemma Substitute(a: string, a': string, b: string, b': string, c: string, c': string, d: string, d': string)
    requires a == a' && b == b' && c == c' && d == d'
    ensures a + (b + c + d + a) == a' + b' + c' + d' + a'
  {
  }

  /**
   * Every `block` that is not suppressed and does not raise writes a blank
   * line, a full-width styled band, each content line styled (wrapped by
   * `printv` if it is longer than the width), a second band without line
   * end, and an unstyled line end.
   */
  lemma BlockRows(s: Settings, title: string, message: string, requested: int, style: Option<string>)
    requires requested <= s.verbosity && s.width >= 0
    ensures var band := Repeat(' ', s.width);
      BlockOutput(s, title, message, requested, style) ==
        Row(s, None, []) + Row(s, style, band) + Rows(s, style, Wrapped(BlockLines(s.width, title, message), s.width)) +
        Styled(s, style, band) + Row(s, None, [])
  {
    var band := Repeat(' ', s.width);
    assert StrRepeat(' ', s.width) == Some(band);
    BannerRows(s, band, BlockLines(s.width, title, message), requested, style);
  }

  /**
   * The output statements of `block`, when not suppressed and given lines
   * that fit the width: a blank line, a styled band, each content line
   * styled, a second band without line end, and an unstyled line end.
   */
  lemma BannerLayout(s: Settings, band: string, lines: seq<string>, requested: int, style: Option<string>)
    requires requested <= s.verbosity && |band| <= s.width
    requires forall i :: 0 <= i < |lines| ==> |lines[i]| <= s.width
    ensures Banner(s, Some(band), lines, requested, style) ==
      Row(s, None, []) + Row(s, style, band) + Rows(s, style, lines) + Styled(s, style, band) + Row(s, None, [])
  {
    FittingLinesAreRows(s, lines, requested, style);
    BannerWith(s, band, lines, lines, requested, style);
  }

  /** `BannerLayout` for a band and lines that are all exactly the width. */
  lemma BannerOfLines(s: Settings, band: string, lines: seq<string>, requested: int, style: Option<string>)
    requires requested <= s.verbosity && |band| == s.width
    requires forall i :: 0 <= i < |lines| ==> |lines[i]| == s.width
    ensures Banner(s, Some(band), lines, requested, style) ==
      Row(s, None, []) + Row(s, style, band) + Rows(s, style, lines) + Styled(s, style, band) + Row(s, None, [])
  {
    BannerLayout(s, band, lines, requested, style);
  }

  /**
   * A `block` that is not suppressed and whose lines fill the width writes
   * a blank line, a full-width styled band, each content line styled, a
   * second band without line end, and an unstyled line end.
   */
  lemma BlockLayout(s: Settings, title: string, message: string, requested: int, style: Option<string>)
    requires requested <= s.verbosity
    requires BlockLineLength(s.width, title) > 0
    requires Free(BlockText(title, message), BlockBreak)
    requires WordsFit(BlockText(title, message), BlockLineLength(s.width, title))
    ensures var band := Repeat(' ', s.width);
      BlockOutput(s, title, message, requested, style) ==
        Row(s, None, []) + Row(s, style, band) + Rows(s, style, BlockLines(s.width, title, message)) +
        Styled(s, style, band) + Row(s, None, [])
  {
    var band := Repeat(' ', s.width);
    assert StrRepeat(' ', s.width) == Some(band);
    BlockLinesFillWidth(s.width, title, message);
    BannerOfLines(s, band, BlockLines(s.width, title, message), requested, style);
  }

  /** `printvln`s above the held verbosity write nothing. */
  lemma {:induction false} SuppressedLines(s: Settings, lines: seq<string>, requested: int, style: Option<string>)
    requires requested > s.verbosity
    ensures Lines(s, lines, requested, style) == []
  {
    if |lines| > 0 {
      SuppressedLines(s, lines[..|lines| - 1], requested, style);
    }
  }

  /** The output statements of `block` write nothing above the held verbosity. */
  lemma BannerSuppressed(s: Settings, band: Option<string>, lines: seq<string>, requested: int, style: Option<string>)
    requires requested > s.verbosity
    ensures Banner(s, band, lines, requested, style) == []
  {
    SuppressedLines(s, lines, requested, style);
    assert Line(s, [], requested, None) == [];
    match band
    case None =>
    case Some(b) =>
      assert Line(s, b, requested, style) == [] && Chunk(s, b, requested, style) == [];
      assert Banner(s, band, lines, requested, style) == [] + ([] + [] + [] + []);
  }

  /** A `block` above the held verbosity writes nothing. */
  lemma BlockSuppressed(s: Settings, title: string, message: string, requested: int, style: Option<string>)
    requires requested > s.verbosity
    ensures BlockOutput(s, title, message, requested, style) == []
  {
    BannerSuppressed(s, StrRepeat(' ', s.width), BlockLines(s.width, title, message), requested, style);
  }

  /** With colours off, `printvln`s of lines without an escape byte write none. */
  lemma {:induction false} LinesNoEscapeWithoutColours(s: Settings, lines: seq<string>, requested: int, style: Option<string>)
    requires !s.colors && forall i :: 0 <= i < |lines| ==> Escape !in lines[i]
    ensures Escape !in Lines(s, lines, requested, style)
  {
    if |lines| > 0 {
      LinesNoEscapeWithoutColours(s, lines[..|lines| - 1], requested, style);
      NoEscapeWithoutColours(s, lines[|lines| - 1], requested, style);
    }
  }

  /** The content lines of a block hold no byte that its title and message do not, besides blanks. */
  lemma BlockLinesAvoid(width: int, title: string, message: string, c: char)
    requires c !in title && c !in message && c != ' ' && c != '[' && c != ']' && c !in BlockBreak
    ensures forall i :: 0 <= i < |BlockLines(width, title, message)| ==> c !in BlockLines(width, title, message)[i]
  {
    var text, n := BlockText(title, message), BlockLineLength(width, title);
    TrimAvoids(message, c);
    assert c !in text;
    var wrapped := WordWrapLines(text, n, BlockBreak);
    PartsAvoid(" ", wrapped, c);
    JoinAvoids(BlockBreak, wrapped, c);
    var pieces := BlockPieces(width, title, message);
    ImplodeExplode(BlockBreak, WordWrap(text, n, BlockBreak));
    PartsAvoid(BlockBreak, pieces, c);
    var lines := BlockLines(width, title, message);
    forall i | 0 <= i < |lines| ensures c !in lines[i] {
      LTrimAvoids(pieces[i], c);
      var r := Reindent(pieces[i], i, |BlockPrefix(title)|, n);
      assert c !in r;
      assert lines[i] == PadRight(r, width);
    }
  }

  /** With colours off, the output statements of `block` write no escape byte its lines do not hold. */
  lemma BannerNoEscape(s: Settings, band: Option<string>, lines: seq<string>, requested: int, style: Option<string>)
    requires !s.colors && (band.Some? ==> Escape !in band.value)
    requires forall i :: 0 <= i < |lines| ==> Escape !in lines[i]
    ensures Escape !in Banner(s, band, lines, requested, style)
  {
    NoEscapeWithoutColours(s, [], requested, None);
    match band
    case None =>
    case Some(b) =>
      LinesNoEscapeWithoutColours(s, lines, requested, style);
      NoEscapeWithoutColours(s, b, requested, style);
  }

  /** With colours off, a block whose title and message hold no escape byte is written without one. */
  lemma BlockNoEscapeWithoutColours(s: Settings, title: string, message: string, requested: int, style: Option<string>)
    requires !s.colors && Escape !in title && Escape !in message
    ensures Escape !in BlockOutput(s, title, message, requested, style)
  {
    BlockLinesAvoid(s.width, title, message, Escape);
    BannerNoEscape(s, StrRepeat(' ', s.width), BlockLines(s.width, title, message), requested, style);
  }
}
