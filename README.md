# Console printer of the requirement checker, in Dafny

This project models `Printer`, the console formatter of box's requirement
checker (`requirement-checker/src/Printer.php`). It writes title banners,
wrapped prose, requirement error messages and full-width coloured blocks.
Output can be filtered by verbosity and optionally styled with ANSI escape
sequences.

The model has four modules:

- `PhpString` (`php_string.dfy`) holds the PHP string built-ins the printer
  calls: `str_repeat`, `str_pad`, `trim`, `ltrim` and `explode`. `trim` is
  built from the helpers `LTrim` and `RTrim`. `Join` (PHP's `implode`) is not
  called by the printer; it states what `explode` and `wordwrap` produce.
- `PhpStringFacts` (`php_string.dfy`) holds lemmas about those built-ins.
- `PhpWordWrap` (`word_wrap.dfy`) is `wordwrap($text, $width, $break)` with
  `cut = false`. It follows the PHP runtime's two code paths:
  - a one-byte break (the default `"\n"` that `printv` gets by passing no
    break) is written over the chosen spaces of a copy;
  - a longer break (`PHP_EOL.'   '` in `getRequirementErrorMessage`, and the
    two UTF-8 bytes of `'¬'` in `block`) is assembled into a new buffer.

  The main theorem is `WordWrapLines`. The result is the text cut into lines
  at some of its spaces, with each of those spaces replaced by the break.
  When the text holds no break of its own, every line is at most `width`
  long, or is a single word that cannot be broken.
- `Printing` (`printer.dfy`) holds the `Printer` class. Its fields are
  `verbosity`, `supportColors`, `width` and `output`; `output` stands for
  standard output. Beside the class are the functions that say what each
  call writes (`Chunk`, `Line`, `TitleOutput`, `BlockOutput`). Every writing
  method is proved to append exactly that text to `output`.
- `PrinterProperties` (`printer_properties.dfy`) proves what the written
  text looks like.

Strings are byte strings: one `char` is one byte, so `strlen` is `|s|`.
`PHP_EOL` is `"\n"`.

In two places the model follows the code rather than the documented intent:

- The reset sequence is written after every message once colours are on,
  even when the style is missing or unknown.
- An explicit negative width is kept, because only `0` is falsy. With such a
  width, `str_repeat` in `title` and `block` throws PHP 8's `ValueError`.
  The methods return this as `raised`, after the output written before it.

## Model

| member | source | states |
|---|---|---|
| `PhpString.Repeat` | requirement-checker/src/Printer.php:80-83 | `str_repeat` of one byte: exactly `n` copies of it |
| `PhpString.StrRepeat` | requirement-checker/src/Printer.php:138 | `str_repeat` fails exactly for a negative count; otherwise gives that many copies |
| `PhpString.PadRight` | requirement-checker/src/Printer.php:133 | `str_pad(..., STR_PAD_RIGHT)`: length is max(length, width), the input is a prefix, the rest is spaces |
| `PhpString.LTrim` | requirement-checker/src/Printer.php:131 | `ltrim`: keeps a suffix that starts with no stripped byte, and everything dropped is a stripped byte |
| `PhpString.RTrim` | requirement-checker/src/Printer.php:119 | `rtrim`: keeps a prefix that ends with no stripped byte, and everything dropped is a stripped byte |
| `PhpString.Trim` | requirement-checker/src/Printer.php:119 | `trim`: the result is a slice of the input that neither starts nor ends with a stripped byte, and every byte left out before or after it is a stripped byte |
| `PhpString.Explode` | requirement-checker/src/Printer.php:126 | `explode` gives at least one piece, so the do-while always has a first line |
| `PhpString.ImplodeExplode` | requirement-checker/src/Printer.php:126 | joining the pieces of `explode` with the separator gives the exploded string back |
| `PhpString.ExplodeImplode` | requirement-checker/src/Printer.php:126 | with a separator of two distinct bytes (like '¬') that no part contains, `explode` gives back the parts that were joined |
| `PhpWordWrap.WordWrap` | requirement-checker/src/Printer.php:168 | `wordwrap` of an empty text is empty; with a one-byte break (`printv`'s default) the result is exactly as long as the text, since breaks replace spaces in place (also used at lines 101 and 125) |
| `PhpWordWrap.WordWrapLines` | requirement-checker/src/Printer.php:168 | `wordwrap` output is the text cut at some of its spaces, each replaced by the break (no word is cut); without breaks in the text, each line fits the width or is one unbreakable word |
| `PhpWordWrap.WordWrapShort` | requirement-checker/src/Printer.php:168 | a text no longer than the width comes back unchanged |
| `PhpWordWrap.InPlaceIsCopy` | requirement-checker/src/Printer.php:168 | for a text without the break byte, the one-byte path and the copying path of `wordwrap` agree |
| `Printing.EffectiveWidth` | requirement-checker/src/Printer.php:40-47 | the width is the explicit one or else the terminal's; `0` becomes 80 and any other value is kept, so the width is never 0 |
| `Printing.Printer.constructor` | requirement-checker/src/Printer.php:38-48 | stores verbosity and colour support as given, sets the effective width, and starts with empty output |
| `Printing.Printer.GetVerbosity` | requirement-checker/src/Printer.php:53-56 | returns the held verbosity |
| `Printing.Printer.SetVerbosity` | requirement-checker/src/Printer.php:61-64 | the held verbosity becomes `v`; output, width and colours are unchanged |
| `Printing.Printer.Printv` | requirement-checker/src/Printer.php:162-178 | appends exactly `Chunk` of the message to the output and changes nothing else |
| `Printing.Printer.Printvln` | requirement-checker/src/Printer.php:151-155 | appends the message chunk, then an unstyled `PHP_EOL` chunk at the same verbosity |
| `Printing.TitleStyleOf` | requirement-checker/src/Printer.php:73-75 | a missing title style becomes `'title'`; a given one is kept |
| `Printing.Printer.Title` | requirement-checker/src/Printer.php:71-88 | appends the four `printvln`s of a title; raises exactly when the width is negative, after the first two |
| `Printing.Printer.GetRequirementErrorMessage` | requirement-checker/src/Printer.php:95-104 | null exactly when the requirement is fulfilled; otherwise a string ending in `PHP_EOL` |
| `Printing.BlockLineLength` | requirement-checker/src/Printer.php:114-118 | the line length is `width - strlen(prefix) - 1`, clamped at 0 |
| `Printing.BuildLines` | requirement-checker/src/Printer.php:121-135 | the do-while yields one content line per piece: the piece re-indented after the first, padded to the width |
| `Printing.Printer.PrintLines` | requirement-checker/src/Printer.php:139-141 | appends one `printvln` per content line, in order |
| `Printing.Printer.Block` | requirement-checker/src/Printer.php:112-144 | appends the block output: blank line, band, content lines, band, line end; raises exactly when the width is negative, after the blank line |
| `PrinterProperties.PrintvWrites` | requirement-checker/src/Printer.php:164-177 | above the held verbosity nothing is written; otherwise the style code, the message cut at some spaces into lines joined by wordwrap's default break `"\n"`, and the reset code |
| `PrinterProperties.StyleCodes` | requirement-checker/src/Printer.php:170-175 | the style code is written exactly when colours are on and the style is a key of the table; the reset code exactly when colours are on |
| `PrinterProperties.NoEscapeWithoutColours` | requirement-checker/src/Printer.php:168-175 | with colours off, `printv` and `printvln` write no escape byte unless the message holds one |
| `PrinterProperties.EolWraps` | requirement-checker/src/Printer.php:154 | wrapping `PHP_EOL` alone gives `PHP_EOL` |
| `PrinterProperties.EolChunk` | requirement-checker/src/Printer.php:154 | the line-end chunk is empty when suppressed, else `PHP_EOL` then the reset code |
| `PrinterProperties.PrintvlnAllOrNothing` | requirement-checker/src/Printer.php:151-155 | `printvln` writes both the message chunk and the line end, or nothing |
| `PrinterProperties.LineIsRow` | requirement-checker/src/Printer.php:151-155 | a `printvln` that is not suppressed writes the styled wrapped message, a line end and the reset code |
| `PrinterProperties.FittingLineIsRow` | requirement-checker/src/Printer.php:151-155 | a message that fits the width goes through `printvln` unwrapped |
| `PrinterProperties.TitleLayout` | requirement-checker/src/Printer.php:71-88 | a title writes a blank line, the wrapped title, an unwrapped underline of `min(strlen, width)` `=`, and a blank line, in its style (default `'title'`) |
| `PrinterProperties.TitleUnderline` | requirement-checker/src/Printer.php:79-83 | the underline is only `=`, as long as `min(strlen(title), width)`, so never longer than the width |
| `PrinterProperties.TitleSuppressed` | requirement-checker/src/Printer.php:77-87 | a title above the held verbosity writes nothing |
| `PrinterProperties.TitleNoEscapeWithoutColours` | requirement-checker/src/Printer.php:71-88 | with colours off, a title without an escape byte is written without one |
| `PrinterProperties.ErrorMessageLines` | requirement-checker/src/Printer.php:101 | the error message is the test message cut at spaces into lines joined by `PHP_EOL.'   '`, then `PHP_EOL`; the lines fit `width - 3` |
| `Printing.ContentLines` | requirement-checker/src/Printer.php:128-135 | the do-while makes exactly one content line per '¬'-separated piece |
| `PrinterProperties.ContentLinesWidth` | requirement-checker/src/Printer.php:133 | each content line is `max(strlen(piece'), width)` long, where `piece'` is the piece after any re-indent |
| `PrinterProperties.BlockPiecesAreLines` | requirement-checker/src/Printer.php:119-126 | the '¬' pieces rejoin to the wrapped text; without '¬' in the message they are the wrapped lines of the prefixed, trimmed message, each fitting the line length |
| `PrinterProperties.LTrimFits` | requirement-checker/src/Printer.php:131 | a fitting line whose words fit is at most the line length once left-trimmed |
| `PrinterProperties.BlockLinesFillWidth` | requirement-checker/src/Printer.php:114-135 | when there is room and no word exceeds the line length, every content line is exactly the width |
| `PrinterProperties.WrappedFitting` | requirement-checker/src/Printer.php:168 | lines no longer than the width are left unchanged by `printv`'s wrap |
| `PrinterProperties.LinesAreRows` | requirement-checker/src/Printer.php:139-141 | the `foreach` of `printvln`s, when not suppressed, writes each line wrapped by `printv`, styled, with a line end |
| `PrinterProperties.FittingLinesAreRows` | requirement-checker/src/Printer.php:139-141 | the `foreach` over lines that fit the width writes each one unwrapped, styled, with a line end |
| `PrinterProperties.BannerLayout` | requirement-checker/src/Printer.php:137-143 | given lines that fit the width, the output statements write: a line end, the styled band with a line end, each line styled with a line end, the styled band, an unstyled line end |
| `PrinterProperties.BannerRows` | requirement-checker/src/Printer.php:137-143 | for any lines and a band that fits, the output statements write: a line end, the styled band with a line end, each line wrapped by `printv` and styled with a line end, the styled band, an unstyled line end |
| `PrinterProperties.BlockRows` | requirement-checker/src/Printer.php:112-144 | every block that is not suppressed and does not raise writes, in order: a line end, a styled band of `width` spaces with a line end, each content line wrapped by `printv` and styled with a line end, a styled band, and an unstyled line end |
| `PrinterProperties.BlockLayout` | requirement-checker/src/Printer.php:112-144 | under the conditions of `BlockLinesFillWidth` (room for text, no '¬' in the message, no word longer than the line length), the content lines are written unwrapped: a line end, a styled band of `width` spaces with a line end, each content line styled with a line end, a styled band, and an unstyled line end |
| `PrinterProperties.SuppressedLines` | requirement-checker/src/Printer.php:139-141 | `printvln`s above the held verbosity write nothing |
| `PrinterProperties.BannerSuppressed` | requirement-checker/src/Printer.php:137-143 | above the held verbosity, none of the output statements of `block` writes anything |
| `PrinterProperties.BlockSuppressed` | requirement-checker/src/Printer.php:137-143 | a block above the held verbosity writes nothing |
| `PrinterProperties.BlockLinesAvoid` | requirement-checker/src/Printer.php:114-135 | content lines hold no byte that is absent from title and message, other than blanks, brackets and '¬' |
| `PrinterProperties.BannerNoEscape` | requirement-checker/src/Printer.php:137-143 | with colours off, the output statements of `block` write no escape byte that the band and lines do not hold |
| `PrinterProperties.BlockNoEscapeWithoutColours` | requirement-checker/src/Printer.php:112-144 | with colours off, a block whose title and message hold no escape byte is written without one |

## Left out

- Terminal width detection (`new Terminal()`, lines 41-42): the `Terminal` class is not part of this model. Its answer is the constructor parameter `terminalWidth`, which is used only when no width is given.
- `echo` (line 177) is modelled as appending to the string field `output`. No real I/O is modelled, and neither is a failing write.
- The `Requirement` class is not part of this model. It is the datatype `Requirement(fulfilled, testMessage)`.
- PHP loose typing is not modelled: widths and verbosities are integers, styles are strings, and a `null` style is `None`, which no `isset` finds in the table.
- Strings are byte strings. There is no multibyte handling, so `'¬'` is its two UTF-8 bytes C2 AC.
- The ANSI escape sequences are kept as the byte strings of the style table; how a terminal renders them is not modelled.
- `PHP_EOL` is fixed to `"\n"`. The Windows `"\r\n"` is not modelled.
- `str_repeat` with a negative count is modelled as PHP 8's `ValueError`. PHP 7 only warned, returned `null`, and let `title`/`block` go on printing; that behaviour is not modelled.
- `wordwrap` with `cut = true`, and its errors for an empty break, are not modelled: the printer never uses them.
- Line 142 calls `str_repeat(' ', width)` a second time. The model reuses the first result, which is the same string.
- PhpWordWrap.WordWrapLines: the line-length bound is proved only for texts that hold no copy of the break. A break already present in the text starts a new line, and the bound is not stated across such breaks.
- PrinterProperties.ErrorMessageLines: the `width - 3` bound, like `WordWrapLines`'s, is proved only for messages without `PHP_EOL.'   '`. A line may still be a single word longer than `width - 3`.
- PrinterProperties.BlockLinesFillWidth: the exact-width result is proved under sufficient conditions: room for text, no '¬' in the message, and no word longer than the line length. Outside them, a content line may be longer than the width.
