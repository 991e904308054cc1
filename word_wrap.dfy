/**
 * PHP's `wordwrap($text, $width, $break, false)` as the PHP runtime computes
 * it: lines are broken only at space bytes, a word longer than the width is
 * never cut, and each chosen space is replaced by the break string.
 *
 * The runtime has two code paths. A one-byte break is written over the
 * chosen spaces in a copy of the text (`WrapInPlace`); a longer break is
 * assembled line by line into a new buffer (`WrapCopy`). Both keep the start
 * of the current line (`ls`) and the last space seen (`lsp`); both treat a
 * break already present in the text as the end of a line, but the copying
 * path only notices one that is followed by at least one more byte.
 */
module PhpWordWrap {
  import opened PhpString

  function WordWrap(text: string, width: int, brk: string): (r: string)
    requires |brk| > 0
    ensures |text| == 0 ==> r == []
    ensures |brk| == 1 ==> |r| == |text|
  {
    if |text| == 0 then []
    else if |brk| == 1 then WrapInPlace(text, width, brk[0], 0, text, 0, 0)
    else WrapCopy(text, width, brk, 0, [], 0, 0)
  }

  /** The one-byte path: `nt` is the copy being rewritten, `cur` the byte looked at. */
  function WrapInPlace(text: string, width: int, b: char, cur: nat, nt: string, ls: nat, lsp: nat): (r: string)
    requires cur <= |text| && |nt| == |text| && ls <= cur && lsp <= cur
    requires ls != lsp ==> lsp < cur
    ensures |r| == |text|
    decreases |text| - cur
  {
    if cur == |text| then nt
    else if text[cur] == b then
      WrapInPlace(text, width, b, cur + 1, nt, cur + 1, cur + 1)
    else if text[cur] == ' ' then
      if cur - ls >= width then WrapInPlace(text, width, b, cur + 1, nt[cur := b], cur + 1, cur)
      else WrapInPlace(text, width, b, cur + 1, nt, ls, cur)
    else if cur - ls >= width && ls != lsp then
      WrapInPlace(text, width, b, cur + 1, nt[lsp := b], lsp + 1, lsp)
    else
      WrapInPlace(text, width, b, cur + 1, nt, ls, lsp)
  }

  /** The copying path: `out` is the text assembled from the lines finished so far. */
  function WrapCopy(text: string, width: int, brk: string, cur: nat, out: string, ls: nat, lsp: nat): string
    requires |brk| > 0 && cur <= |text| && ls <= cur && lsp <= cur
    requires ls < lsp ==> lsp < cur
    decreases |text| - cur
  {
    if cur == |text| then out + text[ls..]
    else if cur + |brk| < |text| && text[cur..cur + |brk|] == brk then
      WrapCopy(text, width, brk, cur + |brk|, out + text[ls..cur + |brk|], cur + |brk|, cur + |brk|)
    else if text[cur] == ' ' then
      if cur - ls >= width then WrapCopy(text, width, brk, cur + 1, out + text[ls..cur] + brk, cur + 1, cur)
      else WrapCopy(text, width, brk, cur + 1, out, ls, cur)
    else if cur - ls >= width && ls < lsp then
      WrapCopy(text, width, brk, cur + 1, out + text[ls..lsp] + brk, lsp + 1, lsp + 1)
    else
      WrapCopy(text, width, brk, cur + 1, out, ls, lsp)
  }

  /**
   * A line that fits the width: it is at most `width` bytes long, or it is
   * one word that could not be broken (no space after its first byte).
   */
  predicate Fits(line: string, width: int)
  {
    |line| <= width || forall k :: 1 <= k < |line| ==> line[k] != ' '
  }

  /**
   * The main property of `wordwrap`: the result is the text cut into lines
   * at some of its spaces, each of those spaces replaced by the break; and
   * when the text holds no break of its own, every line fits the width.
   */
  lemma WordWrapLines(text: string, width: int, brk: string) returns (lines: seq<string>)
    requires |brk| > 0
    ensures |lines| >= 1
    ensures Join(" ", lines) == text
    ensures WordWrap(text, width, brk) == Join(brk, lines)
    ensures Free(text, brk) ==> forall i :: 0 <= i < |lines| ==> Fits(lines[i], width) && Free(lines[i], brk)
  {
    if |text| == 0 {
      lines := [[]];
      assert Free([], brk);
    } else if |brk| == 1 {
      if Free(text, brk) {
        assert [brk[0]] == brk;
        InPlaceIsCopy(text, width, brk[0], 0, text, 0, 0, 0);
        lines := CopyLines(text, width, brk, 0, [], 0, 0, [], []);
      } else {
        InPlaceMarks(text, width, brk[0], 0, text, 0, 0);
        var nt := WrapInPlace(text, width, brk[0], 0, text, 0, 0);
        lines := SplitMarked(text, nt, brk[0]);
        SplitMarkedJoins(text, nt, brk[0]);
        assert [brk[0]] == brk;
      }
    } else {
      lines := CopyLines(text, width, brk, 0, [], 0, 0, [], []);
    }
  }

  /** A text no longer than the width comes back unchanged. */
  lemma WordWrapShort(text: string, width: int, brk: string)
    requires |brk| > 0 && |text| <= width
    ensures WordWrap(text, width, brk) == text
  {
    if |text| > 0 {
      if |brk| == 1 {
        InPlaceShort(text, width, brk[0], 0, 0, 0);
      } else {
        CopyShort(text, width, brk, 0, 0, 0);
      }
    }
  }

  // ---------------------------------------------------------------------
  // The copying path

  /** Every line fits the width and holds no break. */
  ghost predicate LinesFit(lines: seq<string>, width: int, brk: string)
  {
    forall i :: 0 <= i < |lines| ==> Fits(lines[i], width) && Free(lines[i], brk)
  }

  /**
   * Invariant of the copying path: the finished lines `done` and the part
   * `pre` of the current line copied so far (text up to an existing break)
   * join, with the break, to `out`, and with a space to `text[..ls]`; no
   * space lies between the last one seen and `cur`; a pending space keeps
   * the current line within the width; and when the text holds no break,
   * the finished lines fit.
   */
  ghost predicate CopyInv(text: string, width: int, brk: string, cur: nat, out: string, ls: nat, lsp: nat,
                          done: seq<string>, pre: string)
  {
    |brk| > 0 && cur <= |text| && ls <= cur && lsp <= cur &&
    (ls < lsp ==> lsp < cur && text[lsp] == ' ') &&
    out == Join(brk, done + [pre]) && text[..ls] == Join(" ", done + [pre]) &&
    (forall k :: lsp < k < cur ==> text[k] != ' ') &&
    (ls < lsp ==> cur - ls <= width) &&
    (Free(text, brk) ==> pre == [] && LinesFit(done, width, brk))
  }

  /**
   * The copying path, from a state that keeps `CopyInv`, produces the lines
   * it has finished and those still to come, joined by the break.
   */
  lemma {:induction false} CopyLines(text: string, width: int, brk: string, cur: nat, out: string, ls: nat, lsp: nat,
                                     done: seq<string>, pre: string) returns (lines: seq<string>)
    requires CopyInv(text, width, brk, cur, out, ls, lsp, done, pre)
    ensures |lines| >= 1
    ensures Join(" ", lines) == text
    ensures WrapCopy(text, width, brk, cur, out, ls, lsp) == Join(brk, lines)
    ensures Free(text, brk) ==> LinesFit(lines, width, brk)
    decreases |text| - cur, 1
  {
    if cur == |text| {
      lines := CopyEnd(text, width, brk, out, ls, lsp, done, pre);
    } else if cur + |brk| < |text| && text[cur..cur + |brk|] == brk {
      lines := CopyLinesExisting(text, width, brk, cur, out, ls, lsp, done, pre);
    } else if text[cur] == ' ' && cur - ls >= width {
      lines := CopyLinesSpaceBreak(text, width, brk, cur, out, ls, lsp, done, pre);
    } else if text[cur] == ' ' {
      lines := CopyLinesSpace(text, width, brk, cur, out, ls, lsp, done, pre);
    } else if cur - ls >= width && ls < lsp {
      lines := CopyLinesBackBreak(text, width, brk, cur, out, ls, lsp, done, pre);
    } else {
      lines := CopyLinesWord(text, width, brk, cur, out, ls, lsp, done, pre);
    }
  }

  /** `CopyLines` over a break already in the text. */
  lemma {:induction false} CopyLinesExisting(text: string, width: int, brk: string, cur: nat, out: string, ls: nat, lsp: nat,
                                             done: seq<string>, pre: string) returns (lines: seq<string>)
    requires CopyInv(text, width, brk, cur, out, ls, lsp, done, pre)
    requires cur + |brk| < |text| && text[cur..cur + |brk|] == brk
    ensures |lines| >= 1
    ensures Join(" ", lines) == text
    ensures WrapCopy(text, width, brk, cur, out, ls, lsp) == Join(brk, lines)
    ensures Free(text, brk) ==> LinesFit(lines, width, brk)
    decreases |text| - cur, 0
  {
    var n := cur + |brk|;
    CopyExisting(text, width, brk, cur, out, ls, lsp, done, pre);
    assert WrapCopy(text, width, brk, cur, out, ls, lsp) == WrapCopy(text, width, brk, n, out + text[ls..n], n, n);
    lines := CopyLines(text, width, brk, n, out + text[ls..n], n, n, done, pre + text[ls..n]);
  }

  /** `CopyLines` at a space where the line is broken. */
  lemma {:induction false} CopyLinesSpaceBreak(text: string, width: int, brk: string, cur: nat, out: string, ls: nat, lsp: nat,
                                               done: seq<string>, pre: string) returns (lines: seq<string>)
    requires CopyInv(text, width, brk, cur, out, ls, lsp, done, pre)
    requires cur < |text| && !(cur + |brk| < |text| && text[cur..cur + |brk|] == brk)
    requires text[cur] == ' ' && cur - ls >= width
    ensures |lines| >= 1
    ensures Join(" ", lines) == text
    ensures WrapCopy(text, width, brk, cur, out, ls, lsp) == Join(brk, lines)
    ensures Free(text, brk) ==> LinesFit(lines, width, brk)
    decreases |text| - cur, 0
  {
    CopySpaceBreak(text, width, brk, cur, out, ls, lsp, done, pre);
    assert WrapCopy(text, width, brk, cur, out, ls, lsp) ==
      WrapCopy(text, width, brk, cur + 1, out + text[ls..cur] + brk, cur + 1, cur);
    lines := CopyLines(text, width, brk, cur + 1, out + text[ls..cur] + brk, cur + 1, cur, done + [pre + text[ls..cur]], []);
  }

  /** `CopyLines` at a space short of the width. */
  lemma {:induction false} CopyLinesSpace(text: string, width: int, brk: string, cur: nat, out: string, ls: nat, lsp: nat,
                                          done: seq<string>, pre: string) returns (lines: seq<string>)
    requires CopyInv(text, width, brk, cur, out, ls, lsp, done, pre)
    requires cur < |text| && !(cur + |brk| < |text| && text[cur..cur + |brk|] == brk)
    requires text[cur] == ' ' && cur - ls < width
    ensures |lines| >= 1
    ensures Join(" ", lines) == text
    ensures WrapCopy(text, width, brk, cur, out, ls, lsp) == Join(brk, lines)
    ensures Free(text, brk) ==> LinesFit(lines, width, brk)
    decreases |text| - cur, 0
  {
    CopySpace(text, width, brk, cur, out, ls, lsp, done, pre);
    assert WrapCopy(text, width, brk, cur, out, ls, lsp) == WrapCopy(text, width, brk, cur + 1, out, ls, cur);
    lines := CopyLines(text, width, brk, cur + 1, out, ls, cur, done, pre);
  }

  /** `CopyLines` at a byte that sends the line back to its last space. */
  lemma {:induction false} CopyLinesBackBreak(text: string, width: int, brk: string, cur: nat, out: string, ls: nat, lsp: nat,
                                              done: seq<string>, pre: string) returns (lines: seq<string>)
    requires CopyInv(text, width, brk, cur, out, ls, lsp, done, pre)
    requires cur < |text| && !(cur + |brk| < |text| && text[cur..cur + |brk|] == brk)
    requires text[cur] != ' ' && cur - ls >= width && ls < lsp
    ensures |lines| >= 1
    ensures Join(" ", lines) == text
    ensures WrapCopy(text, width, brk, cur, out, ls, lsp) == Join(brk, lines)
    ensures Free(text, brk) ==> LinesFit(lines, width, brk)
    decreases |text| - cur, 0
  {
    CopyBackBreak(text, width, brk, cur, out, ls, lsp, done, pre);
    assert WrapCopy(text, width, brk, cur, out, ls, lsp) ==
      WrapCopy(text, width, brk, cur + 1, out + text[ls..lsp] + brk, lsp + 1, lsp + 1);
    lines := CopyLines(text, width, brk, cur + 1, out + text[ls..lsp] + brk, lsp + 1, lsp + 1, done + [pre + text[ls..lsp]], []);
  }

  /** `CopyLines` at any other byte. */
  lemma {:induction false} CopyLinesWord(text: string, width: int, brk: string, cur: nat, out: string, ls: nat, lsp: nat,
                                         done: seq<string>, pre: string) returns (lines: seq<string>)
    requires CopyInv(text, width, brk, cur, out, ls, lsp, done, pre)
    requires cur < |text| && !(cur + |brk| < |text| && text[cur..cur + |brk|] == brk)
    requires text[cur] != ' ' && !(cur - ls >= width && ls < lsp)
    ensures |lines| >= 1
    ensures Join(" ", lines) == text
    ensures WrapCopy(text, width, brk, cur, out, ls, lsp) == Join(brk, lines)
    ensures Free(text, brk) ==> LinesFit(lines, width, brk)
    decreases |text| - cur, 0
  {
    CopyWord(text, width, brk, cur, out, ls, lsp, done, pre);
    assert WrapCopy(text, width, brk, cur, out, ls, lsp) == WrapCopy(text, width, brk, cur + 1, out, ls, lsp);
    lines := CopyLines(text, width, brk, cur + 1, out, ls, lsp, done, pre);
  }

  /** Last step of the copying path: the rest of the text ends the last line. */
  lemma CopyEnd(text: string, width: int, brk: string, out: string, ls: nat, lsp: nat,
                done: seq<string>, pre: string) returns (lines: seq<string>)
    requires CopyInv(text, width, brk, |text|, out, ls, lsp, done, pre)
    ensures |lines| >= 1
    ensures Join(" ", lines) == text
    ensures out + text[ls..] == Join(brk, lines)
    ensures Free(text, brk) ==> LinesFit(lines, width, brk)
  {
    lines := done + [pre + text[ls..]];
    assert out + text[ls..] == Join(brk, lines) by {
      JoinExtendLast(brk, done, pre, text[ls..]);
    }
    assert Join(" ", lines) == text by {
      JoinExtendLast(" ", done, pre, text[ls..]);
      assert text == text[..ls] + text[ls..];
    }
    if Free(text, brk) {
      assert pre + text[ls..] == text[ls..|text|];
      FreeSlice(text, brk, ls, |text|);
      LineFits(text, width, ls, lsp, |text|);
    }
  }

  /** A break already in the text is copied into the current line, which goes on after it. */
  lemma CopyExisting(text: string, width: int, brk: string, cur: nat, out: string, ls: nat, lsp: nat,
                     done: seq<string>, pre: string)
    requires CopyInv(text, width, brk, cur, out, ls, lsp, done, pre)
    requires cur + |brk| < |text| && text[cur..cur + |brk|] == brk
    ensures var n := cur + |brk|; CopyInv(text, width, brk, n, out + text[ls..n], n, n, done, pre + text[ls..n])
  {
    var n := cur + |brk|;
    assert OccursAt(text, brk, cur);
    JoinExtendLast(brk, done, pre, text[ls..n]);
    JoinExtendLast(" ", done, pre, text[ls..n]);
    assert text[..n] == text[..ls] + text[ls..n];
  }

  /** A space at or past the width ends the current line, in place of the break. */
  lemma CopySpaceBreak(text: string, width: int, brk: string, cur: nat, out: string, ls: nat, lsp: nat,
                       done: seq<string>, pre: string)
    requires CopyInv(text, width, brk, cur, out, ls, lsp, done, pre)
    requires cur < |text| && text[cur] == ' ' && cur - ls >= width
    ensures CopyInv(text, width, brk, cur + 1, out + text[ls..cur] + brk, cur + 1, cur, done + [pre + text[ls..cur]], [])
  {
    var line := pre + text[ls..cur];
    var done' := done + [line];
    assert out + text[ls..cur] + brk == Join(brk, done' + [[]]) by {
      JoinExtendLast(brk, done, pre, text[ls..cur]);
      JoinNewPart(brk, done, line);
    }
    assert text[..cur + 1] == Join(" ", done' + [[]]) by {
      JoinExtendLast(" ", done, pre, text[ls..cur]);
      JoinNewPart(" ", done, line);
      assert text[..cur + 1] == text[..ls] + text[ls..cur] + " ";
    }
    if Free(text, brk) {
      assert line == text[ls..cur];
      FreeSlice(text, brk, ls, cur);
      LineFits(text, width, ls, lsp, cur);
    }
  }

  /** A word that reaches the width sends the line back to its last space, which becomes the break. */
  lemma CopyBackBreak(text: string, width: int, brk: string, cur: nat, out: string, ls: nat, lsp: nat,
                      done: seq<string>, pre: string)
    requires CopyInv(text, width, brk, cur, out, ls, lsp, done, pre)
    requires cur < |text| && text[cur] != ' ' && cur - ls >= width && ls < lsp
    ensures CopyInv(text, width, brk, cur + 1, out + text[ls..lsp] + brk, lsp + 1, lsp + 1, done + [pre + text[ls..lsp]], [])
  {
    var line := pre + text[ls..lsp];
    var done' := done + [line];
    assert out + text[ls..lsp] + brk == Join(brk, done' + [[]]) by {
      JoinExtendLast(brk, done, pre, text[ls..lsp]);
      JoinNewPart(brk, done, line);
    }
    assert text[..lsp + 1] == Join(" ", done' + [[]]) by {
      JoinExtendLast(" ", done, pre, text[ls..lsp]);
      JoinNewPart(" ", done, line);
      assert text[..lsp + 1] == text[..ls] + text[ls..lsp] + " ";
    }
    if Free(text, brk) {
      assert line == text[ls..lsp] && |line| <= width;
      FreeSlice(text, brk, ls, lsp);
    }
  }

  /** A space short of the width is only remembered. */
  lemma CopySpace(text: string, width: int, brk: string, cur: nat, out: string, ls: nat, lsp: nat,
                  done: seq<string>, pre: string)
    requires CopyInv(text, width, brk, cur, out, ls, lsp, done, pre)
    requires cur < |text| && text[cur] == ' ' && cur - ls < width
    ensures CopyInv(text, width, brk, cur + 1, out, ls, cur, done, pre)
  {
  }

  /** Any other byte leaves the line as it is. */
  lemma CopyWord(text: string, width: int, brk: string, cur: nat, out: string, ls: nat, lsp: nat,
                 done: seq<string>, pre: string)
    requires CopyInv(text, width, brk, cur, out, ls, lsp, done, pre)
    requires cur < |text| && text[cur] != ' ' && !(cur - ls >= width && ls < lsp)
    ensures CopyInv(text, width, brk, cur + 1, out, ls, lsp, done, pre)
  {
  }

  /** A line ended at `e`: short if a space was pending, one word otherwise. */
  lemma LineFits(text: string, width: int, ls: nat, lsp: nat, e: nat)
    requires ls <= e <= |text|
    requires ls < lsp ==> e - ls <= width
    requires forall k :: lsp < k < e ==> text[k] != ' '
    ensures Fits(text[ls..e], width)
  {
    if ls >= lsp {
      assert forall k :: 1 <= k < e - ls ==> text[ls..e][k] == text[ls + k];
    }
  }

  /** On the copying path, a text no longer than the width is copied unchanged. */
  lemma {:induction false} CopyShort(text: string, width: int, brk: string, cur: nat, ls: nat, lsp: nat)
    requires |brk| > 0 && cur <= |text| && ls <= cur && lsp <= cur
    requires ls < lsp ==> lsp < cur
    requires |text| <= width
    ensures WrapCopy(text, width, brk, cur, text[..ls], ls, lsp) == text
    decreases |text| - cur
  {
    if cur == |text| {
      assert text[..ls] + text[ls..] == text;
    } else if cur + |brk| < |text| && text[cur..cur + |brk|] == brk {
      var n := cur + |brk|;
      assert text[..ls] + text[ls..n] == text[..n];
      CopyShort(text, width, brk, n, n, n);
    } else if text[cur] == ' ' {
      CopyShort(text, width, brk, cur + 1, ls, cur);
    } else {
      CopyShort(text, width, brk, cur + 1, ls, lsp);
    }
  }

  // ---------------------------------------------------------------------
  // The one-byte path

  /** `nt` is `text` with some of its spaces replaced by `b`. */
  predicate Marked(text: string, nt: string, b: char)
  {
    |nt| == |text| && forall i :: 0 <= i < |text| ==> nt[i] == text[i] || (text[i] == ' ' && nt[i] == b)
  }

  /** The one-byte path only ever writes the break over a space. */
  lemma {:induction false} InPlaceMarks(text: string, width: int, b: char, cur: nat, nt: string, ls: nat, lsp: nat)
    requires cur <= |text| && |nt| == |text| && ls <= cur && lsp <= cur
    requires ls != lsp ==> lsp < cur && text[lsp] == ' '
    requires Marked(text, nt, b)
    ensures Marked(text, WrapInPlace(text, width, b, cur, nt, ls, lsp), b)
    decreases |text| - cur
  {
    if cur == |text| {
    } else if text[cur] == b {
      InPlaceMarks(text, width, b, cur + 1, nt, cur + 1, cur + 1);
    } else if text[cur] == ' ' {
      if cur - ls >= width {
        InPlaceMarks(text, width, b, cur + 1, nt[cur := b], cur + 1, cur);
      } else {
        InPlaceMarks(text, width, b, cur + 1, nt, ls, cur);
      }
    } else if cur - ls >= width && ls != lsp {
      InPlaceMarks(text, width, b, cur + 1, nt[lsp := b], lsp + 1, lsp);
    } else {
      InPlaceMarks(text, width, b, cur + 1, nt, ls, lsp);
    }
  }

  /** The lines of `text` ended by the positions where `nt` differs from it. */
  function SplitMarked(text: string, nt: string, b: char): (lines: seq<string>)
    requires |nt| == |text|
    ensures |lines| >= 1
  {
    if |text| == 0 then [[]]
    else
      var rest := SplitMarked(text[1..], nt[1..], b);
      if nt[0] != text[0] then [[]] + rest else [[text[0]] + rest[0]] + rest[1..]
  }

  lemma {:induction false} SplitMarkedJoins(text: string, nt: string, b: char)
    requires Marked(text, nt, b)
    ensures Join(" ", SplitMarked(text, nt, b)) == text
    ensures Join([b], SplitMarked(text, nt, b)) == nt
  {
    if |text| > 0 {
      var rest := SplitMarked(text[1..], nt[1..], b);
      assert Marked(text[1..], nt[1..], b);
      SplitMarkedJoins(text[1..], nt[1..], b);
      assert text == [text[0]] + text[1..] && nt == [nt[0]] + nt[1..];
      if nt[0] != text[0] {
        assert ([[]] + rest)[1..] == rest;
      } else {
        JoinConsHead(" ", text[0], rest);
        JoinConsHead([b], text[0], rest);
      }
    }
  }

  /**
   * A state of the one-byte path beside the matching state of the copying
   * path, on a text without the break byte: the copy `nt` is rewritten only
   * before `ls`. `lspc` is the copying path's `lsp`, which it moves past a
   * space it has just used; the one-byte path leaves its own `lsp` on that
   * space, already overwritten.
   */
  ghost predicate SameRun(text: string, b: char, cur: nat, nt: string, ls: nat, lsp: nat, lspc: nat)
  {
    cur <= |text| && |nt| == |text| && ls <= cur && lsp <= cur && lspc <= cur &&
    (ls != lsp ==> lsp < cur) &&
    Free(text, [b]) &&
    nt[..ls] + text[ls..] == nt &&
    ((ls <= lsp && lspc == lsp) || (ls == lsp + 1 && nt[lsp] == b && lspc <= ls))
  }

  /** When the text holds no break byte, the one-byte path and the copying path give the same result. */
  lemma {:induction false} InPlaceIsCopy(text: string, width: int, b: char, cur: nat, nt: string, ls: nat, lsp: nat, lspc: nat)
    requires SameRun(text, b, cur, nt, ls, lsp, lspc)
    ensures WrapInPlace(text, width, b, cur, nt, ls, lsp) == WrapCopy(text, width, [b], cur, nt[..ls], ls, lspc)
    decreases |text| - cur, 1
  {
    if cur < |text| {
      assert text[cur..cur + 1] == [b] <==> text[cur] == b;
      assert !OccursAt(text, [b], cur);
      if text[cur] == ' ' && cur - ls >= width {
        InPlaceIsCopySpaceBreak(text, width, b, cur, nt, ls, lsp, lspc);
      } else if text[cur] == ' ' {
        InPlaceIsCopySpace(text, width, b, cur, nt, ls, lsp, lspc);
      } else if cur - ls >= width && ls < lspc {
        InPlaceIsCopyBackBreak(text, width, b, cur, nt, ls, lsp, lspc);
      } else {
        InPlaceIsCopyWord(text, width, b, cur, nt, ls, lsp, lspc);
      }
    }
  }

  /** `InPlaceIsCopy` at a space where both paths break the line. */
  lemma {:induction false} InPlaceIsCopySpaceBreak(text: string, width: int, b: char, cur: nat, nt: string, ls: nat, lsp: nat, lspc: nat)
    requires SameRun(text, b, cur, nt, ls, lsp, lspc)
    requires cur < |text| && text[cur] == ' ' && cur - ls >= width && !OccursAt(text, [b], cur)
    ensures WrapInPlace(text, width, b, cur, nt, ls, lsp) == WrapCopy(text, width, [b], cur, nt[..ls], ls, lspc)
    decreases |text| - cur, 0
  {
    var nt' := nt[cur := b];
    assert nt'[..cur + 1] == nt[..ls] + text[ls..cur] + [b];
    assert nt'[..cur + 1] + text[cur + 1..] == nt';
    assert WrapInPlace(text, width, b, cur, nt, ls, lsp) == WrapInPlace(text, width, b, cur + 1, nt', cur + 1, cur);
    assert WrapCopy(text, width, [b], cur, nt[..ls], ls, lspc) ==
      WrapCopy(text, width, [b], cur + 1, nt'[..cur + 1], cur + 1, cur);
    InPlaceIsCopy(text, width, b, cur + 1, nt', cur + 1, cur, cur);
  }

  /** `InPlaceIsCopy` at a space short of the width. */
  lemma {:induction false} InPlaceIsCopySpace(text: string, width: int, b: char, cur: nat, nt: string, ls: nat, lsp: nat, lspc: nat)
    requires SameRun(text, b, cur, nt, ls, lsp, lspc)
    requires cur < |text| && text[cur] == ' ' && cur - ls < width && !OccursAt(text, [b], cur)
    ensures WrapInPlace(text, width, b, cur, nt, ls, lsp) == WrapCopy(text, width, [b], cur, nt[..ls], ls, lspc)
    decreases |text| - cur, 0
  {
    assert WrapInPlace(text, width, b, cur, nt, ls, lsp) == WrapInPlace(text, width, b, cur + 1, nt, ls, cur);
    assert WrapCopy(text, width, [b], cur, nt[..ls], ls, lspc) == WrapCopy(text, width, [b], cur + 1, nt[..ls], ls, cur);
    InPlaceIsCopy(text, width, b, cur + 1, nt, ls, cur, cur);
  }

  /** `InPlaceIsCopy` at a byte that sends both paths back to the last space. */
  lemma {:induction false} InPlaceIsCopyBackBreak(text: string, width: int, b: char, cur: nat, nt: string, ls: nat, lsp: nat, lspc: nat)
    requires SameRun(text, b, cur, nt, ls, lsp, lspc)
    requires cur < |text| && text[cur] != ' ' && cur - ls >= width && ls < lspc && !OccursAt(text, [b], cur)
    ensures WrapInPlace(text, width, b, cur, nt, ls, lsp) == WrapCopy(text, width, [b], cur, nt[..ls], ls, lspc)
    decreases |text| - cur, 0
  {
    var nt' := nt[lsp := b];
    assert nt'[..lsp + 1] == nt[..ls] + text[ls..lsp] + [b];
    assert nt'[..lsp + 1] + text[lsp + 1..] == nt';
    assert WrapInPlace(text, width, b, cur, nt, ls, lsp) == WrapInPlace(text, width, b, cur + 1, nt', lsp + 1, lsp);
    assert WrapCopy(text, width, [b], cur, nt[..ls], ls, lspc) ==
      WrapCopy(text, width, [b], cur + 1, nt'[..lsp + 1], lsp + 1, lsp + 1);
    InPlaceIsCopy(text, width, b, cur + 1, nt', lsp + 1, lsp, lsp + 1);
  }

  /**
   * `InPlaceIsCopy` at any other byte. The one-byte path may write the break
   * again over the space it used last, which changes nothing.
   */
  lemma {:induction false} InPlaceIsCopyWord(text: string, width: int, b: char, cur: nat, nt: string, ls: nat, lsp: nat, lspc: nat)
    requires SameRun(text, b, cur, nt, ls, lsp, lspc)
    requires cur < |text| && text[cur] != ' ' && !(cur - ls >= width && ls < lspc) && !OccursAt(text, [b], cur)
    ensures WrapInPlace(text, width, b, cur, nt, ls, lsp) == WrapCopy(text, width, [b], cur, nt[..ls], ls, lspc)
    decreases |text| - cur, 0
  {
    assert text[cur] != b;
    if cur - ls >= width && ls != lsp {
      assert nt[lsp := b] == nt;
    }
    assert WrapInPlace(text, width, b, cur, nt, ls, lsp) == WrapInPlace(text, width, b, cur + 1, nt, ls, lsp);
    assert WrapCopy(text, width, [b], cur, nt[..ls], ls, lspc) == WrapCopy(text, width, [b], cur + 1, nt[..ls], ls, lspc);
    InPlaceIsCopy(text, width, b, cur + 1, nt, ls, lsp, lspc);
  }

  /** On the one-byte path, a text no longer than the width is left as it is. */
  lemma {:induction false} InPlaceShort(text: string, width: int, b: char, cur: nat, ls: nat, lsp: nat)
    requires cur <= |text| && ls <= cur && lsp <= cur
    requires ls != lsp ==> lsp < cur
    requires |text| <= width
    ensures WrapInPlace(text, width, b, cur, text, ls, lsp) == text
    decreases |text| - cur
  {
    if cur < |text| {
      if text[cur] == b {
        InPlaceShort(text, width, b, cur + 1, cur + 1, cur + 1);
      } else if text[cur] == ' ' {
        InPlaceShort(text, width, b, cur + 1, ls, cur);
      } else {
        InPlaceShort(text, width, b, cur + 1, ls, lsp);
      }
    }
  }
}
