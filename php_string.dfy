/**
 * The PHP string built-ins the printer relies on, on byte strings.
 * A PHP string is a sequence of bytes: each `char` here stands for one byte,
 * so `strlen($s)` is `|s|`.
 */
module PhpString {
  import opened Wrappers

  function Min(a: int, b: int): int { if a <= b then a else b }

  function Max(a: int, b: int): int { if a >= b then a else b }

  /** `n` copies of `c`. */
  function Repeat(c: char, n: nat): (r: string)
    ensures |r| == n
    ensures forall i :: 0 <= i < n ==> r[i] == c
  {
    if n == 0 then [] else [c] + Repeat(c, n - 1)
  }

  /**
   * `str_repeat($c, $times)`: a negative count raises a ValueError (PHP 8),
   * which is `None` here.
   */
  function StrRepeat(c: char, times: int): (r: Option<string>)
    ensures r.None? <==> times < 0
    ensures r.Some? ==> |r.value| == times && forall i :: 0 <= i < times ==> r.value[i] == c
  {
    if times < 0 then None else Some(Repeat(c, times))
  }

  /**
   * `str_pad($s, $length, ' ', STR_PAD_RIGHT)`: spaces are added on the right
   * until the string is `length` long; a string already that long (or a
   * length that is not positive) is returned unchanged.
   */
  function PadRight(s: string, length: int): (r: string)
    ensures |r| == Max(|s|, length)
    ensures r[..|s|] == s
    ensures forall i :: |s| <= i < |r| ==> r[i] == ' '
  {
    if length <= |s| then s else s + Repeat(' ', length - |s|)
  }

  /** The bytes `trim`/`ltrim` strip by default: " \t\n\r\0\x0B". */
  predicate IsTrimmed(c: char)
  {
    c == ' ' || c == '\t' || c == '\n' || c == '\r' || c == '\0' || c == '\U{0B}'
  }

  /** `ltrim($s)`: the longest suffix of `s` that does not start with a stripped byte. */
  function LTrim(s: string): (r: string)
    ensures |r| <= |s| && r == s[|s| - |r|..]
    ensures r == [] || !IsTrimmed(r[0])
    ensures forall i :: 0 <= i < |s| - |r| ==> IsTrimmed(s[i])
  {
    if |s| > 0 && IsTrimmed(s[0]) then LTrim(s[1..]) else s
  }

  /** `rtrim($s)`: the longest prefix of `s` that does not end with a stripped byte. */
  function RTrim(s: string): (r: string)
    ensures |r| <= |s| && r == s[..|r|]
    ensures r == [] || !IsTrimmed(r[|r| - 1])
    ensures forall i :: |r| <= i < |s| ==> IsTrimmed(s[i])
  {
    if |s| > 0 && IsTrimmed(s[|s| - 1]) then RTrim(s[..|s| - 1]) else s
  }

  /** `trim($s)`: stripped bytes removed from both ends. */
  function Trim(s: string): (r: string)
    ensures var k := |s| - |LTrim(s)|; k + |r| <= |s| && r == s[k..k + |r|]
    ensures var k := |s| - |LTrim(s)|; forall i :: 0 <= i < |s| && (i < k || i >= k + |r|) ==> IsTrimmed(s[i])
    ensures r == [] || (!IsTrimmed(r[0]) && !IsTrimmed(r[|r| - 1]))
  {
    var l := LTrim(s);
    var r := RTrim(l);
    TrimmedAround(s, l, r);
    r
  }

  /**
   * A prefix `r` of a suffix `l` of `s` is a slice of `s`; what the two cuts
   * drop is all stripped bytes. If `l` does not start and `r` does not end
   * with a stripped byte, `r` does neither.
   */
  lemma TrimmedAround(s: string, l: string, r: string)
    requires |l| <= |s| && l == s[|s| - |l|..] && forall i :: 0 <= i < |s| - |l| ==> IsTrimmed(s[i])
    requires |r| <= |l| && r == l[..|r|] && forall i :: |r| <= i < |l| ==> IsTrimmed(l[i])
    requires l == [] || !IsTrimmed(l[0])
    requires r == [] || !IsTrimmed(r[|r| - 1])
    ensures r == [] || (!IsTrimmed(r[0]) && !IsTrimmed(r[|r| - 1]))
    ensures var k := |s| - |l|; k + |r| <= |s| && r == s[k..k + |r|]
    ensures var k := |s| - |l|; forall i :: 0 <= i < |s| && (i < k || i >= k + |r|) ==> IsTrimmed(s[i])
  {
    var k := |s| - |l|;
    forall i | k + |r| <= i < |s| ensures IsTrimmed(s[i]) {
      assert s[i] == l[i - k];
    }
  }

  /** `implode($sep, $parts)`: the parts with `sep` between consecutive ones. */
  function Join(sep: string, parts: seq<string>): string
  {
    if |parts| == 0 then []
    else if |parts| == 1 then parts[0]
    else parts[0] + sep + Join(sep, parts[1..])
  }

  /** `sep` occurs in `s` starting at index `i`. */
  predicate OccursAt(s: string, sep: string, i: int)
  {
    0 <= i && i + |sep| <= |s| && s[i..i + |sep|] == sep
  }

  /** `sep` occurs nowhere in `s`. */
  predicate Free(s: string, sep: string)
  {
    forall i :: 0 <= i <= |s| - |sep| ==> !OccursAt(s, sep, i)
  }

  /**
   * `explode($sep, $s)`: `s` cut at every occurrence of `sep`, scanning from
   * the left; a string without `sep` (the empty one too) gives one piece.
   */
  function Explode(sep: string, s: string): (r: seq<string>)
    requires |sep| > 0
    ensures |r| >= 1
    decreases |s|
  {
    if |s| < |sep| then [s]
    else if s[..|sep|] == sep then [[]] + Explode(sep, s[|sep|..])
    else
      var rest := Explode(sep, s[1..]);
      [[s[0]] + rest[0]] + rest[1..]
  }

  /** Adding a byte in front of the first part adds it in front of the joined string. */
  lemma JoinConsHead(sep: string, c: char, parts: seq<string>)
    requires |parts| >= 1
    ensures Join(sep, [[c] + parts[0]] + parts[1..]) == [c] + Join(sep, parts)
  {
    var ps := [[c] + parts[0]] + parts[1..];
    if |parts| > 1 {
      assert ps[1..] == parts[1..];
    }
  }

  /** Joining with one more part at the end. */
  lemma {:induction false} JoinSnoc(sep: string, parts: seq<string>, x: string)
    ensures Join(sep, parts + [x]) == if |parts| == 0 then x else Join(sep, parts) + sep + x
  {
    if |parts| > 1 {
      assert (parts + [x])[1..] == parts[1..] + [x];
      JoinSnoc(sep, parts[1..], x);
    } else if |parts| == 1 {
      assert (parts + [x])[1..] == [x];
    }
  }

  /** Extending the last part extends the joined string. */
  lemma JoinExtendLast(sep: string, parts: seq<string>, x: string, y: string)
    ensures Join(sep, parts + [x + y]) == Join(sep, parts + [x]) + y
  {
    JoinSnoc(sep, parts, x + y);
    JoinSnoc(sep, parts, x);
  }

  /** Starting a new, empty last part appends one separator. */
  lemma JoinNewPart(sep: string, parts: seq<string>, x: string)
    ensures Join(sep, parts + [x] + [[]]) == Join(sep, parts + [x]) + sep
  {
    JoinSnoc(sep, parts + [x], []);
  }

  /** `implode($sep, explode($sep, $s)) === $s`. */
  lemma {:induction false} ImplodeExplode(sep: string, s: string)
    requires |sep| > 0
    ensures Join(sep, Explode(sep, s)) == s
    decreases |s|
  {
    if |s| < |sep| {
    } else if s[..|sep|] == sep {
      var rest := Explode(sep, s[|sep|..]);
      assert Explode(sep, s) == [[]] + rest;
      assert Join(sep, [[]] + rest) == [] + sep + Join(sep, rest) by {
        assert ([[]] + rest)[1..] == rest;
      }
      ImplodeExplode(sep, s[|sep|..]);
      assert s == s[..|sep|] + s[|sep|..];
    } else {
      var rest := Explode(sep, s[1..]);
      assert Explode(sep, s) == [[s[0]] + rest[0]] + rest[1..];
      JoinConsHead(sep, s[0], rest);
      ImplodeExplode(sep, s[1..]);
      assert s == [s[0]] + s[1..];
    }
  }

  /** A string without the separator explodes into itself. */
  lemma {:induction false} ExplodeFree(sep: string, s: string)
    requires |sep| > 0 && Free(s, sep)
    ensures Explode(sep, s) == [s]
    decreases |s|
  {
    if |s| >= |sep| {
      assert !OccursAt(s, sep, 0);
      assert Free(s[1..], sep) by {
        forall i | 0 <= i <= |s| - 1 - |sep| ensures !OccursAt(s[1..], sep, i) {
          SliceOfSlice(s, 1, |s|, i, i + |sep|);
          assert !OccursAt(s, sep, i + 1);
        }
      }
      ExplodeFree(sep, s[1..]);
      assert s == [s[0]] + s[1..];
    }
  }

  /**
   * For a two-byte separator whose bytes differ, a separator-free part
   * followed by the separator is cut off as one piece.
   */
  lemma {:induction false} ExplodeSplitsFirst(sep: string, p: string, t: string)
    requires |sep| == 2 && sep[0] != sep[1] && Free(p, sep)
    ensures Explode(sep, p + sep + t) == [p] + Explode(sep, t)
    decreases |p|
  {
    var s := p + sep + t;
    if |p| == 0 {
      assert s == sep + t;
      assert s[..2] == sep && s[2..] == t;
    } else {
      if |p| >= 2 {
        assert !OccursAt(p, sep, 0);
        assert s[..2] == p[..2];
      } else {
        assert s[..2] == [p[0], sep[0]];
      }
      assert Free(p[1..], sep) by {
        forall i | 0 <= i <= |p| - 1 - |sep| ensures !OccursAt(p[1..], sep, i) {
          SliceOfSlice(p, 1, |p|, i, i + |sep|);
          assert !OccursAt(p, sep, i + 1);
        }
      }
      assert s[1..] == p[1..] + sep + t;
      ExplodeSplitsFirst(sep, p[1..], t);
      assert p == [p[0]] + p[1..];
    }
  }

  /**
   * `explode` undoes `implode` when the separator is two distinct bytes
   * and no part contains it.
   */
  lemma {:induction false} ExplodeImplode(sep: string, parts: seq<string>)
    requires |sep| == 2 && sep[0] != sep[1] && |parts| >= 1
    requires forall i :: 0 <= i < |parts| ==> Free(parts[i], sep)
    ensures Explode(sep, Join(sep, parts)) == parts
  {
    if |parts| == 1 {
      ExplodeFree(sep, parts[0]);
    } else {
      ExplodeSplitsFirst(sep, parts[0], Join(sep, parts[1..]));
      ExplodeImplode(sep, parts[1..]);
      assert parts == [parts[0]] + parts[1..];
    }
  }

  /** A slice of a separator-free string is separator-free. */
  lemma FreeSlice(s: string, sep: string, a: int, b: int)
    requires 0 <= a <= b <= |s| && Free(s, sep)
    ensures Free(s[a..b], sep)
  {
    forall i | 0 <= i <= b - a - |sep| ensures !OccursAt(s[a..b], sep, i) {
      SliceOfSlice(s, a, b, i, i + |sep|);
      assert !OccursAt(s, sep, a + i);
    }
  }

  lemma SliceOfSlice(s: string, a: int, b: int, i: int, j: int)
    requires 0 <= a <= b <= |s| && 0 <= i <= j <= b - a
    ensures s[a..b][i..j] == s[a + i..a + j]
  {
    forall k | 0 <= k < j - i ensures s[a..b][i..j][k] == s[a + i..a + j][k] {
    }
  }
}

module PhpStringFacts {
  import opened PhpString

  /** A byte outside every part and the separator is outside the joined string. */
  lemma {:induction false} JoinAvoids(sep: string, parts: seq<string>, c: char)
    requires c !in sep && forall i :: 0 <= i < |parts| ==> c !in parts[i]
    ensures c !in Join(sep, parts)
  {
    if |parts| > 1 {
      JoinAvoids(sep, parts[1..], c);
    }
  }

  /** A byte outside the joined string is outside every part. */
  lemma {:induction false} PartsAvoid(sep: string, parts: seq<string>, c: char)
    requires c !in Join(sep, parts)
    ensures forall i :: 0 <= i < |parts| ==> c !in parts[i]
  {
    if |parts| > 1 {
      PartsAvoid(sep, parts[1..], c);
      forall i | 1 <= i < |parts| ensures c !in parts[i] {
        assert parts[i] == parts[1..][i - 1];
      }
    }
  }

  /** The first part is where the joined string starts. */
  lemma JoinStartsWithFirst(sep: string, parts: seq<string>)
    requires |parts| >= 1
    ensures |parts[0]| <= |Join(sep, parts)| && Join(sep, parts)[..|parts[0]|] == parts[0]
  {
  }

  /** `t[i..j]` is a run of bytes none of which is a space. */
  predicate Word(t: string, i: int, j: int)
  {
    0 <= i <= j <= |t| && forall k :: i <= k < j ==> t[k] != ' '
  }

  /** No run of non-space bytes in `t` is longer than `n`. */
  ghost predicate WordsFit(t: string, n: int)
  {
    forall i, j :: Word(t, i, j) ==> j - i <= n
  }

  lemma WordsFitSplit(a: string, b: string, n: int)
    requires WordsFit(a + b, n)
    ensures WordsFit(a, n) && WordsFit(b, n)
  {
    forall i, j | Word(a, i, j) ensures j - i <= n {
      assert Word(a + b, i, j);
    }
    forall i, j | Word(b, i, j) ensures j - i <= n {
      assert Word(a + b, |a| + i, |a| + j);
    }
  }

  /** The words of the parts of a space-joined string are words of that string. */
  lemma {:induction false} PartsWordsFit(parts: seq<string>, n: int)
    requires WordsFit(Join(" ", parts), n)
    ensures forall i :: 0 <= i < |parts| ==> WordsFit(parts[i], n)
  {
    if |parts| > 1 {
      WordsFitSplit(parts[0] + " ", Join(" ", parts[1..]), n);
      WordsFitSplit(parts[0], " ", n);
      PartsWordsFit(parts[1..], n);
      forall i | 1 <= i < |parts| ensures WordsFit(parts[i], n) {
        assert parts[i] == parts[1..][i - 1];
      }
    }
  }

  /** Stripping leading blanks removes bytes from the front only. */
  lemma LTrimAvoids(s: string, c: char)
    requires c !in s
    ensures c !in LTrim(s)
  {
    assert LTrim(s) == s[|s| - |LTrim(s)|..];
  }

  lemma TrimAvoids(s: string, c: char)
    requires c !in s
    ensures c !in Trim(s)
  {
    LTrimAvoids(s, c);
    var l := LTrim(s);
    assert RTrim(l) == l[..|RTrim(l)|];
  }
}
