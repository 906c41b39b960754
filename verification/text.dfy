/**
 The string primitives the table renderer is built from: `String.prototype.repeat`,
 `String.prototype.padEnd` with a one-space filler, `Array.prototype.join` with a
 one-character separator, and a splitter that undoes the join.
 */
module Text {

  /** `[c]` repeated `n` times, as `c.repeat(n)` does for a one-character string. */
  function Repeat(c: char, n: nat): (r: string)
    ensures |r| == n
    ensures forall k :: 0 <= k < n ==> r[k] == c
  {
    if n == 0 then [] else [c] + Repeat(c, n - 1)
  }

  /** `s.padEnd(width, ' ')`: appends spaces up to `width` and never shortens `s`. */
  function PadEnd(s: string, width: nat): (r: string)
    ensures |r| == if |s| < width then width else |s|
    ensures r[..|s|] == s
    ensures forall k :: |s| <= k < |r| ==> r[k] == ' '
  {
    if width <= |s| then s else s + Repeat(' ', width - |s|)
  }

  /** Sum of a sequence of widths. */
  function Sum(ws: seq<nat>): nat
  {
    if |ws| == 0 then 0 else ws[0] + Sum(ws[1..])
  }

  /** The length a row of columns with these widths occupies once joined by one separator. */
  function LineWidth(ws: seq<nat>): nat
  {
    if |ws| == 0 then 0 else Sum(ws) + |ws| - 1
  }

  /** Position of the first character of column `i`: the widths before it plus one separator each. */
  function ColumnStart(ws: seq<nat>, i: nat): nat
    requires i <= |ws|
  {
    if i == 0 then 0 else ws[0] + 1 + ColumnStart(ws[1..], i - 1)
  }

  /** `parts.join(sep)` for a one-character separator. */
  function Join(parts: seq<string>, sep: char): (r: string)
  {
    if |parts| == 0 then []
    else if |parts| == 1 then parts[0]
    else parts[0] + [sep] + Join(parts[1..], sep)
  }

  /** Cuts `s` at every `sep`, keeping empty pieces; the inverse of `Join` on separator-free parts. */
  function Split(s: string, sep: char): (r: seq<string>)
    ensures |r| >= 1
  {
    if |s| == 0 then [[]]
    else
      var rest := Split(s[1..], sep);
      if s[0] == sep then [[]] + rest else [[s[0]] + rest[0]] + rest[1..]
  }

  /** `parts[i]` has length `ws[i]` for every column. */
  ghost predicate HasWidths(parts: seq<string>, ws: seq<nat>)
  {
    |parts| == |ws| && forall i :: 0 <= i < |ws| ==> |parts[i]| == ws[i]
  }

  /** Column `j` of `line` is exactly `content`, followed by a single space unless it is the last column. */
  ghost predicate ColumnIs(line: string, ws: seq<nat>, j: nat, content: string)
    requires j < |ws|
  {
    && ColumnStart(ws, j) + ws[j] <= |line|
    && line[ColumnStart(ws, j) .. ColumnStart(ws, j) + ws[j]] == content
    && (j < |ws| - 1 ==> ColumnStart(ws, j) + ws[j] < |line| && line[ColumnStart(ws, j) + ws[j]] == ' ')
  }

  /** The column start is the closed form: widths of the earlier columns plus one separator per column. */
  lemma {:induction false} ColumnStartClosedForm(ws: seq<nat>, i: nat)
    requires i <= |ws|
    ensures ColumnStart(ws, i) == Sum(ws[..i]) + i
  {
    if i > 0 {
      ColumnStartClosedForm(ws[1..], i - 1);
      assert ws[..i][1..] == ws[1..][..i - 1];
    }
  }

  /** Joining parts of known widths gives a line of `LineWidth` characters. */
  lemma {:induction false} JoinLength(parts: seq<string>, ws: seq<nat>, sep: char)
    requires HasWidths(parts, ws)
    ensures |Join(parts, sep)| == LineWidth(ws)
  {
    if |parts| > 1 {
      assert HasWidths(parts[1..], ws[1..]);
      JoinLength(parts[1..], ws[1..], sep);
      assert Sum(ws) == ws[0] + Sum(ws[1..]);
    }
  }

  /** A slice of the second part of a concatenation, located from the start of the whole. */
  lemma {:induction false} SliceAfterPrefix<T>(a: seq<T>, b: seq<T>, lo: nat, hi: nat)
    requires lo <= hi <= |b|
    ensures (a + b)[|a| + lo .. |a| + hi] == b[lo .. hi]
  {
    assert forall k :: 0 <= k < hi - lo ==> (a + b)[|a| + lo .. |a| + hi][k] == b[lo .. hi][k];
  }

  /**
   Column `i` of a joined line sits at `ColumnStart(ws, i)`, holds exactly `parts[i]`,
   and is followed by the separator unless it is the last column.
   */
  lemma {:induction false} JoinColumn(parts: seq<string>, ws: seq<nat>, sep: char, i: nat)
    requires HasWidths(parts, ws)
    requires i < |parts|
    ensures ColumnStart(ws, i) + ws[i] <= |Join(parts, sep)|
    ensures i + 1 < |parts| ==> ColumnStart(ws, i) + ws[i] < |Join(parts, sep)|
    ensures Join(parts, sep)[ColumnStart(ws, i) .. ColumnStart(ws, i) + ws[i]] == parts[i]
    ensures i + 1 < |parts| ==> Join(parts, sep)[ColumnStart(ws, i) + ws[i]] == sep
  {
    assert |parts[0]| == ws[0];
    if |parts| > 1 {
      var head, tail := parts[0] + [sep], Join(parts[1..], sep);
      assert Join(parts, sep) == head + tail;
      if i == 0 {
        assert (head + tail)[..ws[0]] == parts[0];
      } else {
        assert HasWidths(parts[1..], ws[1..]);
        JoinColumn(parts[1..], ws[1..], sep, i - 1);
        var o := ColumnStart(ws[1..], i - 1);
        SliceAfterPrefix(head, tail, o, o + ws[i]);
        if i + 1 < |parts| {
          assert (head + tail)[|head| + o + ws[i]] == tail[o + ws[i]];
        }
      }
    }
  }

  /** Splitting a piece with no separator in it gives that piece back whole. */
  lemma {:induction false} SplitNoSeparator(p: string, sep: char)
    requires sep !in p
    ensures Split(p, sep) == [p]
  {
    if |p| > 0 {
      SplitNoSeparator(p[1..], sep);
      assert [p[0]] + p[1..] == p;
    }
  }

  /** A separator-free prefix followed by the separator is cut off as one piece. */
  lemma {:induction false} SplitAfterPiece(p: string, sep: char, t: string)
    requires sep !in p
    ensures Split(p + [sep] + t, sep) == [p] + Split(t, sep)
  {
    if |p| == 0 {
      assert p + [sep] + t == [sep] + t;
      assert (p + [sep] + t)[1..] == t;
    } else {
      SplitAfterPiece(p[1..], sep, t);
      assert (p + [sep] + t)[1..] == p[1..] + [sep] + t;
      assert [p[0]] + p[1..] == p;
    }
  }

  /** `Split` undoes `Join` whenever no part contains the separator. */
  lemma {:induction false} SplitJoin(parts: seq<string>, sep: char)
    requires |parts| >= 1
    requires forall i :: 0 <= i < |parts| ==> sep !in parts[i]
    ensures Split(Join(parts, sep), sep) == parts
  {
    if |parts| == 1 {
      SplitNoSeparator(parts[0], sep);
    } else {
      SplitJoin(parts[1..], sep);
      SplitAfterPiece(parts[0], sep, Join(parts[1..], sep));
      assert [parts[0]] + parts[1..] == parts;
    }
  }
}
