/**
 * `read_urls` (webshot.py:8-13): every line of the input list is stripped of
 * surrounding whitespace and kept when what remains is non-empty and does not
 * start with `#`. Reading the file is left out; the lines are the input.
 */
module UrlList {
  import opened Text

  /** A stripped line that names a URL: non-empty and not a `#` comment. */
  predicate IsUrlLine(u: string) {
    u != [] && u[0] != '#'
  }

  /** What `read_urls` yields: a URL line with no whitespace at either end. */
  predicate IsYielded(u: string) {
    IsUrlLine(u) && !IsSpace(u[0]) && !IsSpace(u[|u| - 1])
  }

  function Stripped(line: string): (u: string)
    ensures |u| <= |line|
    ensures u == [] || (!IsSpace(u[0]) && !IsSpace(u[|u| - 1]))
  {
    Trim(line, IsSpace)
  }

  /** The URLs that `read_urls` yields for `lines`, in order. */
  function KeptUrls(lines: seq<string>): (urls: seq<string>)
    ensures |urls| <= |lines|
    ensures forall k :: 0 <= k < |urls| ==> IsYielded(urls[k])
  {
    if lines == [] then []
    else
      var u := Stripped(lines[|lines| - 1]);
      KeptUrls(lines[..|lines| - 1]) + (if IsUrlLine(u) then [u] else [])
  }

  /** A line that `read_urls` keeps. */
  predicate IsKeptLine(line: string) {
    IsUrlLine(Stripped(line))
  }

  /** The positions of the lines for which `keep` holds, in increasing order. */
  function Positions(lines: seq<string>, keep: string -> bool): seq<nat> {
    if lines == [] then []
    else
      var i := |lines| - 1;
      Positions(lines[..i], keep) + (if keep(lines[i]) then [i] else [])
  }

  /** The positions of the lines that `read_urls` keeps. */
  function KeptLines(lines: seq<string>): seq<nat> {
    Positions(lines, IsKeptLine)
  }

  /** The generator of webshot.py:10-13, collected into a list as its caller does. */
  method ReadUrls(lines: seq<string>) returns (urls: seq<string>)
    ensures urls == KeptUrls(lines)
  {
    urls := [];
    for i := 0 to |lines|
      invariant urls == KeptUrls(lines[..i])
    {
      assert lines[..i + 1][..i] == lines[..i];
      var u := Trim(lines[i], IsSpace);
      if u != [] && u[0] != '#' {
        urls := urls + [u];
      }
    }
    assert lines[..|lines|] == lines;
  }

  /** The k-th kept URL is the stripped form of line KeptLines(lines)[k]. */
  lemma {:induction false} KeptUrlsFromLines(lines: seq<string>)
    ensures var idx := KeptLines(lines); var urls := KeptUrls(lines);
      && |idx| == |urls|
      && forall k :: 0 <= k < |idx| ==> idx[k] < |lines| && urls[k] == Stripped(lines[idx[k]])
  {
    if lines != [] {
      var n := |lines| - 1;
      var init := lines[..n];
      KeptUrlsFromLines(init);
      var idx, urls := KeptLines(init), KeptUrls(init);
      assert forall k :: 0 <= k < |idx| ==> lines[idx[k]] == init[idx[k]];
      if IsUrlLine(Stripped(lines[n])) {
        assert IsKeptLine(lines[n]);
        assert KeptLines(lines) == idx + [n];
        assert KeptUrls(lines) == urls + [Stripped(lines[n])];
      } else {
        assert KeptLines(lines) == idx;
        assert KeptUrls(lines) == urls;
      }
    }
  }

  /** Positions are line numbers in increasing order. */
  lemma {:induction false} PositionsIncrease(lines: seq<string>, keep: string -> bool)
    ensures forall k :: 0 <= k < |Positions(lines, keep)| ==> Positions(lines, keep)[k] < |lines|
    ensures forall k, m :: 0 <= k < m < |Positions(lines, keep)| ==> Positions(lines, keep)[k] < Positions(lines, keep)[m]
  {
    if lines != [] {
      var n := |lines| - 1;
      var init := lines[..n];
      PositionsIncrease(init, keep);
      var idx := Positions(init, keep);
      assert |init| == n;
      assert forall k :: 0 <= k < |idx| ==> idx[k] < n;
      if keep(lines[n]) {
        assert Positions(lines, keep) == idx + [n];
      } else {
        assert Positions(lines, keep) == idx;
      }
    }
  }

  /** A line's position is listed exactly when `keep` holds of the line. */
  lemma {:induction false} PositionsExactly(lines: seq<string>, keep: string -> bool, i: nat)
    requires i < |lines|
    ensures i in Positions(lines, keep) <==> keep(lines[i])
  {
    var n := |lines| - 1;
    var init := lines[..n];
    var idx := Positions(init, keep);
    if i < n {
      PositionsExactly(init, keep, i);
      assert init[i] == lines[i];
    } else {
      PositionsIncrease(init, keep);
      assert n !in idx;
    }
  }

  /** The kept positions are line numbers in increasing order: input order is preserved. */
  lemma KeptLinesIncrease(lines: seq<string>)
    ensures forall k :: 0 <= k < |KeptLines(lines)| ==> KeptLines(lines)[k] < |lines|
    ensures forall k, m :: 0 <= k < m < |KeptLines(lines)| ==> KeptLines(lines)[k] < KeptLines(lines)[m]
  {
    PositionsIncrease(lines, IsKeptLine);
  }

  /** A line is kept exactly when its stripped form is non-empty and does not start with `#`. */
  lemma KeptLinesExactly(lines: seq<string>, i: nat)
    requires i < |lines|
    ensures i in KeptLines(lines) <==> IsUrlLine(Stripped(lines[i]))
  {
    PositionsExactly(lines, IsKeptLine, i);
  }

  /** The list of a concatenation is the concatenation of the lists: one line never affects another. */
  lemma {:induction false} KeptUrlsConcat(a: seq<string>, b: seq<string>)
    ensures KeptUrls(a + b) == KeptUrls(a) + KeptUrls(b)
  {
    if b == [] {
      assert a + b == a;
    } else {
      var b' := b[..|b| - 1];
      var last := b[|b| - 1];
      assert (a + b)[..|a + b| - 1] == a + b';
      assert (a + b)[|a + b| - 1] == last;
      KeptUrlsConcat(a, b');
      var tail := if IsUrlLine(Stripped(last)) then [Stripped(last)] else [];
      assert KeptUrls(a + b) == KeptUrls(a + b') + tail;
      assert KeptUrls(b) == KeptUrls(b') + tail;
    }
  }

  /** A blank line yields nothing. */
  lemma BlankLineSkipped(line: string)
    requires forall i :: 0 <= i < |line| ==> IsSpace(line[i])
    ensures KeptUrls([line]) == []
  {
    var none: seq<string> := [];
    assert [line][..0] == none;
  }

  /** A comment line, `#` after any indentation, yields nothing. */
  lemma CommentLineSkipped(indent: string, rest: string)
    requires forall i :: 0 <= i < |indent| ==> IsSpace(indent[i])
    ensures KeptUrls([indent + "#" + rest]) == []
  {
    var line := indent + "#" + rest;
    assert line[|indent|] == '#';
    var t := TrimStart(line, IsSpace);
    assert |t| == |line| - |indent|;
    assert t[0] == '#';
    var none: seq<string> := [];
    assert [line][..0] == none;
  }
}
