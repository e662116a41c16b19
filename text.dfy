/**
 * The few methods of Python's `str` that the capture runner relies on:
 * `strip`, `lower`, `split`, `replace` and slicing with `[:n]`.
 * Strings are sequences of Unicode scalar values. A Python `str` can also hold
 * lone surrogates, but this program never meets one: the URL list is decoded
 * as strict UTF-8, and `unquote` replaces undecodable bytes with U+FFFD.
 */
module Text {

  /** Python's `str.isspace()`: the characters `str.strip()` removes when given no argument. */
  predicate IsSpace(c: char) {
    || '\t' <= c <= '\r'
    || '\U{1C}' <= c <= ' '
    || c == '\U{85}' || c == '\U{A0}' || c == '\U{1680}'
    || '\U{2000}' <= c <= '\U{200A}'
    || c == '\U{2028}' || c == '\U{2029}' || c == '\U{202F}' || c == '\U{205F}' || c == '\U{3000}'
  }

  predicate IsUnderscore(c: char) {
    c == '_'
  }

  /** How many characters `s.lstrip(chars)` removes. */
  function LeadingCount(s: string, drop: char -> bool): (n: nat)
    ensures n <= |s|
    ensures forall i :: 0 <= i < n ==> drop(s[i])
    ensures n == |s| || !drop(s[n])
  {
    if |s| > 0 && drop(s[0]) then 1 + LeadingCount(s[1..], drop) else 0
  }

  /** How many characters `s.rstrip(chars)` removes. */
  function TrailingCount(s: string, drop: char -> bool): (n: nat)
    ensures n <= |s|
    ensures forall i :: |s| - n <= i < |s| ==> drop(s[i])
    ensures n == |s| || !drop(s[|s| - n - 1])
  {
    if |s| > 0 && drop(s[|s| - 1]) then 1 + TrailingCount(s[..|s| - 1], drop) else 0
  }

  /** `s.lstrip(chars)`: drops the leading characters for which `drop` holds. */
  function TrimStart(s: string, drop: char -> bool): string {
    s[LeadingCount(s, drop)..]
  }

  /** `s.rstrip(chars)`: drops the trailing characters for which `drop` holds. */
  function TrimEnd(s: string, drop: char -> bool): string {
    s[..|s| - TrailingCount(s, drop)]
  }

  /** `s.strip(chars)`: drops the characters for which `drop` holds at both ends. */
  function Trim(s: string, drop: char -> bool): (r: string)
    ensures |r| <= |s|
    ensures r == [] || (!drop(r[0]) && !drop(r[|r| - 1]))
  {
    TrimEnd(TrimStart(s, drop), drop)
  }

  predicate IsUpper(c: char) {
    'A' <= c <= 'Z'
  }

  /** `str.lower()` on one character: a capital becomes the small letter at the same place in the alphabet. */
  function LowerChar(c: char): (d: char)
    ensures IsUpper(c) ==> 'a' <= d <= 'z' && d as int - 'a' as int == c as int - 'A' as int
    ensures !IsUpper(c) ==> d == c
  {
    if IsUpper(c) then (c as int - 'A' as int + 'a' as int) as char else c
  }

  /** `str.lower()` on the ASCII letters. */
  function Lower(s: string): (r: string)
    ensures |r| == |s|
    ensures forall i :: 0 <= i < |s| && !IsUpper(s[i]) ==> r[i] == s[i]
    ensures forall i :: 0 <= i < |s| && IsUpper(s[i]) ==>
      'a' <= r[i] <= 'z' && r[i] as int - 'a' as int == s[i] as int - 'A' as int
    ensures forall i :: 0 <= i < |r| ==> !IsUpper(r[i])
    ensures forall i :: 0 <= i < |s| ==> (r[i] == 'x' <==> s[i] == 'x' || s[i] == 'X')
  {
    seq(|s|, i requires 0 <= i < |s| => LowerChar(s[i]))
  }

  /** Lower-casing twice is lower-casing once. */
  lemma LowerIdempotent(s: string)
    ensures Lower(Lower(s)) == Lower(s)
  {
    var r := Lower(s);
    assert forall i :: 0 <= i < |r| ==> Lower(r)[i] == r[i];
  }

  /** `s.replace(old, new)` for single characters. */
  function ReplaceChar(s: string, from: char, to: char): (r: string)
    ensures |r| == |s|
    ensures forall i :: 0 <= i < |s| && s[i] != from ==> r[i] == s[i]
    ensures forall i :: 0 <= i < |s| && s[i] == from ==> r[i] == to
    ensures from != to ==> from !in r
  {
    seq(|s|, i requires 0 <= i < |s| => if s[i] == from then to else s[i])
  }

  /** `replace` leaves a string as it is exactly when there is nothing to replace. */
  lemma ReplaceUnchanged(s: string, from: char, to: char)
    ensures ReplaceChar(s, from, to) == s <==> from == to || from !in s
  {
    var r := ReplaceChar(s, from, to);
    if from == to || from !in s {
      assert forall i :: 0 <= i < |s| ==> r[i] == s[i];
    }
  }

  /** The slice `s[:n]`. */
  function Take(s: string, n: nat): (r: string)
    ensures |r| <= n && r <= s
    ensures |s| <= n ==> r == s
  {
    if |s| <= n then s else s[..n]
  }

  /** The characters of `s` for which `keep` holds, in order. */
  function Filter(keep: char -> bool, s: string): (r: string)
    ensures |r| <= |s|
    ensures forall i :: 0 <= i < |r| ==> keep(r[i])
  {
    if s == [] then [] else Filter(keep, s[..|s| - 1]) + (if keep(s[|s| - 1]) then [s[|s| - 1]] else [])
  }

  function Count(s: string, c: char): nat {
    if s == [] then 0 else (if s[0] == c then 1 else 0) + Count(s[1..], c)
  }

  /** `s.split(sep)` with a one-character separator: every occurrence cuts, empty parts are kept. */
  function Split(s: string, sep: char): (parts: seq<string>)
    ensures |parts| == Count(s, sep) + 1
    ensures forall k :: 0 <= k < |parts| ==> sep !in parts[k]
  {
    if s == [] then [""]
    else
      var rest := Split(s[1..], sep);
      if s[0] == sep then [""] + rest else [[s[0]] + rest[0]] + rest[1..]
  }

  /** `sep.join(parts)`. */
  function Join(parts: seq<string>, sep: char): string
    requires |parts| > 0
  {
    if |parts| == 1 then parts[0] else parts[0] + [sep] + Join(parts[1..], sep)
  }

  lemma {:induction false} FilterConcat(keep: char -> bool, a: string, b: string)
    ensures Filter(keep, a + b) == Filter(keep, a) + Filter(keep, b)
  {
    if b != [] {
      var b' := b[..|b| - 1];
      assert (a + b)[..|a + b| - 1] == a + b';
      FilterConcat(keep, a, b');
    } else {
      assert a + b == a;
    }
  }

  /** Keeping only characters that are never dropped, a trimmed string and the original agree. */
  lemma TrimKeeps(keep: char -> bool, drop: char -> bool, s: string)
    requires forall c :: drop(c) ==> !keep(c)
    ensures Filter(keep, Trim(s, drop)) == Filter(keep, s)
  {
    var t := TrimStart(s, drop);
    TrimStartKeeps(keep, drop, s);
    TrimEndKeeps(keep, drop, t);
  }

  lemma TrimStartKeeps(keep: char -> bool, drop: char -> bool, s: string)
    requires forall c :: drop(c) ==> !keep(c)
    ensures Filter(keep, TrimStart(s, drop)) == Filter(keep, s)
  {
    var t := TrimStart(s, drop);
    var n := |s| - |t|;
    var head := s[..n];
    assert s == head + t;
    assert forall i :: 0 <= i < |head| ==> drop(head[i]);
    FilterConcat(keep, head, t);
    DroppedVanish(keep, drop, head);
  }

  lemma TrimEndKeeps(keep: char -> bool, drop: char -> bool, s: string)
    requires forall c :: drop(c) ==> !keep(c)
    ensures Filter(keep, TrimEnd(s, drop)) == Filter(keep, s)
  {
    var r := TrimEnd(s, drop);
    assert s == r + s[|r|..];
    FilterConcat(keep, r, s[|r|..]);
    DroppedVanish(keep, drop, s[|r|..]);
  }

  /** Keeping some characters of a prefix gives a prefix of what is kept from the whole. */
  lemma TakeKeeps(keep: char -> bool, s: string, n: nat)
    ensures Filter(keep, Take(s, n)) <= Filter(keep, s)
  {
    var r := Take(s, n);
    assert s == r + s[|r|..];
    FilterConcat(keep, r, s[|r|..]);
  }

  lemma {:induction false} DroppedVanish(keep: char -> bool, drop: char -> bool, s: string)
    requires forall c :: drop(c) ==> !keep(c)
    requires forall i :: 0 <= i < |s| ==> drop(s[i])
    ensures Filter(keep, s) == []
  {
    if s != [] {
      DroppedVanish(keep, drop, s[..|s| - 1]);
    }
  }

  /** A string whose ends are kept is its own trim. */
  lemma TrimIdentity(s: string, drop: char -> bool)
    requires s == [] || (!drop(s[0]) && !drop(s[|s| - 1]))
    ensures Trim(s, drop) == s
  {
  }

  lemma {:induction false} FilterAll(keep: char -> bool, s: string)
    requires forall i :: 0 <= i < |s| ==> keep(s[i])
    ensures Filter(keep, s) == s
  {
    if s != [] {
      FilterAll(keep, s[..|s| - 1]);
    }
  }

  /** Splitting a string cut at a separator-free prefix. */
  lemma {:induction false} SplitAfterPrefix(a: string, t: string, sep: char)
    requires sep !in a
    ensures Split(a + t, sep) == [a + Split(t, sep)[0]] + Split(t, sep)[1..]
  {
    if a != [] {
      assert (a + t)[1..] == a[1..] + t;
      SplitAfterPrefix(a[1..], t, sep);
      assert [a[0]] + (a[1..] + Split(t, sep)[0]) == a + Split(t, sep)[0];
    } else {
      var parts := Split(t, sep);
      assert a + t == t && a + parts[0] == parts[0];
      assert parts == [parts[0]] + parts[1..];
    }
  }

  /** `split` undoes `join` when no part holds the separator. */
  lemma {:induction false} SplitJoin(parts: seq<string>, sep: char)
    requires |parts| > 0
    requires forall k :: 0 <= k < |parts| ==> sep !in parts[k]
    ensures Split(Join(parts, sep), sep) == parts
  {
    if |parts| == 1 {
      SplitAfterPrefix(parts[0], "", sep);
      assert parts[0] + "" == parts[0];
    } else {
      var tail := Join(parts[1..], sep);
      SplitJoin(parts[1..], sep);
      assert parts[0] + [sep] + tail == parts[0] + ([sep] + tail);
      SplitAfterPrefix(parts[0], [sep] + tail, sep);
      assert ([sep] + tail)[1..] == tail;
      assert parts[0] + "" == parts[0];
    }
  }

  /** `join` undoes `split`. */
  lemma {:induction false} JoinSplit(s: string, sep: char)
    ensures Join(Split(s, sep), sep) == s
  {
    if s != [] {
      var rest := Split(s[1..], sep);
      JoinSplit(s[1..], sep);
      if s[0] == sep {
        assert Join([""] + rest, sep) == "" + [sep] + Join(rest, sep);
        assert s == [s[0]] + s[1..];
      } else {
        var parts := [[s[0]] + rest[0]] + rest[1..];
        if |rest| == 1 {
          assert Join(rest, sep) == rest[0];
        } else {
          assert Join(rest, sep) == rest[0] + [sep] + Join(rest[1..], sep);
          assert parts[1..] == rest[1..];
        }
        assert s == [s[0]] + s[1..];
      }
    }
  }
}
