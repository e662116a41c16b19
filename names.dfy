/**
 * `sanitize` (webshot.py:5-6): every maximal run of characters outside `[\w.-]`
 * becomes one `_`, then `_` is stripped from both ends, then the result is cut
 * to its first 180 characters.
 */
module Names {
  import opened Text

  const MaxNameLength: nat := 180

  /** `\w`, restricted to ASCII: letters, digits and `_`. */
  predicate IsWordChar(c: char) {
    'a' <= c <= 'z' || 'A' <= c <= 'Z' || '0' <= c <= '9' || c == '_'
  }

  /** The class `[\w.-]` that survives substitution. */
  predicate IsNameChar(c: char) {
    IsWordChar(c) || c == '.' || c == '-'
  }

  /** A character that the pattern `[^\w.-]+` matches. */
  predicate IsForeign(c: char) {
    !IsNameChar(c)
  }

  /** A surviving character that is not the underscore, which sanitizing adds and strips. */
  predicate IsSignificant(c: char) {
    IsNameChar(c) && c != '_'
  }

  /** `re.sub(r"[^\w\.-]+", "_", s)`: each maximal run of foreign characters becomes one `_`. */
  function Collapse(s: string): (r: string)
    ensures |r| <= |s|
    ensures r == [] <==> s == []
    ensures forall i :: 0 <= i < |r| ==> IsNameChar(r[i])
    decreases |s|
  {
    if s == [] then []
    else if IsNameChar(s[0]) then [s[0]] + Collapse(s[1..])
    else
      "_" + Collapse(TrimStart(s, IsForeign))
  }

  function Sanitize(name: string): (r: string)
    ensures |r| <= MaxNameLength
    ensures forall i :: 0 <= i < |r| ==> IsNameChar(r[i])
    ensures r == [] || r[0] != '_'
  {
    var collapsed := Collapse(name);
    var start := TrimStart(collapsed, IsUnderscore);
    var stripped := TrimEnd(start, IsUnderscore);
    assert forall i :: 0 <= i < |start| ==> IsNameChar(start[i]) by {
      assert forall i :: 0 <= i < |start| ==> start[i] == collapsed[|collapsed| - |start| + i];
    }
    assert stripped == Trim(collapsed, IsUnderscore);
    Take(stripped, MaxNameLength)
  }

  /** The strings that `Sanitize` leaves as they are. */
  predicate IsSanitized(s: string) {
    && |s| <= MaxNameLength
    && (forall i :: 0 <= i < |s| ==> IsNameChar(s[i]))
    && (s == [] || (s[0] != '_' && s[|s| - 1] != '_'))
  }

  /** A prefix made only of surviving characters passes through substitution untouched. */
  lemma {:induction false} CollapseNamePrefix(a: string, t: string)
    requires forall i :: 0 <= i < |a| ==> IsNameChar(a[i])
    ensures Collapse(a + t) == a + Collapse(t)
  {
    if a != [] {
      assert (a + t)[0] == a[0] && (a + t)[1..] == a[1..] + t;
      CollapseNamePrefix(a[1..], t);
      assert [a[0]] + (a[1..] + Collapse(t)) == a + Collapse(t);
    } else {
      assert a + t == t;
    }
  }

  lemma CollapseIdentity(s: string)
    requires forall i :: 0 <= i < |s| ==> IsNameChar(s[i])
    ensures Collapse(s) == s
  {
    CollapseNamePrefix(s, "");
    assert s + "" == s;
  }

  /** A maximal run of foreign characters at the front becomes a single `_`. */
  lemma ForeignRunCollapses(run: string, b: string)
    requires run != [] && forall i :: 0 <= i < |run| ==> IsForeign(run[i])
    requires b == [] || IsNameChar(b[0])
    ensures Collapse(run + b) == "_" + Collapse(b)
  {
    assert (run + b)[0] == run[0];
    ForeignRunSkipped(run, b);
  }

  /** A maximal run of foreign characters between surviving ones becomes a single `_`. */
  lemma CollapseRun(a: string, run: string, b: string)
    requires forall i :: 0 <= i < |a| ==> IsNameChar(a[i])
    requires run != [] && forall i :: 0 <= i < |run| ==> IsForeign(run[i])
    requires b == [] || IsNameChar(b[0])
    ensures Collapse(a + run + b) == a + "_" + Collapse(b)
  {
    assert a + run + b == a + (run + b);
    CollapseNamePrefix(a, run + b);
    ForeignRunCollapses(run, b);
    assert a + ("_" + Collapse(b)) == a + "_" + Collapse(b);
  }

  /** Two sanitized words joined by `_` form a sanitized word when short enough. */
  lemma SanitizedJoin(a: string, b: string)
    requires IsSanitized(a) && IsSanitized(b) && a != [] && b != []
    requires |a| + 1 + |b| <= MaxNameLength
    ensures IsSanitized(a + "_" + b)
  {
  }

  /** Two sanitized words joined by a run of foreign characters come out joined by one `_`. */
  lemma SanitizeGap(a: string, run: string, b: string)
    requires a != [] && b != [] && |a| + |b| < MaxNameLength
    requires forall i :: 0 <= i < |a| ==> IsNameChar(a[i])
    requires forall i :: 0 <= i < |b| ==> IsNameChar(b[i])
    requires a[0] != '_' && b[|b| - 1] != '_'
    requires run != [] && forall i :: 0 <= i < |run| ==> IsForeign(run[i])
    ensures Sanitize(a + run + b) == a + "_" + b
  {
    CollapseRun(a, run, b);
    CollapseIdentity(b);
    var r := a + "_" + b;
    TrimIdentity(r, IsUnderscore);
  }

  lemma {:induction false} ForeignRunSkipped(run: string, b: string)
    requires forall i :: 0 <= i < |run| ==> IsForeign(run[i])
    requires b == [] || IsNameChar(b[0])
    ensures TrimStart(run + b, IsForeign) == b
  {
    if run != [] {
      assert (run + b)[1..] == run[1..] + b;
      ForeignRunSkipped(run[1..], b);
    } else {
      assert run + b == b;
    }
  }

  /** Substitution keeps every letter, digit, `.` and `-` of the input, in order, and adds none. */
  lemma {:induction false} CollapseKeepsSignificant(s: string)
    ensures Filter(IsSignificant, Collapse(s)) == Filter(IsSignificant, s)
    decreases |s|
  {
    if s != [] {
      assert s == [s[0]] + s[1..];
      FilterConcat(IsSignificant, [s[0]], s[1..]);
      if IsNameChar(s[0]) {
        CollapseKeepsSignificant(s[1..]);
        FilterConcat(IsSignificant, [s[0]], Collapse(s[1..]));
      } else {
        var rest := TrimStart(s, IsForeign);
        CollapseKeepsSignificant(rest);
        FilterConcat(IsSignificant, "_", Collapse(rest));
        assert Filter(IsSignificant, "_") == [] by {
          assert "_"[..0] == [];
        }
        assert Filter(IsSignificant, [s[0]]) == [] by {
          assert [s[0]][..0] == [];
        }
        TrimStartKeeps(IsSignificant, IsForeign, s);
      }
    }
  }

  /** The letters, digits, `.` and `-` of the result are a prefix of those of the input,
      and all of them when the input is at most 180 characters long. */
  lemma SanitizeKeepsSignificant(s: string)
    ensures Filter(IsSignificant, Sanitize(s)) <= Filter(IsSignificant, s)
    ensures |s| <= MaxNameLength ==> Filter(IsSignificant, Sanitize(s)) == Filter(IsSignificant, s)
  {
    var c := Collapse(s);
    var t := Trim(c, IsUnderscore);
    assert Sanitize(s) == Take(t, MaxNameLength);
    CollapseKeepsSignificant(s);
    TrimKeeps(IsSignificant, IsUnderscore, c);
    TakeKeeps(IsSignificant, t, MaxNameLength);
  }

  /** `Sanitize` leaves a string unchanged exactly when that string is already sanitized. */
  lemma SanitizeFixedPoint(s: string)
    ensures Sanitize(s) == s <==> IsSanitized(s)
  {
    if IsSanitized(s) {
      CollapseIdentity(s);
      TrimIdentity(s, IsUnderscore);
    }
    if Sanitize(s) == s {
      var t := Trim(Collapse(s), IsUnderscore);
      assert |t| == |s|;
      assert Take(t, MaxNameLength) == t;
    }
  }

  /** Sanitizing twice is sanitizing once exactly when the first result does not end in `_`. */
  lemma SanitizeIdempotent(s: string)
    ensures var r := Sanitize(s);
      Sanitize(r) == r <==> (r == [] || r[|r| - 1] != '_')
  {
    SanitizeFixedPoint(Sanitize(s));
  }

  /** The cut at 180 characters can end on an `_`, so sanitizing is not idempotent. */
  lemma TruncationCanEndInUnderscore()
    ensures var s := seq(179, _ => 'a') + "_b";
      && Sanitize(s) == seq(179, _ => 'a') + "_"
      && Sanitize(Sanitize(s)) != Sanitize(s)
  {
    var s := seq(179, _ => 'a') + "_b";
    CollapseIdentity(s);
    TrimIdentity(s, IsUnderscore);
    assert Take(s, MaxNameLength) == seq(179, _ => 'a') + "_";
    SanitizeIdempotent(s);
  }
}
