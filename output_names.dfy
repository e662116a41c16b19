/**
 * The per-URL names of `main` (webshot.py:29-37 and 52-54): the name of the
 * screenshot derived from the parsed URL, the name of the error report derived
 * from the URL itself, and the loop that leaves one of the two per URL.
 * `urllib.parse.urlparse` and `unquote` are not part of this model: their
 * results come in as `UrlParts`.
 */
module OutputNames {
  import opened Text
  import opened Names

  /** What `urlparse` and `unquote` give for a URL; `fragment` is already percent-decoded. */
  datatype UrlParts = UrlParts(netloc: string, path: string, fragment: string)

  const FragmentLimit: nat := 60
  const FallbackStem: string := "page"

  /** `f"{netloc}_{path}".replace("/", "_")`, then `"_" + sanitize(frag)[:60]` when the fragment is non-empty. */
  function BaseName(p: UrlParts): (b: string)
    ensures p.fragment == "" ==> |b| == |p.netloc| + 1 + |p.path|
    ensures p.fragment != "" ==> |p.netloc| + 2 + |p.path| <= |b| <= |p.netloc| + 2 + |p.path| + FragmentLimit
    ensures '/' !in b
  {
    var base := ReplaceChar(p.netloc + "_" + p.path, '/', '_');
    if p.fragment != "" then
      var piece := Take(Sanitize(p.fragment), FragmentLimit);
      var b := base + "_" + piece;
      SlashFree(b, |base| + 1, |b|);
      b
    else base
  }

  /** `sanitize(base) or "page"`. */
  function StemOf(base: string): (stem: string)
    ensures stem != [] && |stem| <= MaxNameLength
    ensures forall i :: 0 <= i < |stem| ==> IsNameChar(stem[i])
    ensures stem[0] != '_'
  {
    var s := Sanitize(base);
    if s == [] then FallbackStem else s
  }

  /** The stem of the screenshot's file name for a parsed URL. */
  function FileStem(p: UrlParts): (stem: string)
    ensures stem != [] && |stem| <= MaxNameLength
    ensures forall i :: 0 <= i < |stem| ==> IsNameChar(stem[i])
    ensures stem[0] != '_'
  {
    StemOf(BaseName(p))
  }

  /** The file a successful capture writes: `f"{fname}.png"`. */
  function ScreenshotName(p: UrlParts): (name: string)
    ensures 5 <= |name| <= MaxNameLength + 4 && name[|name| - 4..] == ".png"
    ensures name[..|name| - 4] == FileStem(p)
    ensures forall i :: 0 <= i < |name| - 4 ==> IsNameChar(name[i])
  {
    FileStem(p) + ".png"
  }

  /** The file a failed capture writes: `f"ERROR_{sanitize(url)}.txt"`, whatever the parsed parts are. */
  function ErrorName(url: string): (name: string)
    ensures 10 <= |name| <= MaxNameLength + 10
    ensures name[..6] == "ERROR_" && name[|name| - 4..] == ".txt"
    ensures forall i :: 6 <= i < |name| - 4 ==> IsNameChar(name[i])
  {
    "ERROR_" + Sanitize(url) + ".txt"
  }

  /** A screenshot never has the name of an error report, whichever URLs the two come from. */
  lemma ScreenshotIsNotErrorReport(p: UrlParts, url: string)
    ensures ScreenshotName(p) != ErrorName(url)
  {
    var s, e := ScreenshotName(p), ErrorName(url);
    assert s[|s| - 1] == 'g' && e[|e| - 1] == 't';
  }

  /** A non-empty fragment adds `_` and at most 60 characters of its sanitized form, after the rest. */
  lemma FragmentPart(p: UrlParts)
    requires p.fragment != ""
    ensures var piece := Take(Sanitize(p.fragment), FragmentLimit);
      && BaseName(p) == BaseName(p.(fragment := "")) + "_" + piece
      && |piece| <= FragmentLimit
      && (piece == [] || piece[0] != '_')
      && forall i :: 0 <= i < |piece| ==> IsNameChar(piece[i])
  {
  }

  /**
   * The fragment is sanitized before it is cut to 60 characters: a fragment
   * of 60 spaces followed by `top` contributes `top`, where cutting first
   * would have left nothing.
   */
  lemma FragmentSanitizedBeforeCut()
    ensures var frag := seq(60, _ => ' ') + "top";
      && Take(Sanitize(frag), FragmentLimit) == "top"
      && Sanitize(Take(frag, FragmentLimit)) == ""
  {
    var spaces := seq(60, _ => ' ');
    LeadingRunDropped(spaces, "top");
    ForeignOnlyVanishes(spaces);
    assert Take(spaces + "top", FragmentLimit) == spaces;
  }

  /** A run of foreign characters in front of a sanitized word disappears altogether. */
  lemma LeadingRunDropped(run: string, word: string)
    requires run != [] && forall i :: 0 <= i < |run| ==> IsForeign(run[i])
    requires word != [] && IsSanitized(word)
    ensures Sanitize(run + word) == word
  {
    CollapseRun("", run, word);
    assert "" + run + word == run + word;
    CollapseIdentity(word);
    var c := "_" + word;
    assert Collapse(run + word) == c;
    assert LeadingCount(c, IsUnderscore) == 1;
    assert TrimStart(c, IsUnderscore) == word;
    TrimIdentity(word, IsUnderscore);
  }

  /** A string made only of foreign characters sanitizes to nothing. */
  lemma ForeignOnlyVanishes(run: string)
    requires run != [] && forall i :: 0 <= i < |run| ==> IsForeign(run[i])
    ensures Sanitize(run) == ""
  {
    CollapseRun("", run, "");
    assert "" + run + "" == run;
    assert Collapse(run) == "_";
  }

  lemma {:induction false} NothingKept(keep: char -> bool, s: string)
    requires Filter(keep, s) == []
    ensures forall i :: 0 <= i < |s| ==> !keep(s[i])
  {
    if s != [] {
      var init := s[..|s| - 1];
      NothingKept(keep, init);
      assert forall i :: 0 <= i < |init| ==> s[i] == init[i];
    }
  }

  /** Without a fragment, a host and path with no letter, digit, `.` or `-` give the name `page`. */
  lemma FallbackToPage(p: UrlParts)
    requires p.fragment == ""
    requires forall i :: 0 <= i < |p.netloc| ==> !IsSignificant(p.netloc[i])
    requires forall i :: 0 <= i < |p.path| ==> !IsSignificant(p.path[i])
    ensures FileStem(p) == FallbackStem
  {
    var base := BaseName(p);
    var joined := p.netloc + "_" + p.path;
    assert forall i :: 0 <= i < |joined| ==> !IsSignificant(joined[i]);
    assert forall i :: 0 <= i < |base| ==> !IsSignificant(base[i]);
    DroppedVanish(IsSignificant, c => !IsSignificant(c), base);
    SanitizeKeepsSignificant(base);
    var r := Sanitize(base);
    NothingKept(IsSignificant, r);
    if r != [] {
      assert IsSignificant(r[0]);
    }
  }

  lemma ExampleFragment(frag: string)
    requires frag == "Section One"
    ensures Sanitize(frag) == "Section" + "_" + "One" && IsSanitized(Sanitize(frag))
  {
    SanitizeGap("Section", " ", "One");
    assert "Section" + " " + "One" == frag;
    var r := Sanitize(frag);
    assert r[|r| - 1] == 'e';
  }

  lemma ExampleHost(p: UrlParts)
    requires p.netloc == "example.com" && p.path == "/a/b"
    ensures var host := ReplaceChar(p.netloc + "_" + p.path, '/', '_');
      host == "example.com__a_b" && IsSanitized(host)
  {
    assert p.netloc + "_" + p.path == "example.com_/a/b";
  }

  /**
   * The worked example `https://example.com/a/b#Section%20One`: the path
   * keeps its leading `/`, which becomes a second `_` after the host.
   */
  lemma ExampleName(p: UrlParts)
    requires p == UrlParts("example.com", "/a/b", "Section One")
    ensures FileStem(p) == "example.com__a_b" + "_" + ("Section" + "_" + "One")
  {
    var host := ReplaceChar(p.netloc + "_" + p.path, '/', '_');
    ExampleHost(p);
    ExampleFragment(p.fragment);
    var piece := Take(Sanitize(p.fragment), FragmentLimit);
    var name := host + "_" + piece;
    assert BaseName(p) == name;
    SanitizedJoin(host, piece);
    SanitizeFixedPoint(name);
  }

  /** Two different URLs can share a name: the later capture overwrites the earlier one. */
  lemma DistinctPathsCollide(p: UrlParts, q: UrlParts)
    requires p == UrlParts("a.com", "/x y", "") && q == UrlParts("a.com", "/x+y", "")
    ensures p != q
    ensures FileStem(p) == FileStem(q) == "a.com__x" + "_" + "y"
  {
    assert p.path[2] != q.path[2];
    assert BaseName(p) == "a.com__x" + " " + "y" by {
      assert p.netloc + "_" + p.path == "a.com_/x y";
    }
    assert BaseName(q) == "a.com__x" + "+" + "y" by {
      assert q.netloc + "_" + q.path == "a.com_/x+y";
    }
    SanitizeGap("a.com__x", " ", "y");
    SanitizeGap("a.com__x", "+", "y");
  }

  /**
   * How the capture of one URL ended: a screenshot; an exception whose text
   * went into an error report; or an exception whose error report could not
   * be opened or written, so that the second exception left the loop.
   */
  datatype Outcome = Captured | Failed(message: string) | ReportFailed(message: string)

  /** One URL of the list with its parsed parts and the outcome the browser gave it. */
  datatype Job = Job(url: string, parts: UrlParts, outcome: Outcome)

  /** The one file a job leaves in the output directory: a screenshot of the page, or the exception's text. */
  datatype Artifact = Screenshot(parts: UrlParts) | ErrorReport(url: string, text: string)

  /** The name under which an artifact is written. */
  function FileName(a: Artifact): (name: string)
    ensures |name| >= 5
    ensures a.Screenshot? ==> name[|name| - 4..] == ".png"
    ensures a.ErrorReport? ==> |name| >= 10
    ensures a.ErrorReport? ==> name[..6] == "ERROR_" && name[|name| - 4..] == ".txt"
  {
    match a
    case Screenshot(p) => ScreenshotName(p)
    case ErrorReport(url, _) => ErrorName(url)
  }

  /** A name whose middle is made of `[\w.-]` characters and whose ends hold no `/` holds no `/`. */
  lemma SlashFree(name: string, lo: nat, hi: nat)
    requires lo <= hi <= |name|
    requires forall i :: lo <= i < hi ==> IsNameChar(name[i])
    requires '/' !in name[..lo] && '/' !in name[hi..]
    ensures '/' !in name
  {
    assert name == name[..lo] + name[lo..hi] + name[hi..];
    assert forall i :: 0 <= i < hi - lo ==> name[lo..hi][i] != '/';
  }

  lemma ScreenshotNameSlashFree(p: UrlParts)
    ensures '/' !in ScreenshotName(p)
  {
    var name := ScreenshotName(p);
    assert '/' !in ".png";
    SlashFree(name, 0, |name| - 4);
  }

  lemma ErrorNameSlashFree(url: string)
    ensures '/' !in ErrorName(url)
  {
    var name := ErrorName(url);
    assert '/' !in "ERROR_" && '/' !in ".txt";
    SlashFree(name, 6, |name| - 4);
  }

  /** Every file name is a plain name, so every artifact is written inside the output directory. */
  lemma StaysInOutputDirectory(a: Artifact)
    ensures '/' !in FileName(a)
  {
    match a
    case Screenshot(p) => ScreenshotNameSlashFree(p);
    case ErrorReport(url, _) => ErrorNameSlashFree(url);
  }

  /** The try/except of webshot.py:30-54, for a job the run gets past: a screenshot when the capture succeeded, an error report otherwise. */
  function ArtifactOf(job: Job): (a: Artifact)
    requires !job.outcome.ReportFailed?
    ensures a.Screenshot? <==> job.outcome.Captured?
    ensures a.ErrorReport? ==> a.url == job.url && a.text == job.outcome.message
  {
    match job.outcome
    case Captured => Screenshot(job.parts)
    case Failed(message) => ErrorReport(job.url, message)
  }

  /** How many jobs the run gets through: all of them, or those before the first whose error report fails. */
  function Completed(jobs: seq<Job>): (n: nat)
    ensures n <= |jobs|
    ensures forall k :: 0 <= k < n ==> !jobs[k].outcome.ReportFailed?
    ensures n == |jobs| || jobs[n].outcome.ReportFailed?
  {
    if jobs == [] || jobs[0].outcome.ReportFailed? then 0 else 1 + Completed(jobs[1..])
  }

  /**
   * The loop of webshot.py:29-54: the jobs, in order, each leave exactly one
   * artifact; a reported failure does not stop the rest, and an error report
   * that cannot be written ends the run.
   */
  method CaptureAll(jobs: seq<Job>) returns (artifacts: seq<Artifact>)
    ensures |artifacts| == Completed(jobs)
    ensures forall i :: 0 <= i < |artifacts| ==> artifacts[i] == ArtifactOf(jobs[i])
    ensures |artifacts| == |jobs| <==> forall k :: 0 <= k < |jobs| ==> !jobs[k].outcome.ReportFailed?
  {
    artifacts := [];
    var i := 0;
    while i < |jobs|
      invariant i <= |jobs| && |artifacts| == i
      invariant forall k :: 0 <= k < i ==> !jobs[k].outcome.ReportFailed?
      invariant forall k :: 0 <= k < i ==> artifacts[k] == ArtifactOf(jobs[k])
    {
      var job := jobs[i];
      var a: Artifact;
      match job.outcome {
        case Captured =>
          a := Screenshot(job.parts);
        case Failed(message) =>
          a := ErrorReport(job.url, message);
        case ReportFailed(_) =>
          break;
      }
      artifacts := artifacts + [a];
      i := i + 1;
    }
  }

  /** No screenshot of a batch ever shares its name with an error report of the same batch. */
  lemma BatchKindsDisjoint(jobs: seq<Job>, i: nat, j: nat)
    requires i < |jobs| && j < |jobs|
    requires jobs[i].outcome.Captured? && jobs[j].outcome.Failed?
    ensures FileName(ArtifactOf(jobs[i])) != FileName(ArtifactOf(jobs[j]))
  {
    ScreenshotIsNotErrorReport(jobs[i].parts, jobs[j].url);
  }
}
