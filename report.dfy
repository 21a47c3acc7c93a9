/** The report loop at the end of `main` in rebase-list.py: one line per
    branch commit, oldest first, with the commit's date, author and subject
    and an optional block of annotations. */
module Report {
  import opened Common
  import opened Header

  /** The annotation of a commit whose patch id is also in upstream: the
      upstream commits, comma-separated, inside "found in upstream [...]". */
  function FoundAnnotation(upstream: seq<Commit>): (s: string)
    ensures |s| > 0 && s[0] == 'f'
    ensures |s| == 20 + |Join(", ", upstream)| && s[|s| - 1] == ']'
    ensures s[..19] == "found in upstream [" && s[19..|s| - 1] == Join(", ", upstream)
  {
    "found in upstream [" + Join(", ", upstream) + "]"
  }

  /** The annotation of a commit whose patch id another branch commit
      shares: those commits, comma-separated, inside "duplicate of [...]". */
  function DuplicateAnnotation(others: seq<Commit>): (s: string)
    ensures |s| > 0 && s[0] == 'd'
    ensures |s| == 15 + |Join(", ", others)| && s[|s| - 1] == ']'
    ensures s[..14] == "duplicate of [" && s[14..|s| - 1] == Join(", ", others)
  {
    "duplicate of [" + Join(", ", others) + "]"
  }

  /** The text of the annotation guarded by the `is None` test. */
  const EMPTY_COMMIT: string := "empty commit"

  /** The annotations of `c`, in the order the source appends them: at
      most one "found in upstream", then at most one "duplicate of". The
      `is None` test on the commit's record is never true, because the
      record is always present, so no "empty commit" annotation appears. */
  function Annotations(c: Commit, found: map<Commit, seq<Commit>>, dup: map<Commit, seq<Commit>>): (ann: seq<string>)
    ensures |ann| == (if c in found then 1 else 0) + (if c in dup then 1 else 0)
    ensures c in found ==> ann[0] == FoundAnnotation(found[c])
    ensures c in dup ==> ann[|ann| - 1] == DuplicateAnnotation(dup[c])
    ensures EMPTY_COMMIT !in ann
    ensures c in found && c in dup ==>
      Join("; ", ann) == FoundAnnotation(found[c]) + "; " + DuplicateAnnotation(dup[c])
  {
    (if c in found then [FoundAnnotation(found[c])] else [])
      + (if c in dup then [DuplicateAnnotation(dup[c])] else [])
  }

  /** The line printed for `c`: tab-separated commit, date, author and
      subject, then the annotations joined by "; " behind one more tab
      when there are any. It always starts with the commit and a tab. */
  function ReportLine(c: Commit, info: CommitInfo, ann: seq<string>): (line: string)
    ensures |c| < |line| && line[..|c|] == c && line[|c|] == '\t'
  {
    var block := Join("; ", ann);
    BareLine(c, info) + (if block == "" then "" else "\t" + block)
  }

  /** The line without its annotation block. */
  function BareLine(c: Commit, info: CommitInfo): string
  {
    c + "\t" + info.date + "\t" + info.author + "\t" + info.messageFirstLine
  }

  /** The loop over `reversed(has_in_branch_not_in_upstream)`. */
  method ReportLines(revs: seq<Commit>, infos: map<Commit, CommitInfo>,
                     found: map<Commit, seq<Commit>>, dup: map<Commit, seq<Commit>>)
      returns (lines: seq<string>)
    requires forall c :: c in revs ==> c in infos
    ensures |lines| == |revs|
    ensures forall k :: 0 <= k < |revs| ==>
      lines[k] == ReportLine(revs[|revs| - 1 - k], infos[revs[|revs| - 1 - k]],
                             Annotations(revs[|revs| - 1 - k], found, dup))
  {
    lines := [];
    var i := 0;
    while i < |revs|
      invariant 0 <= i <= |revs|
      invariant |lines| == i
      invariant forall k :: 0 <= k < i ==>
        lines[k] == ReportLine(revs[|revs| - 1 - k], infos[revs[|revs| - 1 - k]],
                               Annotations(revs[|revs| - 1 - k], found, dup))
    {
      var commit := revs[|revs| - 1 - i];
      var extra: seq<string> := [];
      var info := infos[commit];
      if commit in found {
        extra := extra + [FoundAnnotation(found[commit])];
      }
      var entry: Option<CommitInfo> := Some(info);
      if entry == None {
        extra := extra + [EMPTY_COMMIT];
      }
      if commit in dup {
        extra := extra + [DuplicateAnnotation(dup[commit])];
      }
      var block := Join("; ", extra);
      if block != "" {
        block := "\t" + block;
      }
      lines := lines + [commit + "\t" + info.date + "\t" + info.author + "\t" + info.messageFirstLine + block];
      i := i + 1;
    }
  }

  /** The annotation block, with its tab, is there exactly when the commit
      is found in upstream or has duplicates; otherwise the line is the
      four plain fields. */
  lemma {:induction false} TabOnlyWithAnnotations(c: Commit, info: CommitInfo,
                                                  found: map<Commit, seq<Commit>>, dup: map<Commit, seq<Commit>>)
    ensures var line := ReportLine(c, info, Annotations(c, found, dup));
      (c !in found && c !in dup <==> line == BareLine(c, info))
    ensures var line := ReportLine(c, info, Annotations(c, found, dup));
      (c in found || c in dup ==>
        line == BareLine(c, info) + "\t" + Join("; ", Annotations(c, found, dup)))
  {
    var ann := Annotations(c, found, dup);
    assert forall k :: 0 <= k < |ann| ==> ann[k] != "" by {
      forall k | 0 <= k < |ann| ensures ann[k] != "" {
        assert |ann[k]| > 0;
      }
    }
    JoinEmpty("; ", ann);
    var line := ReportLine(c, info, ann);
    if c in found || c in dup {
      assert |line| > |BareLine(c, info)|;
    }
  }

  /** A commit both found in upstream and duplicated gets one tab, the
      found annotation, "; " and the duplicate annotation. */
  lemma {:induction false} BothAnnotationsLine(c: Commit, info: CommitInfo,
                                               found: map<Commit, seq<Commit>>, dup: map<Commit, seq<Commit>>)
    requires c in found && c in dup
    ensures ReportLine(c, info, Annotations(c, found, dup))
      == BareLine(c, info) + "\t" + FoundAnnotation(found[c]) + "; " + DuplicateAnnotation(dup[c])
  {
    TabOnlyWithAnnotations(c, info, found, dup);
    var b, f, d := BareLine(c, info), FoundAnnotation(found[c]), DuplicateAnnotation(dup[c]);
    assert b + "\t" + (f + "; " + d) == b + "\t" + f + "; " + d;
  }
}
