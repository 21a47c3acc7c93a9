/** The stages of `main` in rebase-list.py from the branch and upstream
    patch-id maps to the printed summary and report, with the `git`
    queries and the printing left to the caller. */
module RebaseList {
  import opened Common
  import opened Header
  import opened Correlation
  import opened Report

  /** What `main` prints: the four counters and the report lines. */
  datatype Summary = Summary(total: nat, emptyCommits: nat, foundInUpstream: nat, effective: int,
                             lines: seq<string>)

  /** `main` after both patch-id maps are built. `revs` is the `git
      rev-list` output for the branch, newest first; `order` and
      `upstreamOrder` are the iteration orders of the two maps. */
  method Run(revs: seq<Commit>, order: seq<Commit>, infos: map<Commit, CommitInfo>,
             upstreamOrder: seq<Commit>, upstreamInfos: map<Commit, CommitInfo>)
      returns (s: Summary)
    requires forall c :: c in revs <==> c in infos
    requires IsOrderOf(order, infos) && IsOrderOf(upstreamOrder, upstreamInfos)
    ensures var found := FoundInUpstream(order, infos, Inverse(upstreamOrder, upstreamInfos));
      && s.total == |revs|
      && s.emptyCommits == |EmptyCommits(order, infos)|
      && s.foundInUpstream == |found|
      && s.effective == s.total - s.foundInUpstream - s.emptyCommits
      && (Distinct(revs) ==>
            0 <= s.effective && s.effective == |NovelCommits(order, infos, Inverse(upstreamOrder, upstreamInfos))|)
      && |s.lines| == |revs|
      && forall k :: 0 <= k < |revs| ==>
           s.lines[k] == ReportLine(revs[|revs| - 1 - k], infos[revs[|revs| - 1 - k]],
                                    Annotations(revs[|revs| - 1 - k], found, DuplicateMap(order, infos)))
  {
    var inv, hashes := InverseMap(order, infos);
    var dup := Duplicates(inv, hashes, order, infos);
    var upstreamInv, _ := InverseMap(upstreamOrder, upstreamInfos);
    var emptyCommits, found := Classify(order, infos, upstreamInv);
    var effective := |revs| - |found| - emptyCommits;
    if Distinct(revs) {
      EffectiveCountsNovelCommits(revs, order, infos, upstreamInv);
    }
    var lines := ReportLines(revs, infos, found, dup);
    s := Summary(|revs|, emptyCommits, |found|, effective, lines);
  }

  /** A commit without a patch id is neither found in upstream nor a
      duplicate, so its report line carries no annotation. */
  lemma {:induction false} EmptyPatchIdLineIsBare(order: seq<Commit>, infos: map<Commit, CommitInfo>,
                                                  upstreamOrder: seq<Commit>, upstreamInfos: map<Commit, CommitInfo>,
                                                  c: Commit)
    requires IsOrderOf(order, infos) && IsOrderOf(upstreamOrder, upstreamInfos)
    requires c in infos && infos[c].patchHash == ""
    ensures var found := FoundInUpstream(order, infos, Inverse(upstreamOrder, upstreamInfos));
      ReportLine(c, infos[c], Annotations(c, found, DuplicateMap(order, infos))) == BareLine(c, infos[c])
  {
    InverseIsExactIndex(order, infos);
    var found := FoundInUpstream(order, infos, Inverse(upstreamOrder, upstreamInfos));
    assert c !in DuplicateMap(order, infos);
    TabOnlyWithAnnotations(c, infos[c], found, DuplicateMap(order, infos));
  }

  /** Two distinct commits with the same hash make its group longer than one. */
  lemma {:induction false} GroupHasTwo(order: seq<Commit>, infos: map<Commit, CommitInfo>, h: string,
                                       c: Commit, c2: Commit)
    requires IsOrderOf(order, infos)
    requires c in infos && c2 in infos && c != c2 && infos[c].patchHash == h && infos[c2].patchHash == h
    ensures |Group(order, infos, h)| > 1
  {
    var g := Group(order, infos, h);
    assert c in g && c2 in g;
  }

  /** A branch commit found in upstream, and sharing its patch id with
      another branch commit, gets both annotations, "found in upstream"
      first. */
  lemma {:induction false} FoundDuplicateLine(order: seq<Commit>, infos: map<Commit, CommitInfo>,
                                              upstreamOrder: seq<Commit>, upstreamInfos: map<Commit, CommitInfo>,
                                              c: Commit, c2: Commit, u: Commit)
    requires IsOrderOf(order, infos) && IsOrderOf(upstreamOrder, upstreamInfos)
    requires c in infos && c2 in infos && u in upstreamInfos && c != c2
    requires infos[c].patchHash != ""
    requires infos[c2].patchHash == infos[c].patchHash && upstreamInfos[u].patchHash == infos[c].patchHash
    ensures var upInv := Inverse(upstreamOrder, upstreamInfos);
      var dup := DuplicateMap(order, infos);
      && infos[c].patchHash in upInv && c in dup
      && ReportLine(c, infos[c], Annotations(c, FoundInUpstream(order, infos, upInv), dup))
         == BareLine(c, infos[c]) + "\t" + FoundAnnotation(upInv[infos[c].patchHash]) + "; "
            + DuplicateAnnotation(dup[c])
  {
    var h := infos[c].patchHash;
    var upInv := Inverse(upstreamOrder, upstreamInfos);
    var found := FoundInUpstream(order, infos, upInv);
    var dup := DuplicateMap(order, infos);
    assert h in upInv by {
      InverseIsGroups(upstreamOrder, upstreamInfos);
      assert u in upstreamOrder;
    }
    assert c in found;
    assert c in dup by {
      DuplicatesAreGroupRemainders(order, infos);
      GroupHasTwo(order, infos, h, c, c2);
    }
    BothAnnotationsLine(c, infos[c], found, dup);
  }

  lemma {:induction false} WithoutPair(a: Commit, b: Commit)
    requires a != b
    ensures Without([a, b], a) == [b] && Without([a, b], b) == [a]
  {
    assert [a, b][1..] == [b] && [b][1..] == [];
    assert Without([b], a) == [b] + Without([], a) == [b];
    assert Without([a, b], a) == [] + Without([b], a);
    assert Without([b], b) == [] + Without([], b) == [];
    assert Without([a, b], b) == [a] + Without([b], b);
  }

  /** The index of two commits iterated as `[a, b]` that share a patch id. */
  lemma {:induction false} InversePair(a: Commit, b: Commit, infos: map<Commit, CommitInfo>)
    requires a in infos && b in infos
    requires infos[a].patchHash != "" && infos[b].patchHash == infos[a].patchHash
    ensures Inverse([a, b], infos) == map[infos[a].patchHash := [a, b]]
  {
    InverseSingle(a, infos);
    assert [a, b][..1] == [a] && [a] + [b] == [a, b];
  }

  /** Two commits iterated as `[a, b]` that share a non-empty patch id
      are each other's only duplicate. */
  lemma {:induction false} PairDuplicates(a: Commit, b: Commit, infos: map<Commit, CommitInfo>)
    requires a != b && a in infos && b in infos && infos.Keys == {a, b}
    requires infos[a].patchHash != "" && infos[b].patchHash == infos[a].patchHash
    ensures DuplicateMap([a, b], infos) == map[a := [b], b := [a]]
  {
    InversePair(a, b, infos);
    WithoutPair(a, b);
    assert DuplicateMap([a, b], infos).Keys == {a, b};
  }

  /** A dictionary with two keys is iterated in one of two orders. */
  lemma {:induction false} TwoKeyOrder(order: seq<Commit>, infos: map<Commit, CommitInfo>, a: Commit, b: Commit)
    requires a != b && infos.Keys == {a, b} && IsOrderOf(order, infos)
    ensures order == [a, b] || order == [b, a]
  {
    DistinctCardinality(order);
    assert (set x | x in order) == {a, b};
    assert |order| == 2 && order[0] != order[1];
    assert order[0] in infos && order[1] in infos;
  }

  /** Two branch commits with the same patch id and no upstream
      counterpart list each other as duplicates, and both still count as
      commits to apply. */
  lemma {:induction false} TwinCommitsScenario(order: seq<Commit>, infos: map<Commit, CommitInfo>,
                                               a: Commit, b: Commit)
    requires a != b && infos.Keys == {a, b} && IsOrderOf(order, infos)
    requires infos[a].patchHash != "" && infos[b].patchHash == infos[a].patchHash
    ensures DuplicateMap(order, infos) == map[a := [b], b := [a]]
    ensures EmptyCommits(order, infos) == {}
    ensures FoundInUpstream(order, infos, Inverse([], map[])) == map[]
    ensures |order| - |FoundInUpstream(order, infos, Inverse([], map[]))| - |EmptyCommits(order, infos)| == 2
  {
    TwoKeyOrder(order, infos, a, b);
    if order == [a, b] {
      PairDuplicates(a, b, infos);
    } else {
      PairDuplicates(b, a, infos);
    }
    assert EmptyCommits(order, infos) == {};
  }

  lemma {:induction false} InverseSingle(c: Commit, infos: map<Commit, CommitInfo>)
    requires c in infos && infos[c].patchHash != ""
    ensures Inverse([c], infos) == map[infos[c].patchHash := [c]]
  {
    var inv0 := Inverse([c][..0], infos);
    assert [c][..0] == [] && inv0 == map[];
    var s: seq<Commit> := [];
    assert s + [c] == [c];
  }

  lemma {:induction false} SingleFoundText(x: Commit, ix: CommitInfo, y: Commit)
    ensures BareLine(x, ix) + "\t" + Join("; ", [FoundAnnotation([y])])
      == BareLine(x, ix) + "\tfound in upstream [" + y + "]"
  {
    assert Join(", ", [y]) == y;
    assert Join("; ", [FoundAnnotation([y])]) == "found in upstream [" + y + "]";
    var b := BareLine(x, ix);
    assert b + "\t" + ("found in upstream [" + y + "]") == b + "\tfound in upstream [" + y + "]";
  }

  /** One branch commit whose patch id one upstream commit shares is
      counted as found in upstream, and its line names that commit. */
  lemma {:induction false} FoundUpstreamScenario(x: Commit, ix: CommitInfo, y: Commit, iy: CommitInfo)
    requires ix.patchHash != "" && iy.patchHash == ix.patchHash
    ensures var found := FoundInUpstream([x], map[x := ix], Inverse([y], map[y := iy]));
      && found == map[x := [y]]
      && |found| == 1
      && ReportLine(x, ix, Annotations(x, found, DuplicateMap([x], map[x := ix])))
         == BareLine(x, ix) + "\tfound in upstream [" + y + "]"
  {
    var infos, upInfos := map[x := ix], map[y := iy];
    var h := ix.patchHash;
    var upInv := Inverse([y], upInfos);
    var found := FoundInUpstream([x], infos, upInv);
    var dup := DuplicateMap([x], infos);
    assert found == map[x := [y]] by {
      InverseSingle(y, upInfos);
      assert found.Keys == {x};
    }
    assert dup == map[] by {
      InverseSingle(x, infos);
    }
    assert Annotations(x, found, dup) == [FoundAnnotation([y])];
    TabOnlyWithAnnotations(x, ix, found, dup);
    SingleFoundText(x, ix, y);
  }
}
