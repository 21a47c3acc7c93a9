/** The correlation stages of `main` in rebase-list.py: the patch-id ->
    commits index, the duplicate map of the branch, and the classification
    of branch commits as empty or found in upstream.

    A dictionary is modelled by its entries `infos` together with `order`,
    its iteration order. The branch and upstream maps are filled in the
    order the thread pool completes, so `order` is any permutation of the
    keys (IsOrderOf), never assumed to be the `git rev-list` order. */
module Correlation {
  import opened Common
  import opened Header

  // ---------------------------------------------------------------------
  // inverse_map
  // ---------------------------------------------------------------------

  /** The commits of `order` whose patch hash is `h`, in the order of `order`. */
  function Group(order: seq<Commit>, infos: map<Commit, CommitInfo>, h: string): (g: seq<Commit>)
    requires forall c :: c in order ==> c in infos
    ensures forall c :: c in g <==> c in order && infos[c].patchHash == h
  {
    if order == [] then []
    else
      var last := order[|order| - 1];
      Group(order[..|order| - 1], infos, h) + (if infos[last].patchHash == h then [last] else [])
  }

  /** What `inverse_map` returns for a dictionary with entries `infos`
      iterated in `order`: each commit, in turn, is appended to the list of
      its patch hash, unless that hash is empty. */
  function Inverse(order: seq<Commit>, infos: map<Commit, CommitInfo>): map<string, seq<Commit>>
    requires forall c :: c in order ==> c in infos
  {
    if order == [] then map[]
    else
      var inv := Inverse(order[..|order| - 1], infos);
      var c := order[|order| - 1];
      var h := infos[c].patchHash;
      if h == "" then inv else inv[h := (if h in inv then inv[h] else []) + [c]]
  }

  /** `a` comes before `b` in `order`. */
  ghost predicate Before(order: seq<Commit>, a: Commit, b: Commit)
  {
    exists p, q :: 0 <= p < q < |order| && order[p] == a && order[q] == b
  }

  lemma {:induction false} GroupDistinct(order: seq<Commit>, infos: map<Commit, CommitInfo>, h: string)
    requires forall c :: c in order ==> c in infos
    requires Distinct(order)
    ensures Distinct(Group(order, infos, h))
  {
    if order != [] {
      var init := order[..|order| - 1];
      var last := order[|order| - 1];
      assert Distinct(init);
      GroupDistinct(init, infos, h);
      assert last !in init by {
        assert forall i :: 0 <= i < |init| ==> init[i] == order[i] && order[i] != order[|order| - 1];
      }
    }
  }

  lemma {:induction false} GroupKeepsOrder(order: seq<Commit>, infos: map<Commit, CommitInfo>, h: string)
    requires forall c :: c in order ==> c in infos
    ensures forall i, j :: 0 <= i < j < |Group(order, infos, h)| ==>
      Before(order, Group(order, infos, h)[i], Group(order, infos, h)[j])
  {
    if order != [] {
      var n := |order| - 1;
      var init := order[..n];
      GroupKeepsOrder(init, infos, h);
      var g0 := Group(init, infos, h);
      var g := Group(order, infos, h);
      assert g[..|g0|] == g0;
      forall i, j | 0 <= i < j < |g|
        ensures Before(order, g[i], g[j])
      {
        if j < |g0| {
          assert g0[i] == g[i] && g0[j] == g[j];
          assert Before(init, g0[i], g0[j]);
          var p, q :| 0 <= p < q < |init| && init[p] == g0[i] && init[q] == g0[j];
          assert order[p] == g[i] && order[q] == g[j];
        } else {
          assert g[j] == order[n];
          assert g[i] == g0[i] && g0[i] in init;
          var p :| 0 <= p < |init| && init[p] == g[i];
          assert order[p] == g[i];
        }
      }
    }
  }

  /** No commit has hash `h`, so its group is empty. */
  lemma {:induction false} GroupEmpty(order: seq<Commit>, infos: map<Commit, CommitInfo>, h: string)
    requires forall c :: c in order ==> c in infos && infos[c].patchHash != h
    ensures Group(order, infos, h) == []
  {
    if order != [] {
      GroupEmpty(order[..|order| - 1], infos, h);
    }
  }

  /** The keys of the index are exactly the non-empty hashes of the
      commits. */
  lemma {:induction false} InverseKeys(order: seq<Commit>, infos: map<Commit, CommitInfo>)
    requires forall c :: c in order ==> c in infos
    ensures forall h :: h in Inverse(order, infos) <==>
      h != "" && exists c :: c in order && infos[c].patchHash == h
  {
    if order != [] {
      var init := order[..|order| - 1];
      var last := order[|order| - 1];
      InverseKeys(init, infos);
      var inv0, inv := Inverse(init, infos), Inverse(order, infos);
      assert order == init + [last];
      forall h
        ensures h in inv <==> h != "" && exists c :: c in order && infos[c].patchHash == h
      {
        if h in inv && h != infos[last].patchHash {
          assert h in inv0;
          var c :| c in init && infos[c].patchHash == h;
          assert c in order;
        }
        if h != "" && h != infos[last].patchHash && exists c :: c in order && infos[c].patchHash == h {
          var c :| c in order && infos[c].patchHash == h;
          assert c in init;
        }
      }
    }
  }

  /** Each list of the index is the group of its hash. */
  lemma {:induction false} InverseLists(order: seq<Commit>, infos: map<Commit, CommitInfo>)
    requires forall c :: c in order ==> c in infos
    ensures forall h :: h in Inverse(order, infos) ==> Inverse(order, infos)[h] == Group(order, infos, h)
  {
    if order != [] {
      var init := order[..|order| - 1];
      var last := order[|order| - 1];
      InverseLists(init, infos);
      InverseKeys(order, infos);
      var inv0, inv := Inverse(init, infos), Inverse(order, infos);
      forall h | h in inv
        ensures inv[h] == Group(order, infos, h)
      {
        var g0 := Group(init, infos, h);
        if h != infos[last].patchHash {
          assert h in inv0 && inv[h] == inv0[h];
          assert Group(order, infos, h) == g0 + [] == g0;
        } else {
          assert Group(order, infos, h) == g0 + [last];
          assert h != "";
          if h !in inv0 {
            InverseKeys(init, infos);
            GroupEmpty(init, infos, h);
            assert inv[h] == [] + [last];
          }
        }
      }
    }
  }

  /** The index, compared with the groups: its keys are exactly the
      non-empty hashes of the commits, and each list is the group of its
      hash. */
  lemma {:induction false} InverseIsGroups(order: seq<Commit>, infos: map<Commit, CommitInfo>)
    requires forall c :: c in order ==> c in infos
    ensures forall h :: h in Inverse(order, infos) <==>
      h != "" && exists c :: c in order && infos[c].patchHash == h
    ensures forall h :: h in Inverse(order, infos) ==> Inverse(order, infos)[h] == Group(order, infos, h)
  {
    InverseKeys(order, infos);
    InverseLists(order, infos);
  }

  /** The list of one key of the index holds exactly the commits with
      that hash. */
  lemma {:induction false} InverseList(order: seq<Commit>, infos: map<Commit, CommitInfo>, h: string)
    requires forall c :: c in order ==> c in infos
    requires h in Inverse(order, infos)
    ensures forall c :: c in Inverse(order, infos)[h] <==> c in order && infos[c].patchHash == h
  {
    InverseIsGroups(order, infos);
  }

  /** `inverse_map(m)`, with `order` the iteration order of `m`. Also
      returns the iteration order of the dictionary it builds. */
  method InverseMap(order: seq<Commit>, infos: map<Commit, CommitInfo>)
      returns (inv: map<string, seq<Commit>>, hashes: seq<string>)
    requires IsOrderOf(order, infos)
    ensures inv == Inverse(order, infos)
    ensures IsOrderOf(hashes, inv)
  {
    inv, hashes := map[], [];
    var i := 0;
    while i < |order|
      invariant 0 <= i <= |order|
      invariant inv == Inverse(order[..i], infos)
      invariant IsOrderOf(hashes, inv)
    {
      var commit := order[i];
      assert order[..i + 1][..i] == order[..i];
      var h := infos[commit].patchHash;
      if h != "" {
        if h !in inv {
          inv, hashes := inv[h := []], hashes + [h];
        }
        inv := inv[h := inv[h] + [commit]];
      }
      i := i + 1;
    }
    assert order[..i] == order;
  }

  /** The index is complete and exact: no key is the empty hash, every
      commit with a non-empty hash is listed exactly once, under its own
      hash, every listed commit is a key of the input with that hash, and
      no list is empty. */
  lemma {:induction false} InverseIsExactIndex(order: seq<Commit>, infos: map<Commit, CommitInfo>)
    requires IsOrderOf(order, infos)
    ensures var inv := Inverse(order, infos);
      && "" !in inv
      && (forall c :: c in infos && infos[c].patchHash != "" ==>
            infos[c].patchHash in inv && multiset(inv[infos[c].patchHash])[c] == 1)
      && (forall h, c :: h in inv && c in inv[h] ==> c in infos && infos[c].patchHash == h)
      && (forall h :: h in inv ==> inv[h] != [])
  {
    var inv := Inverse(order, infos);
    InverseIsGroups(order, infos);
    forall c | c in infos && infos[c].patchHash != ""
      ensures infos[c].patchHash in inv && multiset(inv[infos[c].patchHash])[c] == 1
    {
      var h := infos[c].patchHash;
      GroupDistinct(order, infos, h);
      DistinctOccursOnce(Group(order, infos, h), c);
    }
    forall h | h in inv ensures inv[h] != [] {
      var c :| c in order && infos[c].patchHash == h;
      assert c in Group(order, infos, h);
    }
  }

  /** Within each list of the index, commits keep the dictionary's
      iteration order. */
  lemma {:induction false} InverseKeepsIterationOrder(order: seq<Commit>, infos: map<Commit, CommitInfo>)
    requires IsOrderOf(order, infos)
    ensures var inv := Inverse(order, infos);
      forall h, i, j :: h in inv && 0 <= i < j < |inv[h]| ==> Before(order, inv[h][i], inv[h][j])
  {
    InverseIsGroups(order, infos);
    forall h | h in Inverse(order, infos)
      ensures var g := Inverse(order, infos)[h]; forall i, j :: 0 <= i < j < |g| ==> Before(order, g[i], g[j])
    {
      GroupKeepsOrder(order, infos, h);
    }
  }

  // ---------------------------------------------------------------------
  // duplicates
  // ---------------------------------------------------------------------

  /** `[x for x in g if x != c]`. */
  function Without(g: seq<Commit>, c: Commit): (r: seq<Commit>)
    ensures forall x :: x in r <==> x in g && x != c
  {
    if g == [] then [] else (if g[0] == c then [] else [g[0]]) + Without(g[1..], c)
  }

  /** The filter keeps the order of `g`: the remaining commits appear in
      `g` in the same order as in the result. */
  lemma {:induction false} WithoutKeepsOrder(g: seq<Commit>, c: Commit)
    ensures forall i, j :: 0 <= i < j < |Without(g, c)| ==> Before(g, Without(g, c)[i], Without(g, c)[j])
  {
    if g != [] {
      var r := Without(g, c);
      var t := Without(g[1..], c);
      WithoutKeepsOrder(g[1..], c);
      var h: seq<Commit> := if g[0] == c then [] else [g[0]];
      assert r == h + t;
      forall i, j | 0 <= i < j < |r|
        ensures Before(g, r[i], r[j])
      {
        if i < |h| {
          assert r[i] == g[0] && r[j] == t[j - 1];
          assert t[j - 1] in g[1..];
          var q :| 0 <= q < |g[1..]| && g[1..][q] == t[j - 1];
          assert g[q + 1] == r[j];
        } else {
          assert r[i] == t[i - |h|] && r[j] == t[j - |h|];
          var p, q :| 0 <= p < q < |g[1..]| && g[1..][p] == r[i] && g[1..][q] == r[j];
          assert g[p + 1] == r[i] && g[q + 1] == r[j];
        }
      }
    }
  }

  lemma {:induction false} WithoutOccurrence(g: seq<Commit>, c: Commit)
    requires Distinct(g) && c in g
    ensures |Without(g, c)| == |g| - 1
  {
    if g[0] == c {
      assert c !in g[1..] by {
        assert forall i :: 0 <= i < |g[1..]| ==> g[1..][i] == g[i + 1] && g[i + 1] != g[0];
      }
      WithoutAbsent(g[1..], c);
    } else {
      assert Distinct(g[1..]);
      WithoutOccurrence(g[1..], c);
    }
  }

  lemma {:induction false} WithoutAbsent(g: seq<Commit>, c: Commit)
    requires c !in g
    ensures Without(g, c) == g
  {
    if g != [] {
      WithoutAbsent(g[1..], c);
      assert g == [g[0]] + g[1..];
    }
  }

  /** `c` is entered in the duplicate map once the lists of the hashes
      `hs` have been visited. */
  ghost predicate Marked(inv: map<string, seq<Commit>>, infos: map<Commit, CommitInfo>, hs: seq<string>, c: Commit)
  {
    c in infos && infos[c].patchHash in hs && infos[c].patchHash in inv && |inv[infos[c].patchHash]| > 1
  }

  /** `dup` holds the entries for the lists of the hashes `hs` and for the
      commits `extra` of the list being visited, each mapped to its list
      without it. */
  ghost predicate Filled(inv: map<string, seq<Commit>>, infos: map<Commit, CommitInfo>, hs: seq<string>,
                         extra: seq<Commit>, dup: map<Commit, seq<Commit>>)
  {
    && (forall c :: c in dup <==> Marked(inv, infos, hs, c) || c in extra)
    && (forall c :: c in dup ==>
          c in infos && infos[c].patchHash in inv && dup[c] == Without(inv[infos[c].patchHash], c))
  }

  /** The duplicate map the source builds from the branch index: every
      commit whose list in the index has more than one member, mapped to
      that list without it. */
  function DuplicateMap(order: seq<Commit>, infos: map<Commit, CommitInfo>): map<Commit, seq<Commit>>
    requires forall c :: c in order ==> c in infos
  {
    var inv := Inverse(order, infos);
    map c | c in order && infos[c].patchHash in inv && |inv[infos[c].patchHash]| > 1
      :: Without(inv[infos[c].patchHash], c)
  }

  /** The nested loop over `inv.values()` that fills `duplicates`. */
  method Duplicates(inv: map<string, seq<Commit>>, hashes: seq<string>,
                    ghost order: seq<Commit>, ghost infos: map<Commit, CommitInfo>)
      returns (dup: map<Commit, seq<Commit>>)
    requires IsOrderOf(order, infos)
    requires inv == Inverse(order, infos) && IsOrderOf(hashes, inv)
    ensures dup == DuplicateMap(order, infos)
  {
    dup := map[];
    var k := 0;
    while k < |hashes|
      invariant 0 <= k <= |hashes|
      invariant Filled(inv, infos, hashes[..k], [], dup)
    {
      var group := inv[hashes[k]];
      InverseList(order, infos, hashes[k]);
      if |group| > 1 {
        var j := 0;
        while j < |group|
          invariant 0 <= j <= |group|
          invariant Filled(inv, infos, hashes[..k], group[..j], dup)
        {
          var commit := group[j];
          FilledStep(inv, infos, hashes[..k], group, j, dup);
          dup := dup[commit := Without(group, commit)];
          j := j + 1;
        }
        assert group[..j] == group;
      }
      FilledNext(inv, infos, hashes, k, if |group| > 1 then group else [], dup);
      k := k + 1;
    }
    assert hashes[..k] == hashes;
    MarkedIsDuplicateMap(order, infos, hashes, dup);
  }

  /** Entering one more commit of the list being visited. */
  lemma {:induction false} FilledStep(inv: map<string, seq<Commit>>, infos: map<Commit, CommitInfo>, hs: seq<string>,
                                      group: seq<Commit>, j: nat, dup: map<Commit, seq<Commit>>)
    requires j < |group| && Filled(inv, infos, hs, group[..j], dup)
    requires group[j] in infos && infos[group[j]].patchHash in inv && inv[infos[group[j]].patchHash] == group
    ensures Filled(inv, infos, hs, group[..j + 1], dup[group[j] := Without(group, group[j])])
  {
    assert group[..j + 1] == group[..j] + [group[j]];
  }

  /** Finishing the list of `hashes[k]`: `extra` is that list when it has
      more than one member, and empty otherwise. */
  lemma {:induction false} FilledNext(inv: map<string, seq<Commit>>, infos: map<Commit, CommitInfo>,
                                      hashes: seq<string>, k: nat, extra: seq<Commit>,
                                      dup: map<Commit, seq<Commit>>)
    requires k < |hashes| && hashes[k] in inv
    requires forall c :: c in inv[hashes[k]] <==> c in infos && infos[c].patchHash == hashes[k]
    requires extra == if |inv[hashes[k]]| > 1 then inv[hashes[k]] else []
    requires Filled(inv, infos, hashes[..k], extra, dup)
    ensures Filled(inv, infos, hashes[..k + 1], [], dup)
  {
    assert hashes[..k + 1] == hashes[..k] + [hashes[k]];
  }

  /** Once every list of the index has been visited, the marked commits
      and their values make up the duplicate map. */
  lemma {:induction false} MarkedIsDuplicateMap(order: seq<Commit>, infos: map<Commit, CommitInfo>,
                                                hashes: seq<string>, dup: map<Commit, seq<Commit>>)
    requires IsOrderOf(order, infos) && IsOrderOf(hashes, Inverse(order, infos))
    requires Filled(Inverse(order, infos), infos, hashes, [], dup)
    ensures dup == DuplicateMap(order, infos)
  {
    assert dup.Keys == DuplicateMap(order, infos).Keys;
  }

  /** Compared with the groups: a commit is a key of the duplicate map
      exactly when its patch hash is non-empty and shared by another
      commit; its value is its group without it, one shorter than the
      group, so it lists only commits with the same hash. */
  lemma {:induction false} DuplicatesAreGroupRemainders(order: seq<Commit>, infos: map<Commit, CommitInfo>)
    requires IsOrderOf(order, infos)
    ensures var dup := DuplicateMap(order, infos);
      forall c :: c in dup <==>
        c in infos && infos[c].patchHash != "" && |Group(order, infos, infos[c].patchHash)| > 1
    ensures var dup := DuplicateMap(order, infos);
      forall c :: c in dup ==>
        && dup[c] == Without(Group(order, infos, infos[c].patchHash), c)
        && |dup[c]| == |Group(order, infos, infos[c].patchHash)| - 1
        && forall x :: x in dup[c] ==> x in infos && x != c && infos[x].patchHash == infos[c].patchHash
  {
    var inv := Inverse(order, infos);
    var dup := DuplicateMap(order, infos);
    forall c
      ensures c in dup <==>
        c in infos && infos[c].patchHash != "" && |Group(order, infos, infos[c].patchHash)| > 1
    {
      if c in infos {
        var h := infos[c].patchHash;
        InverseKeys(order, infos);
        if h in inv {
          InverseLists(order, infos);
        }
      }
    }
    forall c | c in dup
      ensures dup[c] == Without(Group(order, infos, infos[c].patchHash), c)
      ensures |dup[c]| == |Group(order, infos, infos[c].patchHash)| - 1
      ensures forall x :: x in dup[c] ==> x in infos && x != c && infos[x].patchHash == infos[c].patchHash
    {
      var h := infos[c].patchHash;
      InverseLists(order, infos);
      GroupDistinct(order, infos, h);
      WithoutOccurrence(Group(order, infos, h), c);
    }
  }

  /** Duplicates are symmetric, and no commit lists itself. */
  lemma {:induction false} DuplicatesSymmetric(order: seq<Commit>, infos: map<Commit, CommitInfo>)
    requires IsOrderOf(order, infos)
    ensures var dup := DuplicateMap(order, infos);
      forall c1, c2 :: c1 in dup && c2 in dup[c1] ==> c2 in dup && c1 in dup[c2]
    ensures var dup := DuplicateMap(order, infos);
      forall c :: c in dup ==> c !in dup[c]
  {
    InverseIsGroups(order, infos);
    var dup := DuplicateMap(order, infos);
    forall c1, c2 | c1 in dup && c2 in dup[c1]
      ensures c2 in dup && c1 in dup[c2]
    {
      var h := infos[c1].patchHash;
      assert c2 in Group(order, infos, h) && c2 != c1;
      assert infos[c2].patchHash == h;
    }
  }

  // ---------------------------------------------------------------------
  // empty_commits and has_in_brunch_but_found_in_upstream
  // ---------------------------------------------------------------------

  /** The branch commits without a patch id. */
  function EmptyCommits(order: seq<Commit>, infos: map<Commit, CommitInfo>): set<Commit>
    requires forall c :: c in order ==> c in infos
  {
    set c | c in order && infos[c].patchHash == ""
  }

  /** The branch commits whose non-empty patch id is a key of the upstream
      index, mapped to the upstream commits listed under it. */
  function FoundInUpstream(order: seq<Commit>, infos: map<Commit, CommitInfo>,
                           upstreamInv: map<string, seq<Commit>>): map<Commit, seq<Commit>>
    requires forall c :: c in order ==> c in infos
  {
    map c | c in order && infos[c].patchHash != "" && infos[c].patchHash in upstreamInv
      :: upstreamInv[infos[c].patchHash]
  }

  /** `empty` and `found` hold the classification of the first `n`
      commits of `order`. */
  ghost predicate ClassifiedUpTo(order: seq<Commit>, infos: map<Commit, CommitInfo>,
                                 upstreamInv: map<string, seq<Commit>>, n: nat,
                                 empty: set<Commit>, found: map<Commit, seq<Commit>>)
    requires n <= |order| && forall c :: c in order ==> c in infos
  {
    && (forall c :: c in empty <==> c in order[..n] && infos[c].patchHash == "")
    && (forall c :: c in found <==>
          c in order[..n] && infos[c].patchHash != "" && infos[c].patchHash in upstreamInv)
    && (forall c :: c in found ==> c in infos && found[c] == upstreamInv[infos[c].patchHash])
  }

  /** The loop over `branch_patch_id_map.items()` that counts empty commits
      and fills the found-in-upstream map. */
  method Classify(order: seq<Commit>, infos: map<Commit, CommitInfo>, upstreamInv: map<string, seq<Commit>>)
      returns (emptyCommits: nat, found: map<Commit, seq<Commit>>)
    requires IsOrderOf(order, infos)
    ensures emptyCommits == |EmptyCommits(order, infos)|
    ensures found == FoundInUpstream(order, infos, upstreamInv)
  {
    emptyCommits, found := 0, map[];
    ghost var empty: set<Commit> := {};
    var i := 0;
    while i < |order|
      invariant 0 <= i <= |order|
      invariant emptyCommits == |empty|
      invariant ClassifiedUpTo(order, infos, upstreamInv, i, empty, found)
    {
      var commit := order[i];
      var info := infos[commit];
      ClassifyStep(order, infos, upstreamInv, i, empty, found);
      if info.patchHash == "" {
        empty := empty + {commit};
        emptyCommits := emptyCommits + 1;
      } else if info.patchHash in upstreamInv {
        found := found[commit := upstreamInv[info.patchHash]];
      }
      i := i + 1;
    }
    ClassifiedAll(order, infos, upstreamInv, empty, found);
  }

  /** One more commit classified, as the loop body does it. */
  lemma {:induction false} ClassifyStep(order: seq<Commit>, infos: map<Commit, CommitInfo>,
                                        upstreamInv: map<string, seq<Commit>>, i: nat,
                                        empty: set<Commit>, found: map<Commit, seq<Commit>>)
    requires IsOrderOf(order, infos) && i < |order|
    requires ClassifiedUpTo(order, infos, upstreamInv, i, empty, found)
    ensures var c, h := order[i], infos[order[i]].patchHash;
      && (h == "" ==> c !in empty && ClassifiedUpTo(order, infos, upstreamInv, i + 1, empty + {c}, found))
      && (h != "" && h in upstreamInv ==>
            ClassifiedUpTo(order, infos, upstreamInv, i + 1, empty, found[c := upstreamInv[h]]))
      && (h != "" && h !in upstreamInv ==> ClassifiedUpTo(order, infos, upstreamInv, i + 1, empty, found))
  {
    assert order[..i + 1] == order[..i] + [order[i]];
    DistinctNotBefore(order, i);
  }

  /** After the last commit the classification is the specified one. */
  lemma {:induction false} ClassifiedAll(order: seq<Commit>, infos: map<Commit, CommitInfo>,
                                         upstreamInv: map<string, seq<Commit>>,
                                         empty: set<Commit>, found: map<Commit, seq<Commit>>)
    requires IsOrderOf(order, infos)
    requires ClassifiedUpTo(order, infos, upstreamInv, |order|, empty, found)
    ensures empty == EmptyCommits(order, infos)
    ensures found == FoundInUpstream(order, infos, upstreamInv)
  {
    assert order[..|order|] == order;
    assert found.Keys == FoundInUpstream(order, infos, upstreamInv).Keys;
  }

  /** The found-in-upstream map is complete and exact with respect to the
      upstream commits: a branch commit is a key exactly when its patch id
      is non-empty and some upstream commit has it, and its value lists
      exactly those upstream commits, once each, in upstream iteration
      order. */
  lemma {:induction false} FoundInUpstreamExact(order: seq<Commit>, infos: map<Commit, CommitInfo>,
                                                upstreamOrder: seq<Commit>, upstreamInfos: map<Commit, CommitInfo>)
    requires IsOrderOf(order, infos) && IsOrderOf(upstreamOrder, upstreamInfos)
    ensures var found := FoundInUpstream(order, infos, Inverse(upstreamOrder, upstreamInfos));
      forall c :: c in found <==>
        c in infos && infos[c].patchHash != ""
        && exists u :: u in upstreamInfos && upstreamInfos[u].patchHash == infos[c].patchHash
    ensures var found := FoundInUpstream(order, infos, Inverse(upstreamOrder, upstreamInfos));
      forall c :: c in found ==>
        && Distinct(found[c])
        && (forall u :: u in found[c] <==> u in upstreamInfos && upstreamInfos[u].patchHash == infos[c].patchHash)
        && (forall i, j :: 0 <= i < j < |found[c]| ==> Before(upstreamOrder, found[c][i], found[c][j]))
  {
    var upInv := Inverse(upstreamOrder, upstreamInfos);
    var found := FoundInUpstream(order, infos, upInv);
    InverseIsGroups(upstreamOrder, upstreamInfos);
    forall c | c in infos && infos[c].patchHash != ""
      && (exists u :: u in upstreamInfos && upstreamInfos[u].patchHash == infos[c].patchHash)
      ensures c in found
    {
      var u :| u in upstreamInfos && upstreamInfos[u].patchHash == infos[c].patchHash;
      assert u in upstreamOrder;
    }
    forall c | c in found
      ensures Distinct(found[c])
      ensures forall u :: u in found[c] <==> u in upstreamInfos && upstreamInfos[u].patchHash == infos[c].patchHash
      ensures forall i, j :: 0 <= i < j < |found[c]| ==> Before(upstreamOrder, found[c][i], found[c][j])
    {
      GroupDistinct(upstreamOrder, upstreamInfos, infos[c].patchHash);
      GroupKeepsOrder(upstreamOrder, upstreamInfos, infos[c].patchHash);
    }
  }

  /** The branch commits that are neither empty nor found in upstream. */
  function NovelCommits(order: seq<Commit>, infos: map<Commit, CommitInfo>,
                        upstreamInv: map<string, seq<Commit>>): set<Commit>
    requires forall c :: c in order ==> c in infos
  {
    set c | c in order && infos[c].patchHash != "" && infos[c].patchHash !in upstreamInv
  }

  /** Empty, found-in-upstream and novel commits partition the branch
      commits, so the number the source prints as "total to apply without
      found and empty" counts exactly the novel ones and is never negative,
      provided the `git rev-list` output lists each branch commit once. */
  lemma {:induction false} EffectiveCountsNovelCommits(revs: seq<Commit>, order: seq<Commit>,
                                                       infos: map<Commit, CommitInfo>,
                                                       upstreamInv: map<string, seq<Commit>>)
    requires IsOrderOf(order, infos)
    requires Distinct(revs) && forall c :: c in revs <==> c in infos
    ensures |revs| - |FoundInUpstream(order, infos, upstreamInv)| - |EmptyCommits(order, infos)|
      == |NovelCommits(order, infos, upstreamInv)|
    ensures |FoundInUpstream(order, infos, upstreamInv)| + |EmptyCommits(order, infos)| <= |revs|
  {
    DistinctCardinality(revs);
    ClassesPartition(revs, order, infos, upstreamInv);
    var found := FoundInUpstream(order, infos, upstreamInv);
    PartitionCardinality((set c | c in revs), EmptyCommits(order, infos), found.Keys,
                         NovelCommits(order, infos, upstreamInv));
    assert |found| == |found.Keys|;
  }

  /** Every branch commit is empty, found in upstream or novel, and no
      commit is two of these. */
  lemma {:induction false} ClassesPartition(revs: seq<Commit>, order: seq<Commit>,
                                            infos: map<Commit, CommitInfo>,
                                            upstreamInv: map<string, seq<Commit>>)
    requires IsOrderOf(order, infos)
    requires forall c :: c in revs <==> c in infos
    ensures var empty, found, novel :=
        EmptyCommits(order, infos), FoundInUpstream(order, infos, upstreamInv).Keys,
        NovelCommits(order, infos, upstreamInv);
      && (set c | c in revs) == (empty + found) + novel
      && empty !! found && (empty + found) !! novel
  {
    var empty, found, novel :=
      EmptyCommits(order, infos), FoundInUpstream(order, infos, upstreamInv).Keys,
      NovelCommits(order, infos, upstreamInv);
    var all := set c | c in revs;
    forall c | c in all ensures c in (empty + found) + novel {
      assert c in order;
      if infos[c].patchHash == "" {
        assert c in empty;
      } else if infos[c].patchHash in upstreamInv {
        assert c in found;
      } else {
        assert c in novel;
      }
    }
    forall c | c in (empty + found) + novel ensures c in all {
      assert c in infos;
    }
  }

  /** Three disjoint parts of a set add up to it. */
  lemma PartitionCardinality<T>(all: set<T>, a: set<T>, b: set<T>, c: set<T>)
    requires all == (a + b) + c && a !! b && (a + b) !! c
    ensures |all| == |a| + |b| + |c|
  {
    DisjointUnion(a, b);
    DisjointUnion(a + b, c);
  }

  lemma DisjointUnion<T>(a: set<T>, b: set<T>)
    requires a !! b
    ensures |a + b| == |a| + |b|
  {
    assert a * b == {};
  }
}
