# rebase-list: commit correlation, in Dafny

`rebase-list.py` helps rebase a long-lived branch onto upstream. It lists
the commits that are only on the branch and the commits that are only
upstream. For each commit it runs `git show` and `git patch-id`, which
gives it a `CommitInfo`: author, date, subject and patch hash. It then
reports every branch-only commit, oldest first, with two kinds of
annotation:

- "found in upstream [...]" when an upstream commit has the same patch id;
- "duplicate of [...]" when another branch commit has the same patch id.

This project models that logic and proves what it computes.

- `common.dfy` (module `Common`) defines `Option`, `Distinct` and `Join`
  (`str.join`). It also defines `IsOrderOf`: a Python dictionary is
  modelled as a `map` plus `order`, the sequence its iteration visits.
- `header.dfy` (module `Header`) models the text handling of
  `get_commit_patch_id` on bytes (`newtype byte`):
  - `bytes.splitlines`;
  - `bytes.strip`, both with no argument and with a set of bytes;
  - dropping blank lines and indexing lines 1, 2 and 3;
  - the author regular expression `^.*<(.+@.+)>$`, with its greedy
    choice of `<`;
  - the date clean-up;
  - the first token of the `git patch-id` output (`str.split()[0]`).
- `correlation.dfy` (module `Correlation`) models the stages of `main`
  that work on dictionaries:
  - `inverse_map`, as a method with its loop, proved against the
    function `Inverse`;
  - the nested loop that fills `duplicates`;
  - the loop that counts empty commits and fills the found-in-upstream
    map.

  Each is compared with an independent reference definition: `Group`
  collects the commits that have one patch hash.
- `report.dfy` (module `Report`) models the final loop, which builds one
  tab-separated line per commit, in reverse `git rev-list` order.
- `pipeline.dfy` (module `RebaseList`) chains the stages as `main` does
  (`Run`). It also holds concrete scenarios: twin commits, a commit found
  in upstream, and a commit with an empty patch id.

The branch and upstream patch-id maps are filled in whatever order the
thread pool finishes. So every statement about iteration order holds for
any `order` that lists each key exactly once, and the model never assumes
the `git rev-list` order.

Some behaviour of the code is worth spelling out, because it is easy to
misread:

- The report loop adds an "empty commit" annotation only when
  `branch_patch_id_map[commit] is None` (rebase-list.py:133). The map
  always holds a `CommitInfo` object, so that test never succeeds.
  `ReportLines` keeps the dead branch, and its postcondition shows that no
  line gets the annotation. `EmptyPatchIdLineIsBare` shows that a commit
  with an empty patch id gets no annotation at all.
- The date is cleaned with `strip(b'Date: ')` and then `strip(b' +0000')`
  (rebase-list.py:53). `bytes.strip` takes its argument as a set of bytes
  and removes those bytes from both ends of the value:
  - the first strip removes `{D, a, t, e, :, space}` from both ends;
  - the second removes `{space, +, 0}` from both ends.

  So "2020 +0000" becomes "202" (`DateStripEatsYearDigit`).
- A header with fewer than four non-blank lines raises `IndexError`, and
  so does `git patch-id` output that is non-empty but all whitespace.
  `GetCommitInfo` returns `None` in both cases.
- The author, date and subject are lines 1, 2 and 3 of the non-blank,
  stripped lines, whatever those lines are.

## Model

| member | source | states |
|---|---|---|
| Header.Strip | rebase-list.py:44 | `strip` with a byte set returns a contiguous slice of its input. Only bytes of the set were removed, at either end, and the result neither starts nor ends with one. |
| Header.SplitLines | rebase-list.py:44 | `splitlines` yields lines that contain no "\n" or "\r", and no lines at all exactly for empty input. |
| Header.SplitLinesKeepsContent | rebase-list.py:44 | Splitting loses only the line breaks: the lines concatenated equal the input with every "\n" and "\r" removed. |
| Header.SplitLinesOfLine | rebase-list.py:44 | A non-empty text without "\n" or "\r" is a single line. |
| Header.SplitLinesAtBreak | rebase-list.py:44 | Lines split at "\n", at "\r\n", and at a "\r" not followed by "\n": the break-free text before such a separator is the first line, and the rest is split in the same way. |
| Header.StripNonBlankShape | rebase-list.py:44-45 | After stripping and dropping blank lines, every remaining line is non-empty, has no line break and has no ASCII whitespace at either end. |
| Header.StripNonBlank | rebase-list.py:44-45 | Stripping each line and dropping the blank ones keeps no more lines than it is given. Every kept line is non-empty with no ASCII whitespace at either end. Nothing is kept exactly when every line strips to empty. |
| Header.StripNonBlankAppend | rebase-list.py:44-45 | Stripping and dropping blank lines works line by line and keeps input order: the result for `a + b` is the result for `a` followed by the result for `b`. |
| Header.StripNonBlankSingle | rebase-list.py:44-45 | A single line is kept, stripped, exactly when it does not strip to empty. |
| Header.NonBlankLines | rebase-list.py:44-45 | The lines the header fields are read from are non-empty, stripped and break-free, whatever bytes `git show` printed. |
| Header.EmailStart | rebase-list.py:34 | The greedy `.*` picks the largest `<` position at or below the bound where the rest of the line matches `<(.+@.+)>$`, or -1 when no position matches. |
| Header.AuthorEmail | rebase-list.py:34 | There is no match exactly when no `<` position fits the pattern. Otherwise the captured group lies between the last matching `<` and the final `>`, and no later `<` matches. |
| Header.AuthorField | rebase-list.py:47-50 | When the line matches, the author is exactly the captured group: the bytes between the last `<` that starts a match and the final `>`. Otherwise it is the whole line. |
| Header.AuthorFieldTakesAddress | rebase-list.py:48-50 | "Author: A <a@b>" yields "a@b". |
| Header.AuthorFieldSpansBrackets | rebase-list.py:48-50 | "<a@b> <c>" yields "a@b> <c": the last `<` starts no match, so the group runs past a `>`. |
| Header.DateField | rebase-list.py:53 | The cleaned date is no longer than its line and neither starts nor ends with ' ', '+' or '0'. |
| Header.DateFieldIsSlice | rebase-list.py:53 | The cleaned date is a contiguous slice of its line. |
| Header.DateStripEatsYearDigit | rebase-list.py:53 | Stripping the set ' +0' turns "2020 +0000" into "202". |
| Header.IsSpace | rebase-list.py:66 | On ASCII characters, `str.isspace` holds exactly for the bytes `bytes.strip()` removes plus the separators 0x1C-0x1F. |
| Header.LeadingSpaces | rebase-list.py:66 | Counts the leading characters for which `str.isspace` holds: all of them are whitespace, and the next one, if any, is not. |
| Header.TakeToken | rebase-list.py:66 | The token is a prefix of its input, holds no whitespace, and is followed by whitespace or the end. |
| Header.PatchId | rebase-list.py:63-66 | Empty output gives "". Non-empty output that is all whitespace gives `None` (the `IndexError`). Otherwise the result is the first whitespace-separated token: it starts after the leading whitespace, contains none, and ends at whitespace or the end. |
| Header.GetCommitInfo | rebase-list.py:44-67 | A record exists exactly when there are at least four non-blank lines and a patch id. Its fields are then the decoded author, date and subject from lines 1, 2 and 3, plus the patch id. |
| Correlation.Group | rebase-list.py:85-87 | Reference definition: a commit is in the group of `h` exactly when it is iterated and has patch hash `h`. |
| Correlation.GroupDistinct | rebase-list.py:85-87 | A group lists no commit twice. |
| Correlation.GroupKeepsOrder | rebase-list.py:85-87 | A group lists its commits in dictionary iteration order. |
| Correlation.InverseMap | rebase-list.py:83-89 | The `setdefault(...).append` loop builds exactly `Inverse` of the input, and its key order lists each key once. |
| Correlation.InverseKeys | rebase-list.py:83-89 | The index's keys are exactly the non-empty patch hashes of the input. |
| Correlation.InverseLists | rebase-list.py:83-89 | Each list of the index equals the group of its hash. |
| Correlation.InverseIsGroups | rebase-list.py:83-89 | Both facts above together. |
| Correlation.InverseList | rebase-list.py:85-87 | One list holds exactly the input commits with that hash. |
| Correlation.InverseIsExactIndex | rebase-list.py:83-89 | "" is never a key. Every commit with a non-empty hash occurs exactly once, under its own hash. Every listed commit is an input key with that hash. No list is empty. |
| Correlation.InverseKeepsIterationOrder | rebase-list.py:85-87 | Within each list, commits follow the input map's iteration order. |
| Correlation.Without | rebase-list.py:108 | The filter keeps exactly the members other than `c`. |
| Correlation.WithoutKeepsOrder | rebase-list.py:108 | The filter keeps the order of the group: any two remaining commits appear in the group in the same order. |
| Correlation.WithoutOccurrence | rebase-list.py:108 | Removing a member of a distinct list shortens it by one. |
| Correlation.Duplicates | rebase-list.py:104-108 | The nested loop over the index's values builds exactly `DuplicateMap`. |
| Correlation.DuplicatesAreGroupRemainders | rebase-list.py:104-108 | A commit is a key exactly when its hash is non-empty and its group has more than one member. Its value is the group without it, in group order. The value has length group size minus one and lists only other commits with the same hash. |
| Correlation.DuplicatesSymmetric | rebase-list.py:104-108 | If c2 is listed for c1, then c1 is listed for c2, and no commit lists itself. |
| Correlation.Classify | rebase-list.py:114-120 | The counter equals the number of commits with an empty patch hash, and the map built is `FoundInUpstream`. |
| Correlation.FoundInUpstreamExact | rebase-list.py:111-120 | A branch commit is a key exactly when its hash is non-empty and some upstream commit has it. Its value lists exactly those upstream commits, once each, in upstream iteration order. |
| Correlation.ClassesPartition | rebase-list.py:116-120 | Every branch commit is empty, found in upstream or novel, and in exactly one of these classes. |
| Correlation.EffectiveCountsNovelCommits | rebase-list.py:125 | When the rev-list entries are distinct and are the map's keys, `total - found - empty` equals the number of novel commits. So `found + empty <= total`. |
| Report.FoundAnnotation | rebase-list.py:132 | The annotation is "found in upstream [", the upstream commits joined by ", ", and "]". |
| Report.DuplicateAnnotation | rebase-list.py:136 | The annotation is "duplicate of [", the other branch commits joined by ", ", and "]". |
| Report.ReportLines | rebase-list.py:128-140 | The loop emits one line per branch commit in reverse rev-list order. Line k belongs to the k-th commit from the end and is built from its record and its annotations. The dead "empty commit" branch adds nothing. |
| Report.Annotations | rebase-list.py:129-137 | There is at most one "found in upstream" annotation and one "duplicate of" annotation, in that order, and "empty commit" never appears. With both present, the block is found + "; " + duplicate. |
| Report.TabOnlyWithAnnotations | rebase-list.py:137-140 | The line is the bare four fields exactly when the commit is neither found nor duplicated. Otherwise one tab and the joined annotations follow. |
| Report.BothAnnotationsLine | rebase-list.py:131-140 | A commit with both annotations prints the bare line, a tab, the found annotation, "; " and the duplicate annotation. |
| Report.ReportLine | rebase-list.py:137-140 | Every line starts with its commit followed by a tab. |
| Common.Join | rebase-list.py:137 | The joined text starts with the first part, and a single part is joined to itself. |
| Common.JoinAppend | rebase-list.py:137 | Joining two non-empty runs of parts gives their joins with one separator between them. |
| Common.JoinEmpty | rebase-list.py:137-138 | Joining non-empty annotations is empty exactly when there are none. |
| RebaseList.Run | rebase-list.py:102-140 | The composed stages give: total = number of branch commits; the empty and found counters from their specifications; `effective = total - found - empty`, equal to the novel count and non-negative when the rev-list is distinct; and the report lines as specified. |
| RebaseList.EmptyPatchIdLineIsBare | rebase-list.py:114-140 | A commit with an empty patch id is neither found nor duplicated, so its line has no annotation. |
| RebaseList.FoundDuplicateLine | rebase-list.py:104-140 | A commit that matches an upstream commit and another branch commit gets both annotations, found first. |
| RebaseList.PairDuplicates | rebase-list.py:104-108 | Two commits with a shared hash, iterated as [a, b], are each other's only duplicate. |
| RebaseList.TwinCommitsScenario | rebase-list.py:104-125 | Two branch commits with one patch id and no upstream match list each other as duplicates, are neither empty nor found, and leave `effective` = 2 in either iteration order. |
| RebaseList.FoundUpstreamScenario | rebase-list.py:111-140 | A branch commit with the patch id of an upstream commit y is the single found entry, and its line ends in "\tfound in upstream [y]". |

## Left out

- `git rev-list`, `git show` and `git patch-id` (rebase-list.py:17-23, 38-42, 56-61) are external processes. Their outputs are inputs: the rev-list sequence, the `show` bytes, the patch-id text and the two patch-id maps.
- `build_patch_id_map` (rebase-list.py:70-80) uses a thread pool, `imap_unordered` and progress printing. Its result is an input map whose iteration order is any permutation of its keys.
- `argparse` (rebase-list.py:7-14) and the `print` calls (rebase-list.py:100, 110, 122-127, 140) are not modelled. `Run` returns the counters and the report lines instead of printing them.
- Decoding with `errors='replace'` followed by the U+FFFD-to-'?' substitution (rebase-list.py:51, 53-54) is a parameter `decode`. The strict `decode()` of the patch-id output (rebase-list.py:64) is not modelled: the output is taken as text.
- General regular-expression semantics are not modelled. Only the author pattern at rebase-list.py:34 is modelled, on lines that hold no "\n", which `NonBlankLines` guarantees. `EmailStart`, `AuthorEmail` and `AuthorField` require such lines.
- Header.GetCommitInfo returns `None` where the source raises `IndexError`, instead of modelling the exception.
