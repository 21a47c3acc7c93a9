/** Text handling of one commit's `git show` and `git patch-id` output:
    splitting into non-blank stripped lines, picking author, date and
    subject, and taking the patch id. The bytes are those the `git`
    subprocesses print; running them is not part of this model. */
module Header {
  import opened Common

  newtype byte = x: int | 0 <= x < 256

  const TAB: byte := 9
  const LF: byte := 10
  const VT: byte := 11
  const FF: byte := 12
  const CR: byte := 13
  const SPACE: byte := 32
  const PLUS: byte := 43
  const ZERO: byte := 48
  const COLON: byte := 58
  const LT: byte := 60
  const GT: byte := 62
  const AT: byte := 64

  /** What `bytes.strip()` removes when given no argument: ASCII whitespace. */
  const ASCII_WHITESPACE: set<byte> := {SPACE, TAB, LF, VT, FF, CR}

  /** The set of bytes in `b'Date: '`, the argument of the first date strip. */
  const DATE_LABEL: set<byte> := {68 /* D */, 97 /* a */, 116 /* t */, 101 /* e */, COLON, SPACE}

  /** The set of bytes in `b' +0000'`, the argument of the second date strip. */
  const UTC_OFFSET: set<byte> := {SPACE, PLUS, ZERO}

  /** The record kept per commit. `patchHash` is "" when `git patch-id`
      printed nothing (a commit without a diff). */
  datatype CommitInfo = CommitInfo(author: string, date: string, messageFirstLine: string, patchHash: string)

  // ---------------------------------------------------------------------
  // bytes.strip(chars)
  // ---------------------------------------------------------------------

  /** Scanning right from `i`: the first index whose byte is not in `cs`,
      or `|s|`. */
  function LeftEnd(s: seq<byte>, cs: set<byte>, i: nat): (r: nat)
    requires i <= |s|
    ensures i <= r <= |s| && (r == |s| || s[r] !in cs)
    ensures forall k :: i <= k < r ==> s[k] in cs
    decreases |s| - i
  {
    if i == |s| || s[i] !in cs then i else LeftEnd(s, cs, i + 1)
  }

  /** Scanning left from `hi` but not past `lo`: the end of the slice once
      the bytes of `cs` before `hi` are dropped. */
  function RightEnd(s: seq<byte>, cs: set<byte>, lo: nat, hi: nat): (r: nat)
    requires lo <= hi <= |s|
    ensures lo <= r <= hi && (r == lo || s[r - 1] !in cs)
    ensures forall k :: r <= k < hi ==> s[k] in cs
    decreases hi
  {
    if hi == lo || s[hi - 1] !in cs then hi else RightEnd(s, cs, lo, hi - 1)
  }

  /** `s.strip(cs)`: the bytes of `cs` are a set, not a prefix or suffix to
      remove; the result is the slice of `s` left once every byte of `cs`
      at either end is gone. */
  function Strip(s: seq<byte>, cs: set<byte>): (r: seq<byte>)
    ensures exists i, j :: (0 <= i <= j <= |s| && r == s[i..j]
      && (forall k :: 0 <= k < i ==> s[k] in cs)
      && (forall k :: j <= k < |s| ==> s[k] in cs))
    ensures r == [] || (r[0] !in cs && r[|r| - 1] !in cs)
  {
    var i := LeftEnd(s, cs, 0);
    var j := RightEnd(s, cs, i, |s|);
    s[i..j]
  }

  // ---------------------------------------------------------------------
  // bytes.splitlines() and the non-blank header lines
  // ---------------------------------------------------------------------

  predicate IsLineBreak(b: byte)
  {
    b == LF || b == CR
  }

  predicate NoLineBreak(s: seq<byte>)
  {
    forall k :: 0 <= k < |s| ==> !IsLineBreak(s[k])
  }

  /** Index of the first line break of `s`, or `|s|` if it has none. */
  function LineEnd(s: seq<byte>): (i: nat)
    ensures i <= |s| && (i < |s| ==> IsLineBreak(s[i]))
    ensures NoLineBreak(s[..i])
  {
    if s == [] || IsLineBreak(s[0]) then 0 else 1 + LineEnd(s[1..])
  }

  /** `s.splitlines()` on bytes: lines end at "\n", "\r" or "\r\n"; a line
      break at the very end does not start another, empty, line. */
  function SplitLines(s: seq<byte>): (lines: seq<seq<byte>>)
    ensures forall l :: l in lines ==> NoLineBreak(l)
    ensures lines == [] <==> s == []
    decreases |s|
  {
    if s == [] then []
    else
      var i := LineEnd(s);
      if i == |s| then [s]
      else
        var next := if s[i] == CR && i + 1 < |s| && s[i + 1] == LF then i + 2 else i + 1;
        [s[..i]] + SplitLines(s[next..])
  }

  /** `LineEnd` finds the first line break: any `i` with no break before
      it and a break (or the end) at it is that index. */
  lemma {:induction false} LineEndAt(s: seq<byte>, i: nat)
    requires i <= |s| && NoLineBreak(s[..i]) && (i == |s| || IsLineBreak(s[i]))
    ensures LineEnd(s) == i
  {
    if i > 0 {
      assert s[0] == s[..i][0] && !IsLineBreak(s[0]);
      assert s[1..][..i - 1] == s[..i][1..];
      LineEndAt(s[1..], i - 1);
    }
  }

  /** A non-empty text without line breaks is one line. */
  lemma {:induction false} SplitLinesOfLine(a: seq<byte>)
    requires a != [] && NoLineBreak(a)
    ensures SplitLines(a) == [a]
  {
    assert a[..|a|] == a;
    LineEndAt(a, |a|);
  }

  /** Lines end at "\n", at "\r\n", and at a "\r" not followed by "\n":
      the text before the first such separator is the first line, and the
      rest is split the same way. */
  lemma {:induction false} SplitLinesAtBreak(a: seq<byte>, sep: seq<byte>, b: seq<byte>)
    requires NoLineBreak(a)
    requires sep == [LF] || sep == [CR, LF] || (sep == [CR] && (b == [] || b[0] != LF))
    ensures SplitLines(a + sep + b) == [a] + SplitLines(b)
  {
    var s := a + sep + b;
    assert s[..|a|] == a && s[|a|] == sep[0];
    LineEndAt(s, |a|);
    assert s[|a| + |sep|..] == b;
  }

  /** `s` without its line-break bytes. */
  function DropBreaks(s: seq<byte>): seq<byte>
  {
    if s == [] then []
    else (if IsLineBreak(s[0]) then [] else [s[0]]) + DropBreaks(s[1..])
  }

  function Concat(lines: seq<seq<byte>>): seq<byte>
  {
    if lines == [] then [] else lines[0] + Concat(lines[1..])
  }

  lemma {:induction false} DropBreaksAppend(a: seq<byte>, b: seq<byte>)
    ensures DropBreaks(a + b) == DropBreaks(a) + DropBreaks(b)
  {
    if a != [] {
      assert (a + b)[0] == a[0] && (a + b)[1..] == a[1..] + b;
      DropBreaksAppend(a[1..], b);
    } else {
      assert a + b == b;
    }
  }

  lemma {:induction false} DropBreaksOfLine(s: seq<byte>)
    requires NoLineBreak(s)
    ensures DropBreaks(s) == s
  {
    if s != [] {
      DropBreaksOfLine(s[1..]);
    }
  }

  /** The bytes between one line and the next are line breaks only. */
  lemma {:induction false} LineSeparatorDropped(s: seq<byte>, i: nat, next: nat)
    requires i < |s| && IsLineBreak(s[i])
    requires next == if s[i] == CR && i + 1 < |s| && s[i + 1] == LF then i + 2 else i + 1
    ensures DropBreaks(s[i..next]) == []
  {
    var sep := s[i..next];
    assert DropBreaks(sep) == DropBreaks(sep[1..]);
    if next == i + 2 {
      assert sep[1..][0] == LF && sep[1..][1..] == [];
    } else {
      assert sep[1..] == [];
    }
  }

  lemma {:induction false} ConcatCons(l: seq<byte>, rest: seq<seq<byte>>)
    ensures Concat([l] + rest) == l + Concat(rest)
  {
    assert ([l] + rest)[0] == l && ([l] + rest)[1..] == rest;
  }

  /** Around one line break, dropping breaks keeps the line before it. */
  lemma {:induction false} DropBreaksAtLineEnd(s: seq<byte>, i: nat, next: nat)
    requires i < |s| && IsLineBreak(s[i]) && NoLineBreak(s[..i])
    requires next == if s[i] == CR && i + 1 < |s| && s[i + 1] == LF then i + 2 else i + 1
    ensures DropBreaks(s) == s[..i] + DropBreaks(s[next..])
  {
    DropBreaksOfLine(s[..i]);
    LineSeparatorDropped(s, i, next);
    DropBreaksAppend(s[i..next], s[next..]);
    DropBreaksAppend(s[..i], s[i..next] + s[next..]);
    assert s[i..next] + s[next..] == s[i..];
    assert s[..i] + s[i..] == s;
  }

  /** Splitting loses nothing but the line breaks: the lines, put back
      together, are the input with its "\n" and "\r" bytes removed. */
  lemma {:induction false} SplitLinesKeepsContent(s: seq<byte>)
    ensures Concat(SplitLines(s)) == DropBreaks(s)
    decreases |s|
  {
    if s != [] {
      var i := LineEnd(s);
      if i == |s| {
        assert s[..i] == s;
        DropBreaksOfLine(s);
        ConcatCons(s, []);
      } else {
        var next := if s[i] == CR && i + 1 < |s| && s[i + 1] == LF then i + 2 else i + 1;
        var rest := SplitLines(s[next..]);
        assert SplitLines(s) == [s[..i]] + rest;
        ConcatCons(s[..i], rest);
        SplitLinesKeepsContent(s[next..]);
        DropBreaksAtLineEnd(s, i, next);
      }
    }
  }

  /** Each line stripped of ASCII whitespace, blank results dropped. The
      kept lines are non-empty with no whitespace at either end, and none
      is kept exactly when every line is blank. */
  function StripNonBlank(lines: seq<seq<byte>>): (r: seq<seq<byte>>)
    ensures |r| <= |lines|
    ensures forall l :: l in r ==> l != [] && l[0] !in ASCII_WHITESPACE && l[|l| - 1] !in ASCII_WHITESPACE
    ensures r == [] <==> forall l :: l in lines ==> Strip(l, ASCII_WHITESPACE) == []
  {
    if lines == [] then []
    else
      var l := Strip(lines[0], ASCII_WHITESPACE);
      (if l == [] then [] else [l]) + StripNonBlank(lines[1..])
  }

  /** Stripping and dropping blank lines works line by line: the result
      for `a + b` is the result for `a` followed by the result for `b`. */
  lemma {:induction false} StripNonBlankAppend(a: seq<seq<byte>>, b: seq<seq<byte>>)
    ensures StripNonBlank(a + b) == StripNonBlank(a) + StripNonBlank(b)
  {
    if a == [] {
      assert a + b == b;
    } else {
      assert (a + b)[0] == a[0] && (a + b)[1..] == a[1..] + b;
      StripNonBlankAppend(a[1..], b);
    }
  }

  /** One line is kept, stripped, exactly when it is not blank. */
  lemma {:induction false} StripNonBlankSingle(l: seq<byte>)
    ensures StripNonBlank([l]) ==
      if Strip(l, ASCII_WHITESPACE) == [] then [] else [Strip(l, ASCII_WHITESPACE)]
  {
    assert [l][1..] == [];
  }

  /** The header lines the source indexes into: non-empty, with no
      whitespace at either end and no line break, whatever bytes `git
      show` printed. */
  function NonBlankLines(show: seq<byte>): (r: seq<seq<byte>>)
    ensures forall l :: l in r ==>
      l != [] && NoLineBreak(l) && l[0] !in ASCII_WHITESPACE && l[|l| - 1] !in ASCII_WHITESPACE
  {
    StripNonBlankShape(SplitLines(show));
    StripNonBlank(SplitLines(show))
  }

  /** Stripping a line keeps it free of line breaks. */
  lemma {:induction false} StripKeepsNoLineBreak(line: seq<byte>, cs: set<byte>)
    requires NoLineBreak(line)
    ensures NoLineBreak(Strip(line, cs))
  {
    var l := Strip(line, cs);
    var i, j :| 0 <= i <= j <= |line| && l == line[i..j];
    assert forall k :: 0 <= k < |l| ==> l[k] == line[i + k];
  }

  /** Every line of `StripNonBlank(lines)` is non-empty, free of line
      breaks and of whitespace at either end. */
  lemma {:induction false} StripNonBlankShape(lines: seq<seq<byte>>)
    requires forall l :: l in lines ==> NoLineBreak(l)
    ensures forall l :: l in StripNonBlank(lines) ==>
      l != [] && NoLineBreak(l) && l[0] !in ASCII_WHITESPACE && l[|l| - 1] !in ASCII_WHITESPACE
  {
    if lines != [] {
      assert forall l :: l in lines[1..] ==> l in lines;
      StripNonBlankShape(lines[1..]);
      var head := Strip(lines[0], ASCII_WHITESPACE);
      StripKeepsNoLineBreak(lines[0], ASCII_WHITESPACE);
      var rest := StripNonBlank(lines[1..]);
      forall l | l in StripNonBlank(lines)
        ensures l != [] && NoLineBreak(l) && l[0] !in ASCII_WHITESPACE && l[|l| - 1] !in ASCII_WHITESPACE
      {
        if l !in rest {
          assert l == head;
        }
      }
    }
  }

  // ---------------------------------------------------------------------
  // Author: AUTHOR_EMAIL_REGEX = ^.*<(.+@.+)>$
  // ---------------------------------------------------------------------

  /** The pattern `^.*<(.+@.+)>$` matches `s` with its `<` at index `k`:
      `s` ends in `>`, and the group between them holds an `@` with at
      least one byte before and after it. This holds only for lines
      without "\n", which `.` does not match; the functions below require
      that, and every header line meets it (see NonBlankLines). */
  predicate EmailGroupAt(s: seq<byte>, k: int)
  {
    0 <= k && k + 2 <= |s| - 2 && s[k] == LT && s[|s| - 1] == GT && AT in s[k + 2..|s| - 2]
  }

  /** The greedy `.*` tries the `<` positions from `k` downwards: the
      largest matching position not above `k`, or -1 if there is none. */
  function EmailStart(s: seq<byte>, k: int): (r: int)
    requires NoLineBreak(s) && -1 <= k < |s|
    ensures -1 <= r <= k
    ensures r >= 0 ==> EmailGroupAt(s, r)
    ensures forall j :: r < j <= k ==> !EmailGroupAt(s, j)
    decreases k + 1
  {
    if k < 0 || EmailGroupAt(s, k) then k else EmailStart(s, k - 1)
  }

  /** `AUTHOR_EMAIL_REGEX.search(s)` and its `group(1)`: the bytes between
      the last `<` that starts a match and the final `>`. */
  function AuthorEmail(s: seq<byte>): (r: Option<seq<byte>>)
    requires NoLineBreak(s)
    ensures r.None? <==> forall k :: !EmailGroupAt(s, k)
    ensures r.Some? ==>
      var k := |s| - 2 - |r.value|;
      && 0 <= k && r.value == s[k + 1..|s| - 1] && EmailGroupAt(s, k)
      && forall k' :: k < k' ==> !EmailGroupAt(s, k')
  {
    var k := EmailStart(s, |s| - 1);
    if k < 0 then None else Some(s[k + 1..|s| - 1])
  }

  /** The author field before decoding: the captured e-mail address when
      the line has one, the whole line otherwise. */
  function AuthorField(line: seq<byte>): (r: seq<byte>)
    requires NoLineBreak(line)
    ensures (exists k :: EmailGroupAt(line, k)) ==>
      var k := |line| - 2 - |r|;
      && 0 <= k && r == line[k + 1..|line| - 1] && EmailGroupAt(line, k)
      && forall k' :: k < k' ==> !EmailGroupAt(line, k')
    ensures (forall k :: !EmailGroupAt(line, k)) ==> r == line
  {
    match AuthorEmail(line)
    case Some(email) => email
    case None => line
  }

  /** A plain author line yields the address between the angle brackets. */
  lemma {:induction false} AuthorFieldTakesAddress()
    ensures AuthorField(Ascii("Author: A <a@b>")) == Ascii("a@b")
  {
    var s := Ascii("Author: A <a@b>");
    assert s[10] == LT && s[11] == 97 && s[12] == AT && s[13] == 98 && s[14] == GT;
    assert s[12..13] == [AT];
    assert EmailStart(s, 10) == 10;
    assert EmailStart(s, 11) == 10;
    assert EmailStart(s, 12) == 10;
    assert EmailStart(s, 13) == 10;
    assert EmailStart(s, 14) == 10;
    assert s[11..14] == Ascii("a@b");
  }

  /** The group may run past a `>`: when the last `<` starts no match, an
      earlier one does, and the captured text reaches the final `>`. */
  lemma {:induction false} AuthorFieldSpansBrackets()
    ensures AuthorField(Ascii("<a@b> <c>")) == Ascii("a@b> <c")
  {
    var s: seq<byte> := [LT, 97, AT, 98, GT, SPACE, LT, 99, GT];
    assert Ascii("<a@b> <c>") == s;
    assert Ascii("a@b> <c") == s[1..8];
    assert EmailStart(s, 8) == 0 by {
      SpanStart(s);
    }
  }

  lemma {:induction false} SpanStart(s: seq<byte>)
    requires s == [LT, 97, AT, 98, GT, SPACE, LT, 99, GT]
    ensures EmailStart(s, 8) == 0
  {
    assert s[2..7][0] == AT;
    assert EmailGroupAt(s, 0);
    assert EmailStart(s, 4) == 0;
    assert EmailStart(s, 8) == EmailStart(s, 4);
  }

  // ---------------------------------------------------------------------
  // Date: lines[2].strip().strip(b'Date: ').strip(b' +0000')
  // ---------------------------------------------------------------------

  /** The date field before decoding: no longer than its line, and
      neither starting nor ending with ' ', '+' or '0'. */
  function DateField(line: seq<byte>): (r: seq<byte>)
    ensures |r| <= |line|
    ensures r == [] || (r[0] !in UTC_OFFSET && r[|r| - 1] !in UTC_OFFSET)
  {
    Strip(Strip(Strip(line, ASCII_WHITESPACE), DATE_LABEL), UTC_OFFSET)
  }

  lemma {:induction false} SliceOfSlice(s: seq<byte>, i: nat, j: nat, i': nat, j': nat)
    requires i <= j <= |s| && i' <= j' <= j - i
    ensures s[i..j][i'..j'] == s[i + i'..i + j']
  {
    assert |s[i..j][i'..j']| == |s[i + i'..i + j']|;
    forall k | 0 <= k < j' - i'
      ensures s[i..j][i'..j'][k] == s[i + i'..i + j'][k]
    {
    }
  }

  /** Stripping a slice of `s` leaves a narrower slice of `s`. */
  lemma {:induction false} StripOfSlice(s: seq<byte>, i: nat, j: nat, cs: set<byte>) returns (i': nat, j': nat)
    requires i <= j <= |s|
    ensures i <= i' <= j' <= j && Strip(s[i..j], cs) == s[i'..j']
  {
    var t := s[i..j];
    var l := LeftEnd(t, cs, 0);
    var r := RightEnd(t, cs, l, |t|);
    SliceOfSlice(s, i, j, l, r);
    i', j' := i + l, i + r;
  }

  /** The date is a contiguous slice of its line. */
  lemma {:induction false} DateFieldIsSlice(line: seq<byte>)
    ensures exists i, j :: 0 <= i <= j <= |line| && DateField(line) == line[i..j]
  {
    assert line[0..|line|] == line;
    var i1, j1 := StripOfSlice(line, 0, |line|, ASCII_WHITESPACE);
    var i2, j2 := StripOfSlice(line, i1, j1, DATE_LABEL);
    var i3, j3 := StripOfSlice(line, i2, j2, UTC_OFFSET);
  }

  /** ASCII text as bytes. */
  function Ascii(s: string): (b: seq<byte>)
    requires forall i :: 0 <= i < |s| ==> s[i] < 128 as char
    ensures |b| == |s| && forall i :: 0 <= i < |s| ==> b[i] as int == s[i] as int
  {
    seq(|s|, i requires 0 <= i < |s| => s[i] as int as byte)
  }

  /** Stripping the character set ' +0' also eats the year's final 0. */
  lemma {:induction false} DateStripEatsYearDigit()
    ensures Strip(Ascii("2020 +0000"), UTC_OFFSET) == Ascii("202")
  {
    var s := Ascii("2020 +0000");
    assert s[0] !in UTC_OFFSET && s[2] !in UTC_OFFSET;
    assert LeftEnd(s, UTC_OFFSET, 0) == 0;
    assert RightEnd(s, UTC_OFFSET, 0, |s|) == 3;
  }

  // ---------------------------------------------------------------------
  // Patch id: raw_out.split()[0]
  // ---------------------------------------------------------------------

  /** `str.isspace()` for one character: what `str.split()` splits on. */
  predicate IsSpace(c: char)
    ensures c as int < 128 ==> (IsSpace(c) <==> c as int as byte in ASCII_WHITESPACE || '\U{1C}' <= c <= '\U{1F}')
  {
    c == ' ' || '\t' <= c <= '\r' || '\U{1C}' <= c <= '\U{1F}'
    || c == '\U{85}' || c == '\U{A0}' || c == '\U{1680}'
    || '\U{2000}' <= c <= '\U{200A}' || c == '\U{2028}' || c == '\U{2029}'
    || c == '\U{202F}' || c == '\U{205F}' || c == '\U{3000}'
  }

  /** The number of whitespace characters `s` starts with. */
  function LeadingSpaces(s: string): (n: nat)
    ensures n <= |s| && (n == |s| || !IsSpace(s[n]))
    ensures forall k :: 0 <= k < n ==> IsSpace(s[k])
  {
    if s != [] && IsSpace(s[0]) then 1 + LeadingSpaces(s[1..]) else 0
  }

  /** The longest prefix of `s` without whitespace. */
  function TakeToken(s: string): (t: string)
    ensures |t| <= |s| && t == s[..|t|]
    ensures forall k :: 0 <= k < |t| ==> !IsSpace(t[k])
    ensures |t| == |s| || IsSpace(s[|t|])
  {
    if s == [] || IsSpace(s[0]) then [] else [s[0]] + TakeToken(s[1..])
  }

  /** The patch id taken from the output of `git patch-id`: "" when it is
      empty, otherwise its first whitespace-separated token, which starts
      after the leading whitespace and runs up to the next whitespace or
      the end; `None` where the source's `split()[0]` raises `IndexError`
      (output that is all whitespace). */
  function PatchId(output: string): (r: Option<string>)
    ensures r == Some("") <==> output == ""
    ensures r == None <==> output != "" && forall k :: 0 <= k < |output| ==> IsSpace(output[k])
    ensures r.Some? && output != "" ==>
      var i := LeadingSpaces(output);
      && i + |r.value| <= |output| && r.value == output[i..i + |r.value|]
      && (forall k :: 0 <= k < |r.value| ==> !IsSpace(r.value[k]))
      && (i + |r.value| == |output| || IsSpace(output[i + |r.value|]))
  {
    if output == "" then Some("")
    else
      var i := LeadingSpaces(output);
      if i == |output| then None
      else
        var token := TakeToken(output[i..]);
        assert output[i..][..|token|] == output[i..i + |token|];
        Some(token)
  }

  // ---------------------------------------------------------------------
  // get_commit_patch_id, without the subprocess calls
  // ---------------------------------------------------------------------

  /** The `CommitInfo` of one commit from the bytes `git show` printed and
      the text `git patch-id` printed. `decode` stands for the lenient
      UTF-8 decoding followed by replacing U+FFFD with '?'. `None` where the
      source raises `IndexError`: a header with fewer than four non-blank
      lines, or patch-id output that is all whitespace. */
  function GetCommitInfo(show: seq<byte>, patchIdOutput: string, decode: seq<byte> -> string): (r: Option<CommitInfo>)
    ensures r.Some? <==> |NonBlankLines(show)| >= 4 && PatchId(patchIdOutput).Some?
    ensures r.Some? ==>
      var lines := NonBlankLines(show);
      && r.value.author == decode(AuthorField(lines[1]))
      && r.value.date == decode(DateField(lines[2]))
      && r.value.messageFirstLine == decode(lines[3])
      && r.value.patchHash == PatchId(patchIdOutput).value
  {
    var lines := NonBlankLines(show);
    if |lines| < 4 then None
    else
      match PatchId(patchIdOutput)
      case None => None
      case Some(patchHash) =>
        Some(CommitInfo(decode(AuthorField(lines[1])), decode(DateField(lines[2])), decode(lines[3]), patchHash))
  }
}
