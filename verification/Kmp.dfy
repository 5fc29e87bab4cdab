/**
 Substring search of the utstring library: the optimised Knuth-Morris-Pratt failure table,
 built from either end, and the two searches that use it.

 Both right-to-left routines are proved by reading the needle and the haystack backwards, so
 the border theory below is stated once.
 */
module Kmp {

  /** The result that stands for "no occurrence". */
  const NOT_FOUND := -1

  // ----- Borders -----

  /** The prefix of w of length b is also the suffix, of the same length, of w's prefix of length k. */
  ghost predicate Border(w: string, k: int, b: int) {
    0 <= b < k <= |w| && w[..b] == w[k - b..k]
  }

  /** A border whose next letter differs from the letter after the prefix it borders. */
  ghost predicate StrongBorder(w: string, k: int, b: int) {
    k < |w| && Border(w, k, b) && w[b] != w[k]
  }

  /** f is the longest proper border of w[..k], or -1 if there is none (only for k == 0). */
  ghost predicate LongestBorder(w: string, k: int, f: int) {
    (f == -1 || Border(w, k, f)) && forall b :: Border(w, k, b) ==> b <= f
  }

  /** f is the longest strong border of w[..k], or -1 if there is none. */
  ghost predicate LongestStrongBorder(w: string, k: int, f: int) {
    (f == -1 || StrongBorder(w, k, f)) && forall b :: StrongBorder(w, k, b) ==> b <= f
  }

  /** What entry k of the left-to-right table for w must hold. */
  ghost predicate TableEntry(w: string, k: int, f: int) {
    if k < |w| then LongestStrongBorder(w, k, f) else LongestBorder(w, k, f)
  }

  ghost predicate LeftTable(w: string, t: seq<int>) {
    |t| == |w| + 1 && forall k :: 0 <= k <= |w| ==> TableEntry(w, k, t[k])
  }

  /** A border of a border is a border, and of two borders the shorter borders the longer. */
  lemma BorderNesting(w: string, k: int, j: int)
    requires Border(w, k, j)
    ensures forall b :: Border(w, j, b) <==> b < j && Border(w, k, b)
  {
  }

  /** Borders of length at least one extend, and come from, borders of the prefix one shorter. */
  lemma BorderStep(w: string, k: int, b: int)
    requires 0 <= k < |w| && 0 <= b
    ensures Border(w, k + 1, b + 1) <==> Border(w, k, b) && w[b] == w[k]
  {
    if b < k {
      var x, y := w[..b + 1], w[k - b..k + 1];
      assert x == w[..b] + [w[b]];
      assert y == w[k - b..k] + [w[k]];
      assert x == y ==> x[..b] == y[..b] && x[b] == y[b];
    }
  }

  /** j is -1 or a border of w[..k], and no longer border can be extended by the letter w[k]. */
  ghost predicate Candidate(w: string, k: int, j: int) {
    k < |w| && (j == -1 || Border(w, k, j)) && forall b :: Border(w, k, b) && w[b] == w[k] ==> b <= j
  }

  /** Following one failure link from the border j skips no border that could be extended. */
  lemma FailureLink(w: string, k: int, j: int, f: int)
    requires Candidate(w, k, j) && j >= 0 && w[j] != w[k]
    requires LongestStrongBorder(w, j, f)
    ensures -1 <= f < j && Candidate(w, k, f)
  {
    BorderNesting(w, k, j);
    forall b | Border(w, k, b) && w[b] == w[k]
      ensures b <= f
    {
      assert b < j;
      assert StrongBorder(w, j, b);
    }
  }

  /** From the longest extendable border of w[..k] to the longest border of w[..k + 1]. */
  lemma LongestBorderStep(w: string, k: int, j: int)
    requires 0 <= k && Candidate(w, k, j) && (j >= 0 ==> w[j] == w[k])
    ensures LongestBorder(w, k + 1, j + 1)
  {
    if j >= 0 {
      BorderStep(w, k, j);
    }
    forall b {:trigger Border(w, k + 1, b)} | Border(w, k + 1, b)
      ensures b <= j + 1
    {
      if b > 0 {
        BorderStep(w, k, b - 1);
      }
    }
  }

  /** The compression of the table: a longest border that is not strong is replaced by its own entry. */
  lemma CompressEntry(w: string, k: int, j: int, f: int)
    requires 0 <= j < k < |w| && LongestBorder(w, k, j)
    requires w[k] == w[j] ==> LongestStrongBorder(w, j, f)
    ensures LongestStrongBorder(w, k, if w[k] == w[j] then f else j)
  {
    BorderNesting(w, k, j);
    if w[k] == w[j] {
      forall b | StrongBorder(w, k, b)
        ensures b <= f
      {
        assert StrongBorder(w, j, b);
      }
    }
  }

  // ----- Occurrences -----

  /** w occurs in h at position s. */
  ghost predicate OccursAt(h: string, w: string, s: int) {
    0 <= s <= |h| - |w| && h[s..s + |w|] == w
  }

  /** The state of a left-to-right scan: i letters of w match just before j, and no occurrence
      starts before the current alignment. */
  ghost predicate Scanned(h: string, w: string, i: int, j: int) {
    && -1 <= i <= j <= |h| && i <= |w|
    && (i >= 0 ==> h[j - i..j] == w[..i])
    && forall s :: OccursAt(h, w, s) ==> s >= j - i
  }

  /** On a mismatch the failure link moves the alignment past no occurrence. */
  lemma ScanFail(h: string, w: string, i: int, j: int, f: int)
    requires Scanned(h, w, i, j) && 0 <= i < |w| && j < |h|
    requires w[i] != h[j]
    requires LongestStrongBorder(w, i, f)
    ensures f < i && Scanned(h, w, f, j)
  {
    if f >= 0 {
      assert w[..f] == w[..i][i - f..];
      assert h[j - f..j] == h[j - i..j][i - f..];
    }
    forall s | OccursAt(h, w, s)
      ensures s >= j - f
    {
      var b := j - s;
      if f < b {
        assert h[j] == h[s..s + |w|][b] == w[b];
        assert w[..b] == h[s..s + |w|][..b] == h[j - b..j];
        assert h[j - b..j] == h[j - i..j][i - b..] == w[i - b..i];
        assert b < i ==> StrongBorder(w, i, b);
      }
    }
  }

  /** On a match (or after giving the position up) the scan moves one letter on. */
  lemma ScanAdvance(h: string, w: string, i: int, j: int)
    requires Scanned(h, w, i, j) && i < |w| && j < |h|
    requires i == -1 || w[i] == h[j]
    ensures Scanned(h, w, i + 1, j + 1)
  {
  }

  // ----- The left-to-right routines -----

  /** The starting point of a table construction: the empty prefix has no border. */
  lemma FirstEntry(w: string)
    ensures TableEntry(w, 0, -1) && LongestBorder(w, 0, -1)
  {
  }

  /** _utstring_BuildTable. */
  method BuildTable(needle: string, table: array<int>) returns (ghost comparisons: nat)
    requires table.Length == |needle| + 1
    modifies table
    ensures LeftTable(needle, table[..])
    ensures comparisons <= 3 * |needle|
  {
    hide LongestStrongBorder, LongestBorder, Candidate, Border;
    var n := |needle|;
    var i, j := 0, -1;
    table[i] := j;
    comparisons := 0;
    FirstEntry(needle);
    while i < n
      invariant 0 <= i <= n && -1 <= j && (j < i || i == 0)
      invariant LongestBorder(needle, i, j) && comparisons + j + 1 <= 3 * i
      invariant forall k :: 0 <= k <= i ==> TableEntry(needle, k, table[k])
    {
      LongestIsCandidate(needle, i, j);
      while j > -1 && needle[i] != needle[j]
        modifies {}
        invariant -1 <= j <= i && Candidate(needle, i, j) && comparisons + j + 1 <= 3 * i
      {
        comparisons := comparisons + 1;
        assert TableEntry(needle, j, table[j]);
        FailureLink(needle, i, j, table[j]);
        j := table[j];
      }
      if j > -1 {
        comparisons := comparisons + 1;
      }
      LongestBorderStep(needle, i, j);
      i := i + 1;
      j := j + 1;
      ghost var before := table[..i];
      if i < n {
        assert TableEntry(needle, j, table[j]);
        comparisons := comparisons + 1;
        CompressEntry(needle, i, j, table[j]);
        if needle[i] == needle[j] {
          table[i] := table[j];
        } else {
          table[i] := j;
        }
      } else {
        table[i] := j;
      }
      assert forall k :: 0 <= k < i ==> table[k] == before[k];
    }
  }

  /** _utstring_find. The ghost result counts the comparisons of a needle letter with a haystack letter. */
  method FindWith(haystack: string, needle: string, table: array<int>) returns (pos: int, ghost comparisons: nat)
    requires |needle| > 0
    requires LeftTable(needle, table[..])
    ensures if pos == -1 then forall s :: !OccursAt(haystack, needle, s)
            else OccursAt(haystack, needle, pos) && forall s :: OccursAt(haystack, needle, s) ==> pos <= s
    ensures comparisons <= 2 * |haystack|
  {
    hide Border, LongestBorder, LongestStrongBorder;
    pos := NOT_FOUND;
    comparisons := 0;
    var n := |needle|;
    var i, j := 0, 0;
    while j < |haystack| && |haystack| - j + i >= n
      invariant 0 <= i < n && Scanned(haystack, needle, i, j)
      invariant comparisons + i <= 2 * j
    {
      while i > -1 && needle[i] != haystack[j]
        invariant -1 <= i < n && Scanned(haystack, needle, i, j)
        invariant comparisons + i <= 2 * j
      {
        comparisons := comparisons + 1;
        assert TableEntry(needle, i, table[..][i]);
        ScanFail(haystack, needle, i, j, table[i]);
        i := table[i];
      }
      if i > -1 {
        comparisons := comparisons + 1;
      }
      ScanAdvance(haystack, needle, i, j);
      i := i + 1;
      j := j + 1;
      if i >= n {
        pos := j - i;
        assert needle[..n] == needle;
        return;
      }
    }
  }

  lemma OccursFits(s: string, needle: string)
    ensures forall p :: OccursAt(s, needle, p) ==> 0 <= p <= |s| - |needle|
  {
  }

  lemma OccursInSuffix(s: string, needle: string, from: int, p: int)
    requires 0 <= from <= |s| && from <= p
    ensures OccursAt(s, needle, p) <==> OccursAt(s[from..], needle, p - from)
  {
    if p + |needle| <= |s| {
      assert s[p..p + |needle|] == s[from..][p - from..p - from + |needle|];
    }
  }

  lemma OccursInPrefix(s: string, needle: string, end: int, p: int)
    requires 0 <= end <= |s| && p + |needle| <= end
    ensures OccursAt(s, needle, p) <==> OccursAt(s[..end], needle, p)
  {
    if 0 <= p {
      assert s[p..p + |needle|] == s[..end][p..p + |needle|];
    }
  }

  /**
   utstring_find on the string s, from a start that counts from the end when negative. A start more than |s| before
   the end reads before the buffer, unless the needle is empty or too long for the search to begin.
   */
  method Find(s: string, start: int, needle: string) returns (pos: int, ghost comparisons: nat)
    requires -|s| <= start || needle == "" || |needle| > -start
    ensures comparisons <= 3 * |needle| + 2 * |s|
    ensures needle == "" ==> pos == -1
    ensures var from := if start < 0 then |s| + start else start;
      if pos == -1 then needle != "" ==> forall p :: from <= p ==> !OccursAt(s, needle, p)
      else from <= pos && OccursAt(s, needle, pos) && forall p :: from <= p && OccursAt(s, needle, p) ==> pos <= p
  {
    OccursFits(s, needle);
    hide OccursAt;
    pos, comparisons := NOT_FOUND, 0;
    var from := if start < 0 then |s| + start else start;
    if |s| - from >= |needle| && |needle| > 0 {
      var table := new int[|needle| + 1];
      ghost var building := BuildTable(needle, table);
      OccursFits(s[from..], needle);
      pos, comparisons := FindWith(s[from..], needle, table);
      forall p {:trigger OccursAt(s, needle, p)} | from <= p
        ensures OccursAt(s, needle, p) <==> OccursAt(s[from..], needle, p - from)
      {
        OccursInSuffix(s, needle, from, p);
      }
      comparisons := building + comparisons;
      if pos >= 0 {
        pos := pos + from;
        assert OccursAt(s[from..], needle, pos - from);
      }
    }
  }

  // ----- The right-to-left routines -----

  /** w read backwards. */
  ghost function Backwards(w: string): (r: string)
    ensures |r| == |w| && forall k :: 0 <= k < |w| ==> r[k] == w[|w| - 1 - k]
  {
    seq(|w|, k requires 0 <= k < |w| => w[|w| - 1 - k])
  }

  /** What entry k of the right-to-left table for w must hold: the left-to-right entry for the
      needle read backwards, with positions counted from the other end. */
  ghost predicate TableEntryR(w: string, k: int, f: int) {
    TableEntry(Backwards(w), |w| - k, |w| - 1 - f)
  }

  ghost predicate RightTable(w: string, t: seq<int>) {
    |t| == |w| + 1 && forall k :: 0 <= k <= |w| ==> TableEntryR(w, k, t[k])
  }

  /** The suffix of w from position b + 1 is also a prefix of the suffix of w from position k. */
  ghost predicate BorderR(w: string, k: int, b: int) {
    0 <= k <= b < |w| && w[b + 1..] == w[k..k + |w| - 1 - b]
  }

  /** Suffix borders are the prefix borders of the needle read backwards. */
  lemma BorderMirror(w: string, k: int, b: int)
    requires 0 <= k <= |w|
    ensures BorderR(w, k, b) <==> Border(Backwards(w), |w| - k, |w| - 1 - b)
  {
    var r, n, c := Backwards(w), |w|, |w| - 1 - b;
    if k <= b < n {
      if w[b + 1..] == w[k..k + c] {
        forall x {:trigger r[..c][x]} | 0 <= x < c
          ensures r[..c][x] == r[n - k - c..n - k][x]
        {
          assert r[..c][x] == w[n - 1 - x] == w[b + 1..][c - 1 - x];
          assert r[n - k - c..n - k][x] == w[k + c - 1 - x] == w[k..k + c][c - 1 - x];
        }
      }
      if r[..c] == r[n - k - c..n - k] {
        forall x {:trigger w[b + 1..][x]} | 0 <= x < c
          ensures w[b + 1..][x] == w[k..k + c][x]
        {
          assert w[b + 1..][x] == w[b + 1 + x] == r[..c][c - 1 - x];
          assert w[k..k + c][x] == w[k + x] == r[n - k - c..n - k][c - 1 - x];
        }
      }
    }
  }

  /** The right-to-left table read in the needle's own terms: entry k > 0 is the least position b
      with a suffix border of w[k..] whose letter w[b] differs from w[k - 1], entry 0 the least
      suffix border of all of w; |w| stands for none. */
  lemma RightTableReading(w: string, t: seq<int>, k: nat, b: int)
    requires RightTable(w, t) && k <= |w|
    ensures t[k] == |w| || (BorderR(w, k, t[k]) && (k > 0 ==> w[t[k]] != w[k - 1]))
    ensures BorderR(w, k, b) && (k > 0 ==> w[b] != w[k - 1]) ==> t[k] <= b
  {
    assert TableEntryR(w, k, t[k]);
    BorderMirror(w, k, t[k]);
    BorderMirror(w, k, b);
    if BorderR(w, k, b) && k > 0 && w[b] != w[k - 1] {
      assert StrongBorder(Backwards(w), |w| - k, |w| - 1 - b);
    }
  }

  /** A longest border is the first candidate for extension. */
  lemma LongestIsCandidate(w: string, k: int, j: int)
    requires LongestBorder(w, k, j) && k < |w|
    ensures Candidate(w, k, j)
  {
  }

  /** One failure link of the right-to-left construction. */
  lemma FailureLinkR(w: string, i: int, j: int, f: int)
    requires 0 <= i < j < |w| && w[i] != w[j]
    requires Candidate(Backwards(w), |w| - 1 - i, |w| - 1 - j)
    requires TableEntryR(w, j + 1, f)
    ensures j < f <= |w| && Candidate(Backwards(w), |w| - 1 - i, |w| - 1 - f)
  {
    hide Candidate, Border, LongestBorder, LongestStrongBorder;
    assert Backwards(w)[|w| - 1 - i] == w[i] && Backwards(w)[|w| - 1 - j] == w[j];
    FailureLink(Backwards(w), |w| - 1 - i, |w| - 1 - j, |w| - 1 - f);
  }

  /** The new entry of the right-to-left construction, once j has been moved to the next border. */
  lemma NewEntryR(w: string, i: int, j: int, f: int)
    requires -1 <= i < j < |w| && LongestBorder(Backwards(w), |w| - 1 - i, |w| - 1 - j)
    requires i >= 0 && w[i] == w[j] ==> TableEntryR(w, j + 1, f)
    ensures TableEntryR(w, i + 1, if i >= 0 && w[i] == w[j] then f else j)
  {
    hide Border, LongestBorder, LongestStrongBorder;
    if i >= 0 {
      assert Backwards(w)[|w| - 1 - i] == w[i] && Backwards(w)[|w| - 1 - j] == w[j];
      CompressEntry(Backwards(w), |w| - 1 - i, |w| - 1 - j, |w| - 1 - f);
    }
  }

  /** Entries k of the right-to-left table for w, for k > i, are filled. */
  ghost predicate FilledR(w: string, t: seq<int>, i: int) {
    -1 <= i && |t| == |w| + 1 && forall k :: i < k <= |w| ==> TableEntryR(w, k, t[k])
  }

  /** _utstring_BuildTableR. */
  method BuildTableR(needle: string, table: array<int>) returns (ghost comparisons: nat)
    requires table.Length == |needle| + 1
    modifies table
    ensures RightTable(needle, table[..])
    ensures comparisons <= 3 * |needle|
  {
    hide Candidate, LongestBorder, TableEntry;
    var n := |needle|;
    var i := n - 1;
    var j := i + 1;
    table[i + 1] := j;
    comparisons := 0;
    FirstEntry(Backwards(needle));
    while i >= 0
      invariant -1 <= i < n && i < j <= n && (i < n - 1 ==> j < n)
      invariant LongestBorder(Backwards(needle), n - 1 - i, n - 1 - j)
      invariant FilledR(needle, table[..], i) && comparisons + n - j <= 3 * (n - 1 - i)
    {
      LongestIsCandidate(Backwards(needle), n - 1 - i, n - 1 - j);
      while j < n && needle[i] != needle[j]
        modifies {}
        invariant comparisons + n - j <= 3 * (n - 1 - i)
        invariant i < j <= n && Candidate(Backwards(needle), n - 1 - i, n - 1 - j)
      {
        comparisons := comparisons + 1;
        FailureLinkR(needle, i, j, table[..][j + 1]);
        j := table[j + 1];
      }
      if j < n {
        comparisons := comparisons + 1;
      }
      LongestBorderStep(Backwards(needle), n - 1 - i, n - 1 - j);
      i := i - 1;
      j := j - 1;
      NewEntryR(needle, i, j, table[..][j + 1]);
      ghost var before := table[..];
      if i >= 0 {
        comparisons := comparisons + 1;
        if needle[i] == needle[j] {
          table[i + 1] := table[j + 1];
        } else {
          table[i + 1] := j;
        }
      } else {
        table[i + 1] := j;
      }
      assert table[..] == before[i + 1 := table[i + 1]];
    }
  }

  /** An occurrence, seen backwards. */
  lemma OccurrenceMirror(h: string, w: string, s: int)
    ensures OccursAt(h, w, s) <==> OccursAt(Backwards(h), Backwards(w), |h| - |w| - s)
  {
    var h', w', s' := Backwards(h), Backwards(w), |h| - |w| - s;
    if 0 <= s <= |h| - |w| {
      if h[s..s + |w|] == w {
        forall x | 0 <= x < |w|
          ensures h'[s'..s' + |w|][x] == w'[x]
        {
          assert h[s..s + |w|][|w| - 1 - x] == h[|h| - 1 - s' - x];
        }
      }
      if h'[s'..s' + |w|] == w' {
        forall x | 0 <= x < |w|
          ensures h[s..s + |w|][x] == w[x]
        {
          assert h'[s'..s' + |w|][|w| - 1 - x] == h'[s' + |w| - 1 - x] == h[s + x];
        }
      }
    }
  }

  /** The state of a right-to-left scan. */
  ghost predicate ScannedR(h: string, w: string, i: int, j: int) {
    Scanned(Backwards(h), Backwards(w), |w| - 1 - i, |h| - 1 - j)
  }

  /** On a mismatch the right-to-left failure link moves the alignment past no occurrence. */
  lemma ScanFailR(h: string, w: string, i: int, j: int, f: int)
    requires ScannedR(h, w, i, j) && 0 <= i < |w| && 0 <= j < |h|
    requires w[i] != h[j]
    requires TableEntryR(w, i + 1, f)
    ensures i < f <= |w| && ScannedR(h, w, f, j)
  {
    ScanFail(Backwards(h), Backwards(w), |w| - 1 - i, |h| - 1 - j, |w| - 1 - f);
  }

  lemma ScanStartR(h: string, w: string)
    ensures ScannedR(h, w, |w| - 1, |h| - 1)
  {
  }

  lemma ScanAdvanceR(h: string, w: string, i: int, j: int)
    requires ScannedR(h, w, i, j) && 0 <= i && 0 <= j
    requires i == |w| || (i < |w| && j < |h| && w[i] == h[j])
    ensures ScannedR(h, w, i - 1, j - 1)
  {
  }

  /** What a right-to-left scan knows: no occurrence lies further right than the current alignment;
      and the alignment is an occurrence once the whole needle has matched. */
  lemma ScanResultR(h: string, w: string, i: int, j: int)
    requires ScannedR(h, w, i, j) && -1 <= i < |w|
    ensures forall s :: OccursAt(h, w, s) ==> 0 <= s <= j - i
    ensures i == -1 ==> OccursAt(h, w, j + 1)
  {
    forall s | OccursAt(h, w, s)
      ensures s <= j - i
    {
      OccurrenceMirror(h, w, s);
    }
    if i == -1 {
      assert Backwards(w)[..|w|] == Backwards(w);
      assert OccursAt(Backwards(h), Backwards(w), |h| - |w| - (j + 1));
      OccurrenceMirror(h, w, j + 1);
    }
  }

  /** _utstring_findR. */
  method FindWithR(haystack: string, needle: string, table: array<int>) returns (pos: int, ghost comparisons: nat)
    requires |needle| > 0
    requires RightTable(needle, table[..])
    ensures if pos == -1 then forall s :: !OccursAt(haystack, needle, s)
            else OccursAt(haystack, needle, pos) && forall s :: OccursAt(haystack, needle, s) ==> s <= pos
    ensures comparisons <= 2 * |haystack|
  {
    hide ScannedR, TableEntryR, OccursAt;
    pos := NOT_FOUND;
    comparisons := 0;
    var n, m := |needle|, |haystack|;
    var j, i := m - 1, n - 1;
    ScanStartR(haystack, needle);
    while j >= 0 && j >= i
      invariant -1 <= j < m && 0 <= i < n && ScannedR(haystack, needle, i, j)
      invariant comparisons + (n - 1 - i) <= 2 * (m - 1 - j)
    {
      while i < n && needle[i] != haystack[j]
        invariant 0 <= i <= n && ScannedR(haystack, needle, i, j)
        invariant comparisons + (n - 1 - i) <= 2 * (m - 1 - j)
        decreases n - i
      {
        comparisons := comparisons + 1;
        assert TableEntryR(needle, i + 1, table[..][i + 1]);
        ScanFailR(haystack, needle, i, j, table[i + 1]);
        i := table[i + 1];
      }
      if i < n {
        comparisons := comparisons + 1;
      }
      ScanAdvanceR(haystack, needle, i, j);
      i := i - 1;
      j := j - 1;
      if i < 0 {
        pos := j + 1;
        break;
      }
    }
    ScanResultR(haystack, needle, i, j);
  }

  /**
   utstring_findR on the string s, from a start that counts from the end when negative, with the terminator when it
   starts there. A start past the terminator reads outside the string, unless the needle
   is empty or too long for the search to begin.
   */
  method FindR(s: string, start: int, needle: string) returns (pos: int, ghost comparisons: nat)
    requires start <= |s| || needle == "" || |needle| > start + 1
    ensures comparisons <= 3 * |needle| + 2 * (|s| + 1)
    ensures needle == "" ==> pos == -1
    ensures var last, text := if start < 0 then |s| + start else start, if start == |s| then s + ['\0'] else s;
      if pos == -1 then needle != "" ==> forall p :: p + |needle| - 1 <= last ==> !OccursAt(text, needle, p)
      else
        && pos + |needle| - 1 <= last && OccursAt(text, needle, pos)
        && forall p :: p + |needle| - 1 <= last && OccursAt(text, needle, p) ==> p <= pos
  {
    pos, comparisons := NOT_FOUND, 0;
    var last, text := if start < 0 then |s| + start else start, if start == |s| then s + ['\0'] else s;
    OccursFits(text, needle);
    hide OccursAt;
    if last + 1 >= |needle| && |needle| > 0 {
      var table := new int[|needle| + 1];
      ghost var building := BuildTableR(needle, table);
      OccursFits(text[..last + 1], needle);
      pos, comparisons := FindWithR(text[..last + 1], needle, table);
      comparisons := building + comparisons;
      forall p | p + |needle| - 1 <= last
        ensures OccursAt(text, needle, p) <==> OccursAt(text[..last + 1], needle, p)
      {
        OccursInPrefix(text, needle, last + 1, p);
      }
    }
  }
}
