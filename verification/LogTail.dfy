/** The last matching lines of a log, cut to a number of bytes: the specification that the file reader and
  * the journal reader share (server/handlerlog.go, server/journal.go). */
module LogTail {
  import opened Prelude
  import opened Picking

  type Lowering = Bytes -> Bytes

  predicate OccursAt(s: Bytes, sub: Bytes, i: nat) {
    i + |sub| <= |s| && s[i..i + |sub|] == sub
  }

  predicate Contains(s: Bytes, sub: Bytes) {
    exists i :: 0 <= i <= |s| && OccursAt(s, sub, i)
  }

  /** An empty search matches every line; `lower` stands for Go's `strings.ToLower`. */
  predicate Matches(line: Bytes, search: Bytes, lower: Lowering) {
    search == [] || Contains(lower(line), lower(search))
  }

  function Matching(lines: seq<Bytes>, search: Bytes, lower: Lowering): seq<Bytes> {
    if lines == [] then []
    else
      var n := |lines| - 1;
      if Matches(lines[n], search, lower) then Matching(lines[..n], search, lower) + [lines[n]]
      else Matching(lines[..n], search, lower)
  }

  function LastN<T>(xs: seq<T>, n: nat): (r: seq<T>)
    ensures |r| == if |xs| < n then |xs| else n
  {
    if |xs| <= n then xs else xs[|xs| - n..]
  }

  // ---------------------------------------------------------------- which lines match

  /** The search is somewhere in the text, apart from the case of letters. */
  ghost predicate Occurs(text: Bytes, search: Bytes, lower: Lowering) {
    search == [] || exists a, b :: lower(text) == a + lower(search) + b
  }

  lemma MatchesIffOccurs(text: Bytes, search: Bytes, lower: Lowering)
    ensures Matches(text, search, lower) <==> Occurs(text, search, lower)
  {
    var s, sub := lower(text), lower(search);
    if Contains(s, sub) {
      var i :| 0 <= i <= |s| && OccursAt(s, sub, i);
      assert s == s[..i] + sub + s[i + |sub|..];
    }
    if a, b :| s == a + sub + b {
      assert OccursAt(s, sub, |a|);
    }
  }

  ghost function Finds(search: Bytes, lower: Lowering): Bytes -> bool {
    (text: Bytes) => Occurs(text, search, lower)
  }

  lemma MatchingOfOneMore(lines: seq<Bytes>, line: Bytes, search: Bytes, lower: Lowering)
    ensures Matching(lines + [line], search, lower) ==
            if Finds(search, lower)(line) then Matching(lines, search, lower) + [line]
            else Matching(lines, search, lower)
  {
    MatchesIffOccurs(line, search, lower);
    assert (lines + [line])[..|lines|] == lines;
  }

  lemma {:induction false} MatchingPicksAt(lines: seq<Bytes>, search: Bytes, lower: Lowering, has: Bytes -> bool)
      returns (at: seq<nat>)
    requires has == Finds(search, lower)
    ensures PicksAt(Matching(lines, search, lower), at, lines, has)
  {
    if lines == [] {
      at := [];
      PicksOfNone(has);
    } else {
      var first, last := lines[..|lines| - 1], lines[|lines| - 1];
      at := MatchingPicksAt(first, search, lower, has);
      at := PicksOfOneMore(Matching(first, search, lower), at, first, last, has);
      MatchingOfOneMore(first, last, search, lower);
      assert first + [last] == lines;
    }
  }

  /** All lines that match are there, as often as they are in the log and in its order, and no others. */
  lemma MatchingPicks(lines: seq<Bytes>, search: Bytes, lower: Lowering)
    ensures Picks(Matching(lines, search, lower), lines, Finds(search, lower))
  {
    var at := MatchingPicksAt(lines, search, lower, Finds(search, lower));
  }

  lemma SameFinds(text: Bytes, s: Bytes, t: Bytes, lower: Lowering)
    requires lower(s) == lower(t) && lower([]) == []
    ensures Occurs(text, s, lower) <==> Occurs(text, t, lower)
  {
    assert lower(text) == [] + [] + lower(text);
  }

  /** Searches that differ only in case find the same lines. */
  lemma {:induction false} CaseDoesNotMatter(lines: seq<Bytes>, s: Bytes, t: Bytes, lower: Lowering)
    requires lower(s) == lower(t) && lower([]) == []
    ensures Matching(lines, s, lower) == Matching(lines, t, lower)
  {
    if lines != [] {
      var first, last := lines[..|lines| - 1], lines[|lines| - 1];
      CaseDoesNotMatter(first, s, t, lower);
      SameFinds(last, s, t, lower);
      MatchingOfOneMore(first, last, s, lower);
      MatchingOfOneMore(first, last, t, lower);
      assert first + [last] == lines;
    }
  }

  // ---------------------------------------------------------------- cutting to a number of bytes

  function TotalBytes(lines: seq<Bytes>): nat {
    if lines == [] then 0 else |lines[0]| + TotalBytes(lines[1..])
  }

  /** The bytes of "[日志输出过大，已截断]". */
  const TRUNCATION_MARKER: Bytes := [
    0x5B, 0xE6, 0x97, 0xA5, 0xE5, 0xBF, 0x97, 0xE8, 0xBE, 0x93, 0xE5, 0x87, 0xBA, 0xE8, 0xBF, 0x87,
    0xE5, 0xA4, 0xA7, 0xEF, 0xBC, 0x8C, 0xE5, 0xB7, 0xB2, 0xE6, 0x88, 0xAA, 0xE6, 0x96, 0xAD, 0x5D]

  predicate Fits(lines: seq<Bytes>, start: nat, maxBytes: int)
    requires start <= |lines|
  {
    TotalBytes(lines[start..]) <= maxBytes
  }

  /** The longest suffix that fits begins at `start`. */
  predicate LongestFit(lines: seq<Bytes>, start: nat, maxBytes: int) {
    && start <= |lines|
    && Fits(lines, start, maxBytes)
    && forall s :: 0 <= s < start ==> !Fits(lines, s, maxBytes)
  }

  /** All lines, if there is no limit or not even the last line fits; otherwise the longest suffix that fits,
    * behind a marker if that leaves something out. */
  predicate Trimmed(r: seq<Bytes>, lines: seq<Bytes>, maxBytes: int) {
    if maxBytes <= 0 || lines == [] || |lines[|lines| - 1]| > maxBytes then
      r == lines
    else
      exists start :: 0 <= start < |lines| && LongestFit(lines, start, maxBytes)
        && r == if start == 0 then lines else [TRUNCATION_MARKER] + lines[start..]
  }

  lemma {:induction false} LongerSuffixIsLarger(lines: seq<Bytes>, a: nat, b: nat)
    requires a <= b <= |lines|
    ensures TotalBytes(lines[b..]) <= TotalBytes(lines[a..])
    decreases b - a
  {
    if a < b {
      assert lines[a..][1..] == lines[a + 1..];
      LongerSuffixIsLarger(lines, a + 1, b);
    }
  }

  /** A trimmed list is never longer than what was trimmed, and apart from its marker a suffix of it. */
  lemma TrimmedIsMarkedSuffix(r: seq<Bytes>, lines: seq<Bytes>, maxBytes: int)
    requires Trimmed(r, lines, maxBytes)
    ensures |r| <= |lines|
    ensures r == lines
            || exists start :: 0 < start < |lines| && r == [TRUNCATION_MARKER] + lines[start..]
                               && TotalBytes(lines[start..]) <= maxBytes < TotalBytes(lines[start - 1..])
  {
    if r != lines {
      var start :| 0 <= start < |lines| && LongestFit(lines, start, maxBytes)
        && r == if start == 0 then lines else [TRUNCATION_MARKER] + lines[start..];
      assert !Fits(lines, start - 1, maxBytes);
    }
  }

  /** When there is a limit that the last line meets, everything is returned exactly if everything fits;
    * otherwise the marker leads and the lines behind it fit. */
  lemma MarkerExactlyWhenCut(r: seq<Bytes>, lines: seq<Bytes>, maxBytes: int)
    requires Trimmed(r, lines, maxBytes)
    requires maxBytes > 0 && lines != [] && |lines[|lines| - 1]| <= maxBytes
    ensures TotalBytes(lines) <= maxBytes ==> r == lines
    ensures TotalBytes(lines) > maxBytes ==>
              && |r| >= 2 && r[0] == TRUNCATION_MARKER
              && r[|r| - 1] == lines[|lines| - 1]
              && TotalBytes(r[1..]) <= maxBytes
  {
    var start :| 0 <= start < |lines| && LongestFit(lines, start, maxBytes)
      && r == if start == 0 then lines else [TRUNCATION_MARKER] + lines[start..];
    assert lines[0..] == lines;
    assert start > 0 ==> !Fits(lines, 0, maxBytes) && r[1..] == lines[start..];
  }

  /** Trimming determines its result. */
  lemma TrimmedIsUnique(r: seq<Bytes>, q: seq<Bytes>, lines: seq<Bytes>, maxBytes: int)
    requires Trimmed(r, lines, maxBytes) && Trimmed(q, lines, maxBytes)
    ensures r == q
  {
  }

  /** The lines that trimLinesToBytes returns share no storage with the argument, unless it returns the
    * argument itself. */
  method TrimLinesToBytes(lines: array<Bytes>, maxBytes: int) returns (r: array<Bytes>)
    ensures r == lines || fresh(r)
    ensures Trimmed(r[..], lines[..], maxBytes)
  {
    if maxBytes <= 0 || lines.Length == 0 {
      return lines;
    }
    ghost var all := lines[..];
    var start := lines.Length;
    var used := 0;
    var i := lines.Length;
    while i > 0
      invariant 0 <= i <= lines.Length && start == i
      invariant used == TotalBytes(all[i..]) <= maxBytes
      decreases i
    {
      i := i - 1;
      assert all[i..][1..] == all[i + 1..];
      used := used + |lines[i]|;
      if used > maxBytes {
        break;
      }
      start := i;
    }
    FirstThatFits(all, start, maxBytes);
    if start > 0 && start < lines.Length {
      var n := lines.Length - start;
      r := new Bytes[n + 1](k requires 0 <= k <= n reads lines =>
        if k == 0 then TRUNCATION_MARKER else lines[start + k - 1]);
      assert r[..] == [TRUNCATION_MARKER] + all[start..];
      LastLineAlone(all);
      LongerSuffixIsLarger(all, start, |all| - 1);
      assert LongestFit(all, start, maxBytes);
      return;
    }
    LastLineAlone(all);
    return lines;
  }

  lemma FirstThatFits(lines: seq<Bytes>, start: nat, maxBytes: int)
    requires start <= |lines| && Fits(lines, start, maxBytes)
    requires start > 0 ==> !Fits(lines, start - 1, maxBytes)
    ensures LongestFit(lines, start, maxBytes)
  {
    forall s | 0 <= s < start ensures !Fits(lines, s, maxBytes) {
      LongerSuffixIsLarger(lines, s, start - 1);
    }
  }

  lemma LastLineAlone(lines: seq<Bytes>)
    requires lines != []
    ensures TotalBytes(lines[|lines| - 1..]) == |lines[|lines| - 1]|
  {
    var last := lines[|lines| - 1..];
    assert last[1..] == [];
  }
}
