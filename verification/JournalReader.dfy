/** Reading the end of the systemd journal backwards (server/journal.go, `readJournalLog`).  The journal is an
  * abstract list of records, oldest first. */
module JournalReader {
  import opened Prelude
  import opened LogTail
  import opened Picking

  /** `data` is the MESSAGE field (`None` if it cannot be read), `stamp` the formatted time (`None` if the
    * record has none). */
  datatype JournalRecord = JournalRecord(data: Option<Bytes>, stamp: Option<Bytes>)

  /** `failsAfter` moves to a previous record succeed, then one fails (never, if there are not so many). */
  datatype Journal = Unavailable | Journal(records: seq<JournalRecord>, failsAfter: nat)

  datatype JournalError = NotAvailable | Cancelled | PreviousFailed

  /** The bytes of "MESSAGE=". */
  const MESSAGE_PREFIX: Bytes := [0x4D, 0x45, 0x53, 0x53, 0x41, 0x47, 0x45, 0x3D]

  function TrimMessagePrefix(data: Bytes): Bytes {
    if MESSAGE_PREFIX <= data then data[|MESSAGE_PREFIX|..] else data
  }

  predicate Shown(r: JournalRecord, search: Bytes, lower: Lowering) {
    r.data.Some? && Matches(TrimMessagePrefix(r.data.value), search, lower)
  }

  function Line(r: JournalRecord): Bytes
    requires r.data.Some?
  {
    if r.stamp.Some? then r.stamp.value + [0x20] + TrimMessagePrefix(r.data.value) else TrimMessagePrefix(r.data.value)
  }

  /** The lines of the matching records, oldest first. */
  function Lines(records: seq<JournalRecord>, search: Bytes, lower: Lowering): seq<Bytes> {
    if records == [] then []
    else
      var n := |records| - 1;
      if Shown(records[n], search, lower) then Lines(records[..n], search, lower) + [Line(records[n])]
      else Lines(records[..n], search, lower)
  }

  // ---------------------------------------------------------------- the scan from the newest record

  /** The lines met while stepping back from the end to record `i`, newest first. */
  function Backwards(records: seq<JournalRecord>, i: nat, search: Bytes, lower: Lowering): seq<Bytes>
    requires i <= |records|
    decreases |records| - i
  {
    if i == |records| then []
    else if Shown(records[i], search, lower) then Backwards(records, i + 1, search, lower) + [Line(records[i])]
    else Backwards(records, i + 1, search, lower)
  }

  function Reversed<T>(xs: seq<T>): (r: seq<T>)
    ensures |r| == |xs| && forall k :: 0 <= k < |xs| ==> r[k] == xs[|xs| - 1 - k]
  {
    seq(|xs|, k requires 0 <= k < |xs| => xs[|xs| - 1 - k])
  }

  /** Reversing the scan down to record `i` gives the lines from record `i` on. */
  lemma {:induction false} BackwardsReversed(records: seq<JournalRecord>, i: nat, search: Bytes, lower: Lowering)
    requires i <= |records|
    ensures Lines(records, search, lower)
            == Lines(records[..i], search, lower) + Reversed(Backwards(records, i, search, lower))
    decreases |records| - i
  {
    var later := Backwards(records, i, search, lower);
    if i == |records| {
      assert records[..i] == records;
      assert Reversed(later) == [];
    } else {
      BackwardsReversed(records, i + 1, search, lower);
      assert records[..i + 1][..i] == records[..i];
      var rest := Backwards(records, i + 1, search, lower);
      if Shown(records[i], search, lower) {
        assert Reversed(rest + [Line(records[i])]) == [Line(records[i])] + Reversed(rest);
      }
    }
  }

  /** When the scan stops because it has enough lines or no more records, its reversal is the tail. */
  lemma ScanIsTail(records: seq<JournalRecord>, i: nat, n: nat, search: Bytes, lower: Lowering)
    requires i <= |records|
    requires |Backwards(records, i, search, lower)| <= n
    requires |Backwards(records, i, search, lower)| == n || i == 0
    ensures Reversed(Backwards(records, i, search, lower)) == LastN(Lines(records, search, lower), n)
  {
    BackwardsReversed(records, i, search, lower);
    if i == 0 {
      assert records[..0] == [];
    }
  }

  // ---------------------------------------------------------------- when the scan is stopped

  /** What stops the scan that has stepped back to record `i` with `found` lines, if anything does; each
    * round looks at the context first. */
  function Obstacle(j: Journal, i: nat, maxLines: nat, search: Bytes, lower: Lowering, cancelledFrom: nat)
    : Option<JournalError>
    requires j.Journal? && i <= |j.records|
    decreases i
  {
    var done := |j.records| - i;
    if |Backwards(j.records, i, search, lower)| >= maxLines then None
    else if cancelledFrom <= done then Some(Cancelled)
    else if j.failsAfter <= done then Some(PreviousFailed)
    else if i == 0 then None
    else Obstacle(j, i - 1, maxLines, search, lower, cancelledFrom)
  }

  lemma {:induction false} BackwardsGrows(records: seq<JournalRecord>, i: nat, k: nat, search: Bytes, lower: Lowering)
    requires i <= k <= |records|
    ensures |Backwards(records, k, search, lower)| <= |Backwards(records, i, search, lower)|
    decreases k - i
  {
    if i < k {
      BackwardsGrows(records, i + 1, k, search, lower);
    }
  }

  /** The round in which the scan would be stopped. */
  function StopRound(j: Journal, cancelledFrom: nat): nat
    requires j.Journal?
  {
    if cancelledFrom <= j.failsAfter then cancelledFrom else j.failsAfter
  }

  /** The scan still lacks lines after its first `k` records. */
  predicate LacksAfter(j: Journal, k: nat, maxLines: nat, search: Bytes, lower: Lowering)
    requires j.Journal?
  {
    k <= |j.records| && |Backwards(j.records, |j.records| - k, search, lower)| < maxLines
  }

  lemma {:induction false} ObstacleFrom(j: Journal, i: nat, maxLines: nat, search: Bytes, lower: Lowering,
                                        cancelledFrom: nat)
    requires j.Journal? && i <= |j.records| && |j.records| - i <= StopRound(j, cancelledFrom)
    ensures Obstacle(j, i, maxLines, search, lower, cancelledFrom) ==
            if !LacksAfter(j, StopRound(j, cancelledFrom), maxLines, search, lower) then None
            else if cancelledFrom <= j.failsAfter then Some(Cancelled)
            else Some(PreviousFailed)
    decreases i
  {
    var k := StopRound(j, cancelledFrom);
    if k <= |j.records| {
      BackwardsGrows(j.records, |j.records| - k, i, search, lower);
    }
    if i > 0 && |j.records| - i < k {
      ObstacleFrom(j, i - 1, maxLines, search, lower, cancelledFrom);
    }
  }

  /** The scan is stopped exactly if it still lacks lines when the cancellation or the failure comes, whichever
    * is first; a cancellation in the same round goes first. */
  lemma ObstacleIff(j: Journal, maxLines: nat, search: Bytes, lower: Lowering, cancelledFrom: nat)
    requires j.Journal?
    ensures Obstacle(j, |j.records|, maxLines, search, lower, cancelledFrom) ==
            if !LacksAfter(j, StopRound(j, cancelledFrom), maxLines, search, lower) then None
            else if cancelledFrom <= j.failsAfter then Some(Cancelled)
            else Some(PreviousFailed)
  {
    ObstacleFrom(j, |j.records|, maxLines, search, lower, cancelledFrom);
  }

  /** Without a cancellation or a failure among the first `|records| + 1` rounds nothing stops the scan. */
  lemma NoObstacle(j: Journal, i: nat, maxLines: nat, search: Bytes, lower: Lowering, cancelledFrom: nat)
    requires j.Journal? && i <= |j.records| && cancelledFrom > |j.records| && j.failsAfter > |j.records|
    ensures Obstacle(j, i, maxLines, search, lower, cancelledFrom).None?
  {
    ObstacleFrom(j, i, maxLines, search, lower, cancelledFrom);
  }

  method ReadJournalLog(j: Journal, maxLines: nat, search: Bytes, maxBytes: int, lower: Lowering, cancelledFrom: nat)
    returns (r: Result<array<Bytes>, JournalError>)
    ensures j.Unavailable? ==> r == Err(NotAvailable)
    ensures j.Journal? ==>
              match Obstacle(j, |j.records|, maxLines, search, lower, cancelledFrom)
              case Some(e) => r == Err(e)
              case None =>
                && r.Ok? && fresh(r.value)
                && ListsRecords(Lines(j.records, search, lower), j.records, search, lower)
                && Trimmed(r.value[..], LastN(Lines(j.records, search, lower), maxLines), maxBytes)
  {
    if j.Unavailable? {
      return Err(NotAvailable);
    }
    LinesListRecords(j.records, search, lower);
    r := ReadTail(j, maxLines, search, lower, cancelledFrom);
    if r.Ok? && maxBytes > 0 {
      var lines := TrimLinesToBytes(r.value, maxBytes);
      r := Ok(lines);
    }
  }

  /** The reader before it trims. */
  method ReadTail(j: Journal, maxLines: nat, search: Bytes, lower: Lowering, cancelledFrom: nat)
    returns (r: Result<array<Bytes>, JournalError>)
    requires j.Journal?
    ensures match Obstacle(j, |j.records|, maxLines, search, lower, cancelledFrom)
            case Some(e) => r == Err(e)
            case None => r.Ok? && fresh(r.value) && r.value[..] == LastN(Lines(j.records, search, lower), maxLines)
  {
    var buffer := new Bytes[maxLines](_ => []);
    var stopped, n, i := ScanBackwards(j, buffer, search, lower, cancelledFrom);
    if stopped.Some? {
      return Err(stopped.value);
    }
    ScanIsTail(j.records, i, maxLines, search, lower);
    var lines := new Bytes[n](k requires 0 <= k < n reads buffer => buffer[k]);
    assert lines[..] == buffer[..n];
    ReverseInPlace(lines);
    return Ok(lines);
  }

  /** The loop of the reader: from the newest record back to record `i`, until the buffer is full. */
  method ScanBackwards(j: Journal, buffer: array<Bytes>, search: Bytes, lower: Lowering, cancelledFrom: nat)
    returns (stopped: Option<JournalError>, n: nat, ghost i: nat)
    requires j.Journal?
    modifies buffer
    ensures stopped == Obstacle(j, |j.records|, buffer.Length, search, lower, cancelledFrom)
    ensures i <= |j.records| && n <= buffer.Length
    ensures stopped.None? ==>
              buffer[..n] == Backwards(j.records, i, search, lower) && (n == buffer.Length || i == 0)
  {
    n := 0;
    var next := |j.records|;
    i := next;
    while n < buffer.Length
      invariant i == next <= |j.records| && n <= buffer.Length
      invariant buffer[..n] == Backwards(j.records, i, search, lower)
      invariant Obstacle(j, |j.records|, buffer.Length, search, lower, cancelledFrom)
                == Obstacle(j, i, buffer.Length, search, lower, cancelledFrom)
      decreases next, buffer.Length - n
    {
      if cancelledFrom <= |j.records| - next {
        return Some(Cancelled), n, i;
      }
      if j.failsAfter <= |j.records| - next {
        return Some(PreviousFailed), n, i;
      }
      if next == 0 {
        break;
      }
      next := next - 1;
      i := next;
      var rec := j.records[next];
      if rec.data.None? {
        continue;
      }
      var msg := TrimMessagePrefix(rec.data.value);
      if search != [] && !Contains(lower(msg), lower(search)) {
        continue;
      }
      var line := if rec.stamp.Some? then rec.stamp.value + [0x20] + msg else msg;
      buffer[n] := line;
      n := n + 1;
      assert buffer[..n] == buffer[..n - 1] + [line];
    }
    return None, n, i;
  }

  /** `slices.Reverse`. */
  method ReverseInPlace(a: array<Bytes>)
    modifies a
    ensures a[..] == Reversed(old(a[..]))
  {
    var i, k := 0, a.Length - 1;
    while i < k
      invariant 0 <= i <= k + 1 && i + k == a.Length - 1
      invariant forall x :: 0 <= x < i || k < x < a.Length ==> a[x] == old(a[a.Length - 1 - x])
      invariant forall x :: i <= x <= k ==> a[x] == old(a[x])
    {
      a[i], a[k] := a[k], a[i];
      i, k := i + 1, k - 1;
    }
  }

  // ---------------------------------------------------------------- the two readers agree

  /** The messages of the records that have one. */
  function Messages(records: seq<JournalRecord>): seq<Bytes> {
    if records == [] then []
    else
      var n := |records| - 1;
      if records[n].data.Some? then Messages(records[..n]) + [Message(records[n])]
      else Messages(records[..n])
  }

  function Message(r: JournalRecord): Bytes
    requires r.data.Some?
  {
    TrimMessagePrefix(r.data.value)
  }

  /** The records that match, oldest first. */
  function Selected(records: seq<JournalRecord>, search: Bytes, lower: Lowering): (r: seq<JournalRecord>)
    ensures forall k :: 0 <= k < |r| ==> r[k].data.Some?
  {
    if records == [] then []
    else
      var n := |records| - 1;
      if Shown(records[n], search, lower) then Selected(records[..n], search, lower) + [records[n]]
      else Selected(records[..n], search, lower)
  }

  lemma {:induction false} LinesAreSelected(records: seq<JournalRecord>, search: Bytes, lower: Lowering)
    ensures var lines, picked := Lines(records, search, lower), Selected(records, search, lower);
            |lines| == |picked| && forall k :: 0 <= k < |picked| ==> lines[k] == Line(picked[k])
  {
    if records != [] {
      LinesAreSelected(records[..|records| - 1], search, lower);
    }
  }

  lemma {:induction false} MatchingAreSelected(records: seq<JournalRecord>, search: Bytes, lower: Lowering)
    ensures var plain, picked := Matching(Messages(records), search, lower), Selected(records, search, lower);
            |plain| == |picked| && forall k :: 0 <= k < |picked| ==> plain[k] == Message(picked[k])
  {
    if records != [] {
      var n := |records| - 1;
      MatchingAreSelected(records[..n], search, lower);
      var before := Messages(records[..n]);
      if records[n].data.Some? {
        assert (before + [Message(records[n])])[..|before|] == before;
      }
    }
  }

  /** Both lists come from `picked`: one by the journal's formatting, the other by message alone. */
  predicate Show(journal: seq<Bytes>, file: seq<Bytes>, picked: seq<JournalRecord>) {
    && |journal| == |picked| == |file|
    && forall k :: 0 <= k < |picked| ==>
         picked[k].data.Some? && journal[k] == Line(picked[k]) && file[k] == Message(picked[k])
  }

  lemma TailsShow(journal: seq<Bytes>, file: seq<Bytes>, picked: seq<JournalRecord>, n: nat)
    requires Show(journal, file, picked)
    ensures Show(LastN(journal, n), LastN(file, n), LastN(picked, n))
  {
    if |picked| > n {
      ShowSuffix(journal, file, picked, |picked| - n);
    }
  }

  lemma ShowSuffix(journal: seq<Bytes>, file: seq<Bytes>, picked: seq<JournalRecord>, skip: nat)
    requires Show(journal, file, picked) && skip <= |picked|
    ensures Show(journal[skip..], file[skip..], picked[skip..])
  {
    forall k | 0 <= k < |picked| - skip
      ensures picked[skip..][k].data.Some?
      ensures journal[skip..][k] == Line(picked[skip..][k]) && file[skip..][k] == Message(picked[skip..][k])
    {
      assert picked[skip..][k] == picked[skip + k];
    }
  }

  /** For a file that holds the messages of the journal's records, both readers list the same records: the
    * journal reader each record's line, the file reader the same record's message, in the same order. */
  lemma ReadersAgree(records: seq<JournalRecord>, n: nat, search: Bytes, lower: Lowering)
    ensures Show(LastN(Lines(records, search, lower), n), LastN(Matching(Messages(records), search, lower), n),
                 LastN(Selected(records, search, lower), n))
  {
    LinesAreSelected(records, search, lower);
    MatchingAreSelected(records, search, lower);
    TailsShow(Lines(records, search, lower), Matching(Messages(records), search, lower),
              Selected(records, search, lower), n);
  }

  // ---------------------------------------------------------------- which records match, and what their lines say

  /** What follows "MESSAGE=" in the record's data, or all of it without that. */
  predicate HasMessage(r: JournalRecord, m: Bytes) {
    var prefix: Bytes := [0x4D, 0x45, 0x53, 0x53, 0x41, 0x47, 0x45, 0x3D];
    r.data == Some(prefix + m) || (r.data == Some(m) && !(prefix <= m))
  }

  lemma MessageIff(r: JournalRecord, m: Bytes)
    ensures HasMessage(r, m) <==> r.data.Some? && m == Message(r)
  {
    if r.data == Some(MESSAGE_PREFIX + m) {
      assert (MESSAGE_PREFIX + m)[8..] == m;
    } else if r.data.Some? && MESSAGE_PREFIX <= r.data.value {
      assert r.data.value == MESSAGE_PREFIX + r.data.value[8..];
    }
  }

  ghost predicate IsFound(r: JournalRecord, search: Bytes, lower: Lowering) {
    exists m :: HasMessage(r, m) && Occurs(m, search, lower)
  }

  ghost function FindsRecord(search: Bytes, lower: Lowering): JournalRecord -> bool {
    (r: JournalRecord) => IsFound(r, search, lower)
  }

  lemma ShownIffFound(r: JournalRecord, search: Bytes, lower: Lowering)
    ensures Shown(r, search, lower) <==> IsFound(r, search, lower)
  {
    if r.data.Some? {
      MessageIff(r, Message(r));
      MatchesIffOccurs(Message(r), search, lower);
    }
    if m :| HasMessage(r, m) && Occurs(m, search, lower) {
      MessageIff(r, m);
    }
  }

  lemma SelectedOfOneMore(records: seq<JournalRecord>, r: JournalRecord, search: Bytes, lower: Lowering)
    ensures Selected(records + [r], search, lower) ==
            if FindsRecord(search, lower)(r) then Selected(records, search, lower) + [r]
            else Selected(records, search, lower)
  {
    ShownIffFound(r, search, lower);
    assert (records + [r])[..|records|] == records;
  }

  lemma SelectedPicksOneMore(records: seq<JournalRecord>, r: JournalRecord, at: seq<nat>, search: Bytes,
                             lower: Lowering)
      returns (more: seq<nat>)
    requires PicksAt(Selected(records, search, lower), at, records, FindsRecord(search, lower))
    ensures PicksAt(Selected(records + [r], search, lower), more, records + [r], FindsRecord(search, lower))
  {
    more := PicksOfOneMore(Selected(records, search, lower), at, records, r, FindsRecord(search, lower));
    SelectedOfOneMore(records, r, search, lower);
  }

  lemma {:induction false} SelectedPicksAt(records: seq<JournalRecord>, search: Bytes, lower: Lowering)
      returns (at: seq<nat>)
    ensures PicksAt(Selected(records, search, lower), at, records, FindsRecord(search, lower))
  {
    if records == [] {
      at := [];
      PicksOfNone(FindsRecord(search, lower));
    } else {
      var first, last := records[..|records| - 1], records[|records| - 1];
      at := SelectedPicksAt(first, search, lower);
      at := SelectedPicksOneMore(first, last, at, search, lower);
      assert first + [last] == records;
    }
  }

  /** The line of a record: its time stamp, if it has one, a space, and its message. */
  predicate IsLineOf(line: Bytes, r: JournalRecord, m: Bytes) {
    HasMessage(r, m) && line == if r.stamp.Some? then r.stamp.value + [0x20] + m else m
  }

  predicate AreLinesOf(lines: seq<Bytes>, picked: seq<JournalRecord>, messages: seq<Bytes>) {
    |lines| == |picked| == |messages| && forall k :: 0 <= k < |picked| ==> IsLineOf(lines[k], picked[k], messages[k])
  }

  /** The lines are those of exactly the records whose message holds the search, in order, and say when and what. */
  ghost predicate ListsRecords(lines: seq<Bytes>, records: seq<JournalRecord>, search: Bytes, lower: Lowering) {
    exists picked, messages :: Picks(picked, records, FindsRecord(search, lower)) && AreLinesOf(lines, picked, messages)
  }

  lemma SelectedLines(lines: seq<Bytes>, picked: seq<JournalRecord>) returns (messages: seq<Bytes>)
    requires |lines| == |picked|
    requires forall k :: 0 <= k < |picked| ==> picked[k].data.Some? && lines[k] == Line(picked[k])
    ensures AreLinesOf(lines, picked, messages)
  {
    messages := seq(|picked|, k requires 0 <= k < |picked| => Message(picked[k]));
    forall k | 0 <= k < |picked| ensures IsLineOf(lines[k], picked[k], messages[k]) {
      MessageIff(picked[k], messages[k]);
    }
  }

  lemma LinesListRecords(records: seq<JournalRecord>, search: Bytes, lower: Lowering)
    ensures ListsRecords(Lines(records, search, lower), records, search, lower)
  {
    var at := SelectedPicksAt(records, search, lower);
    LinesAreSelected(records, search, lower);
    var messages := SelectedLines(Lines(records, search, lower), Selected(records, search, lower));
  }
}
