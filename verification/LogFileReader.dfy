/** Reading the end of a log file through a pooled ring buffer (server/handlerlog.go, `readLogFile`). */
module LogFileReader {
  import opened Prelude
  import opened LogTail
  import opened Picking

  const LOG_MAX_FILE_SIZE: nat := 10 * 1024 * 1024

  /** A file as the reader meets it: `lines` are the lines the scanner yields before it ends or fails. */
  datatype LogFile =
    | CannotOpen
    | CannotStat
    | Opened(size: nat, lines: seq<Bytes>, scanFails: bool)

  datatype ReadError = OpenFailed | StatFailed | TooLarge(size: nat) | Cancelled | ScanFailed

  /** What stops the reader, if anything does: the context is found cancelled once `cancelledFrom` lines have
    * been scanned before. */
  function Obstacle(f: LogFile, cancelledFrom: nat): Option<ReadError> {
    match f
    case CannotOpen => Some(OpenFailed)
    case CannotStat => Some(StatFailed)
    case Opened(size, lines, scanFails) =>
      if size > LOG_MAX_FILE_SIZE then Some(TooLarge(size))
      else if cancelledFrom < |lines| then Some(Cancelled)
      else if scanFails then Some(ScanFailed)
      else None
  }

  /** `ring` after the lines `seen` were written: until it is full they stand at its front; from then on the
    * cell `pos` holds the oldest of the newest `|ring|` lines. */
  ghost predicate RingHolds(ring: seq<Bytes>, pos: nat, seen: seq<Bytes>) {
    && pos < |ring|
    && if |seen| < |ring| then pos == |seen| && ring[..pos] == seen
       else ring[pos..] + ring[..pos] == LastN(seen, |ring|)
  }

  lemma NextCell(pos: nat, n: nat)
    requires pos < n
    ensures (pos + 1) % n == if pos + 1 == n then 0 else pos + 1
  {
  }

  lemma RingWrite(ring: seq<Bytes>, pos: nat, seen: seq<Bytes>, line: Bytes)
    requires RingHolds(ring, pos, seen)
    ensures RingHolds(ring[pos := line], if pos + 1 == |ring| then 0 else pos + 1, seen + [line])
  {
    var n := |ring|;
    var next := ring[pos := line];
    if |seen| + 1 < n {
      assert next[..pos + 1] == seen + [line];
    } else if |seen| + 1 == n {
      assert next[0..] + next[..0] == seen + [line];
    } else {
      var at := if pos + 1 == n then 0 else pos + 1;
      var before := ring[pos..] + ring[..pos];
      assert next[at..] + next[..at] == before[1..] + [line];
      assert LastN(seen + [line], n) == LastN(seen, n)[1..] + [line];
    }
  }

  /** Copying the ring in order, oldest line first. */
  function Unrolled(ring: seq<Bytes>, pos: nat, count: nat): seq<Bytes>
    requires pos <= |ring|
  {
    if count < |ring| then ring[..count] else ring[pos..] + ring[..pos]
  }

  lemma MatchingOneMore(lines: seq<Bytes>, i: nat, search: Bytes, lower: Lowering)
    requires i < |lines|
    ensures Matching(lines[..i + 1], search, lower) ==
            if Matches(lines[i], search, lower) then Matching(lines[..i], search, lower) + [lines[i]]
            else Matching(lines[..i], search, lower)
  {
    assert lines[..i + 1][..i] == lines[..i];
  }

  /** The scanning loop of the reader. */
  method FillRing(ring: array<Bytes>, maxLines: nat, lines: seq<Bytes>, search: Bytes, lower: Lowering,
                  cancelledFrom: nat)
    returns (cancelled: bool, pos: nat, count: nat)
    requires 0 < maxLines <= ring.Length
    modifies ring
    ensures cancelled <==> cancelledFrom < |lines|
    ensures Picks(Matching(lines, search, lower), lines, Finds(search, lower))
    ensures !cancelled ==>
              && count == |Matching(lines, search, lower)|
              && RingHolds(ring[..maxLines], pos, Matching(lines, search, lower))
  {
    MatchingPicks(lines, search, lower);
    pos, count := 0, 0;
    var i: nat := 0;
    ghost var seen: seq<Bytes> := [];
    while i < |lines|
      invariant i <= |lines| && i <= cancelledFrom
      invariant seen == Matching(lines[..i], search, lower)
      invariant count == |seen| && RingHolds(ring[..maxLines], pos, seen)
    {
      if cancelledFrom <= i {
        return true, pos, count;
      }
      var line := lines[i];
      MatchingOneMore(lines, i, search, lower);
      i := i + 1;
      if search != [] && !Contains(lower(line), lower(search)) {
        continue;
      }
      ghost var before := ring[..maxLines];
      RingWrite(before, pos, seen, line);
      NextCell(pos, maxLines);
      ring[pos] := line;
      assert ring[..maxLines] == before[pos := line];
      seen := seen + [line];
      pos := (pos + 1) % maxLines;
      count := count + 1;
    }
    assert lines[..|lines|] == lines;
    return false, pos, count;
  }

  /** The pooled buffer may hold anything; the result lives in storage of its own, so that a later reader may
    * overwrite the buffer. */
  method ReadLogFile(f: LogFile, pooled: array<Bytes>, maxLines: nat, search: Bytes, maxBytes: int,
                     lower: Lowering, cancelledFrom: nat)
    returns (r: Result<array<Bytes>, ReadError>)
    requires maxLines > 0
    modifies pooled
    ensures r == Err(OpenFailed) <==> f.CannotOpen?
    ensures r == Err(StatFailed) <==> f.CannotStat?
    ensures f.Opened? ==> (r == Err(TooLarge(f.size)) <==> f.size > 10 * 1024 * 1024)
    ensures f.Opened? && f.size <= 10 * 1024 * 1024 ==> (r == Err(Cancelled) <==> cancelledFrom < |f.lines|)
    ensures f.Opened? && f.size <= 10 * 1024 * 1024 && cancelledFrom >= |f.lines| ==>
              (r == Err(ScanFailed) <==> f.scanFails) && (r.Ok? <==> !f.scanFails)
    ensures match Obstacle(f, cancelledFrom)
            case Some(e) => r == Err(e)
            case None =>
              && r.Ok? && fresh(r.value)
              && Picks(Matching(f.lines, search, lower), f.lines, Finds(search, lower))
              && Trimmed(r.value[..], LastN(Matching(f.lines, search, lower), maxLines), maxBytes)
  {
    if f.CannotOpen? {
      return Err(OpenFailed);
    }
    if f.CannotStat? {
      return Err(StatFailed);
    }
    if f.size > LOG_MAX_FILE_SIZE {
      return Err(TooLarge(f.size));
    }
    var fromPool := pooled.Length >= maxLines;
    var ring := pooled;
    if !fromPool {
      ring := new Bytes[maxLines](_ => []);
    }
    var cancelled, pos, count := FillRing(ring, maxLines, f.lines, search, lower, cancelledFrom);
    if cancelled {
      return Err(Cancelled);
    }
    if f.scanFails {
      return Err(ScanFailed);
    }
    var result := Unroll(ring, maxLines, pos, count);
    if maxBytes > 0 {
      result := TrimLinesToBytes(result, maxBytes);
    }
    return Ok(result);
  }

  method Unroll(ring: array<Bytes>, maxLines: nat, pos: nat, count: nat) returns (result: array<Bytes>)
    requires 0 < maxLines <= ring.Length && pos < maxLines
    ensures fresh(result) && result[..] == Unrolled(ring[..maxLines], pos, count)
  {
    if count < maxLines {
      result := new Bytes[count](k requires 0 <= k < count reads ring => ring[k]);
    } else {
      result := Rotate(ring, maxLines, pos);
    }
  }

  method Rotate(ring: array<Bytes>, maxLines: nat, pos: nat) returns (result: array<Bytes>)
    requires pos < maxLines <= ring.Length
    ensures fresh(result) && result[..] == ring[pos..maxLines] + ring[..pos]
  {
    var n := maxLines - pos;
    result := new Bytes[maxLines](k requires 0 <= k < maxLines reads ring =>
      if k < n then ring[pos + k] else ring[k - n]);
    assert result[..n] == ring[pos..maxLines] && result[n..] == ring[..pos];
  }
}
