/** Writing the event stream to a connection that may break at any byte (server/handlerstats.go,
  * `sseWriteEvent` and the write loop of `handleStatsSSE`). */
module SseWriter {
  import opened Prelude
  import opened SseWire

  /** A response that takes `room` more bytes and then fails. */
  class ResponseWriter {
    var sent: Bytes
    var room: nat
    var flushes: nat

    constructor (room: nat)
      ensures sent == [] && this.room == room && flushes == 0
    {
      sent, this.room, flushes := [], room, 0;
    }

    method Write(p: Bytes) returns (ok: bool)
      modifies this`sent, this`room
      ensures ok <==> |p| <= old(room)
      ensures ok ==> sent == old(sent) + p && room == old(room) - |p|
      ensures !ok ==> sent == old(sent) + p[..old(room)] && room == 0
    {
      if |p| <= room {
        sent := sent + p;
        room := room - |p|;
        return true;
      }
      sent := sent + p[..room];
      room := 0;
      return false;
    }

    method Flush()
      modifies this`flushes
      ensures flushes == old(flushes) + 1
    {
      flushes := flushes + 1;
    }
  }

  /** The frame goes out whole and is flushed once, or it is cut where the connection broke and not flushed. */
  method SseWriteEvent(w: ResponseWriter, json: Bytes) returns (ok: bool)
    modifies w
    ensures ok <==> |Frame(Payload(json))| <= old(w.room)
    ensures ok ==> w.sent == old(w.sent) + Frame(Payload(json)) && w.room == old(w.room) - |Frame(Payload(json))|
    ensures ok ==> w.flushes == old(w.flushes) + 1
    ensures !ok ==> w.sent == old(w.sent) + Frame(Payload(json))[..old(w.room)] && w.flushes == old(w.flushes)
  {
    ok := WriteParts(w, SSE_EVENT_PREFIX, json, SSE_EVENT_SUFFIX);
    if !ok {
      return;
    }
    w.Flush();
  }

  /** The three writes of a frame, given up at the first that fails. */
  method WriteParts(w: ResponseWriter, prefix: Bytes, json: Bytes, suffix: Bytes) returns (ok: bool)
    modifies w`sent, w`room
    ensures ok <==> |prefix + json + suffix| <= old(w.room)
    ensures ok ==> w.sent == old(w.sent) + (prefix + json + suffix) && w.room == old(w.room) - |prefix + json + suffix|
    ensures !ok ==> w.sent == old(w.sent) + (prefix + json + suffix)[..old(w.room)]
  {
    ghost var frame, room := prefix + json + suffix, w.room;
    ok := w.Write(prefix);
    if !ok {
      assert prefix[..room] == frame[..room];
      return;
    }
    ok := w.Write(json);
    if !ok {
      assert prefix + json[..room - |prefix|] == frame[..room];
      return;
    }
    ok := w.Write(suffix);
    if !ok {
      assert prefix + json + suffix[..room - |prefix| - |json|] == frame[..room];
    }
  }

  method WriteHeartbeat(w: ResponseWriter) returns (ok: bool)
    modifies w
    ensures ok <==> |Frame(Heartbeat)| <= old(w.room)
    ensures ok ==> w.sent == old(w.sent) + Frame(Heartbeat) && w.room == old(w.room) - |Frame(Heartbeat)|
    ensures ok ==> w.flushes == old(w.flushes) + 1
    ensures !ok ==> w.sent == old(w.sent) + Frame(Heartbeat)[..old(w.room)] && w.flushes == old(w.flushes)
  {
    ok := w.Write(HEARTBEAT_BYTES);
    if !ok {
      return;
    }
    w.Flush();
  }

  /** The handler's loop over the payloads and heartbeats that become due: it ends at the first failed write.
    * Wherever that is, the client has seen exactly the payloads of the `done` frames that went out whole. */
  method ServeStream(w: ResponseWriter, items: seq<Item>) returns (done: nat)
    requires w.sent == [] && Sendable(items)
    modifies w
    ensures done <= |items|
    ensures Read(w.sent) == Updates(items[..done])
    ensures w.flushes == old(w.flushes) + done
    ensures |Stream(items)| <= old(w.room) ==> done == |items|
  {
    done := 0;
    while done < |items|
      invariant done <= |items|
      invariant w.sent == Stream(items[..done])
      invariant w.flushes == old(w.flushes) + done
      invariant w.room + |Stream(items[..done])| == old(w.room)
    {
      ghost var before, room := w.sent, w.room;
      var ok: bool;
      match items[done] {
        case Payload(json) => ok := SseWriteEvent(w, json);
        case Heartbeat => ok := WriteHeartbeat(w);
      }
      StreamOneMore(items, done);
      if !ok {
        assert w.sent == Stream(items[..done]) + Frame(items[done])[..room];
        assert items[..done + 1][done] == items[done];
        ReadYieldsPayloads(items[..done], items[done], room);
        StreamPrefix(items, done + 1);
        return;
      }
      done := done + 1;
    }
    assert items[..done] == items;
    assert w.sent == Stream(items) + Frame(Heartbeat)[..0];
    ReadYieldsPayloads(items, Heartbeat, 0);
  }

  lemma {:induction false} StreamOneMore(items: seq<Item>, n: nat)
    requires n < |items|
    ensures Stream(items[..n + 1]) == Stream(items[..n]) + Frame(items[n])
    decreases n
  {
    if n == 0 {
      assert items[..1][1..] == [];
      assert items[..0] == [];
    } else {
      StreamOneMore(items[1..], n - 1);
      assert items[..n + 1][1..] == items[1..][..n];
      assert items[..n][1..] == items[1..][..n - 1];
      Regroup(Frame(items[0]), Stream(items[1..][..n - 1]), Frame(items[n]));
    }
  }

  lemma {:induction false} StreamPrefix(items: seq<Item>, n: nat)
    requires n <= |items|
    ensures |Stream(items[..n])| <= |Stream(items)|
    decreases |items| - n
  {
    if n == |items| {
      assert items[..n] == items;
    } else {
      StreamOneMore(items, n);
      StreamPrefix(items, n + 1);
    }
  }
}
