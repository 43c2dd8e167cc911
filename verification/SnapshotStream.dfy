/**
 Streaming a snapshot: the sender reads the source in chunks, whatever short reads it
 gets, paces them, and pushes them into a channel; the receiver appends them to a file.
 */
module SnapshotStream {
  import opened Base
  import opened RateLimiter

  const SNAPSHOT_CHUNK_BYTES: nat := 256 * 1024

  /** Half the message cap, at least one byte, at most the fixed bound. */
  function ChunkBytes(maxMessageSize: nat): (chunk: nat)
    ensures 1 <= chunk <= SNAPSHOT_CHUNK_BYTES
    ensures maxMessageSize >= 2 ==> 2 * chunk <= maxMessageSize
  {
    var half := maxMessageSize / 2;
    if half < 1 then 1 else if half > SNAPSHOT_CHUNK_BYTES then SNAPSHOT_CHUNK_BYTES else half
  }

  /** It is the largest chunk that fits the bound and twice into a message; a message of one byte or none gets one. */
  lemma ChunkIsLargest(maxMessageSize: nat, c: nat)
    ensures 1 <= c <= 262144 && 2 * c <= maxMessageSize ==> c <= ChunkBytes(maxMessageSize)
    ensures ChunkBytes(maxMessageSize) <= 262144
    ensures if maxMessageSize < 2 then ChunkBytes(maxMessageSize) == 1
            else 2 * ChunkBytes(maxMessageSize) <= maxMessageSize
  {
  }

  // ---- The source and the channel ------------------------------------------------

  /** A source that hands out its bytes in any pieces, or fails. */
  class Source {
    const content: Bytes
    var pos: nat

    ghost predicate Valid()
      reads this
    {
      pos <= |content|
    }

    constructor (content: Bytes)
      ensures Valid() && this.content == content && pos == 0
    {
      this.content, pos := content, 0;
    }

    /** Fill some of `buf[from..to]`: nothing only at the end of the source. */
    method Read(buf: array<Byte>, from: nat, to: nat) returns (r: Result<nat, ()>)
      requires Valid() && from < to <= buf.Length
      modifies this`pos, buf
      ensures Valid() && old(pos) <= pos
      ensures r.Err? ==> pos == old(pos)
      ensures r.Ok? ==> pos == old(pos) + r.value && from + r.value <= to
      ensures r.Ok? ==> buf[..from + r.value] == old(buf[..from]) + content[old(pos)..pos]
      ensures r.Ok? ==> (r.value == 0 <==> old(pos) == |content|)
    {
      if * {
        return Err(());
      }
      var most := if to - from <= |content| - pos then to - from else |content| - pos;
      var n: nat := *;
      n := if most == 0 then 0 else if n < 1 then 1 else if n > most then most else n;
      for i := 0 to n
        invariant pos == old(pos)
        invariant buf[..from + i] == old(buf[..from]) + content[pos..pos + i]
      {
        buf[from + i] := content[pos + i];
      }
      pos := pos + n;
      return Ok(n);
    }
  }

  datatype Message = Data(bytes: Bytes) | Failure

  datatype Sent = Sent(time: real, message: Message)

  /** A channel whose receiver may go away; `log` is what it accepted and when. */
  class Channel {
    var open: bool
    var log: seq<Sent>

    constructor ()
      ensures open && log == []
    {
      open, log := true, [];
    }

    method Send(m: Message, clock: Clock) returns (ok: bool)
      modifies this, clock
      ensures clock.now >= old(clock.now)
      ensures ok ==> old(open) && open && log == old(log) + [Sent(clock.now, m)]
      ensures !ok ==> !open && log == old(log)
    {
      clock.Tick();
      if * {
        open := false;
      }
      if open {
        log := log + [Sent(clock.now, m)];
      }
      return open;
    }
  }

  // ---- What a stream delivers -----------------------------------------------------

  ghost function Delivered(log: seq<Sent>): Bytes {
    if log == [] then []
    else
      var last := log[|log| - 1].message;
      Delivered(log[..|log| - 1]) + if last.Data? then last.bytes else []
  }

  /** Every message is a chunk: not empty, within the chunk bound. */
  ghost predicate AllChunks(log: seq<Sent>, chunk: nat) {
    forall i :: 0 <= i < |log| ==> log[i].message.Data? && 0 < |log[i].message.bytes| <= chunk
  }

  lemma {:induction false} DeliveredOneMore(log: seq<Sent>, s: Sent)
    ensures Delivered(log + [s]) == Delivered(log) + if s.message.Data? then s.message.bytes else []
  {
    assert (log + [s])[..|log|] == log;
  }

  /** What has been delivered at any moment is a prefix of what is delivered in the end. */
  lemma {:induction false} DeliveredGrows(log: seq<Sent>, k: nat)
    requires k <= |log|
    ensures Delivered(log[..k]) <= Delivered(log)
  {
    if k < |log| {
      var front := log[..|log| - 1];
      DeliveredGrows(front, k);
      assert front[..k] == log[..k];
    } else {
      assert log[..k] == log;
    }
  }

  /** How a stream ends. */
  datatype End = Complete | ReadFailed | EndedEarly | ReceiverGone

  /** The accepted chunks, and after them the one error of a failed stream. */
  ghost predicate IsLog(log: seq<Sent>, chunks: seq<Sent>, end: End) {
    match end
    case Complete => log == chunks
    case ReceiverGone => log == chunks
    case _ => chunks <= log && |log| == |chunks| + 1 && log[|chunks|].message == Failure
  }

  /**
   What the receiver has at the end: a prefix of the source; the whole declared length
   exactly when the stream was complete, and the whole source when that ended early.
   */
  ghost predicate IsResult(content: Bytes, len: nat, delivered: Bytes, end: End) {
    && delivered <= content
    && (if end == Complete then |delivered| == len else |delivered| < len)
    && (end == EndedEarly ==> delivered == content)
  }

  // ---- Pacing what is sent ---------------------------------------------------------

  /** Each chunk was sent after its own release and before the next one. */
  ghost predicate InStep(start: real, h: seq<Release>, chunks: seq<Sent>) {
    && |h| == |chunks|
    && (forall i :: 0 <= i < |h| ==> start <= h[i].time <= chunks[i].time)
    && (forall i, j :: 0 <= i < j < |h| ==> chunks[i].time <= h[j].time)
    && (forall i :: 0 <= i < |h| ==> chunks[i].message.Data? && h[i].bytes == |chunks[i].message.bytes| as real)
  }

  lemma {:induction false} ReleasedIsDelivered(start: real, h: seq<Release>, chunks: seq<Sent>, i: nat, j: nat)
    requires InStep(start, h, chunks) && i <= j <= |h|
    ensures Total(h[i..j]) == |Delivered(chunks[i..j])| as real
  {
    if i < j {
      ReleasedIsDelivered(start, h, chunks, i, j - 1);
      assert h[i..j][..j - i - 1] == h[i..j - 1];
      assert chunks[i..j][..j - i - 1] == chunks[i..j - 1];
    }
  }

  /**
   At every moment a chunk is sent, the bytes sent so far are within the quota for the
   time since the start, and the bytes sent after any earlier chunk within the quota
   for the time since that chunk.
   */
  ghost predicate WithinQuota(start: real, chunks: seq<Sent>, burst: real, rate: real) {
    && (forall j :: 0 <= j < |chunks| ==>
         |Delivered(chunks[..j + 1])| as real <= Quota(burst, rate, chunks[j].time - start))
    && (forall i, j :: 0 <= i < j < |chunks| ==>
         |Delivered(chunks[i + 1..j + 1])| as real <= Quota(burst, rate, chunks[j].time - chunks[i].time))
  }

  lemma PacedStaysWithinQuota(start: real, h: seq<Release>, chunks: seq<Sent>, burst: real, rate: real)
    requires InStep(start, h, chunks) && Paced(h, burst, rate) && rate >= 0.0
    ensures WithinQuota(start, chunks, burst, rate)
  {
    hide Total, Delivered, Earned;
    forall j | 0 <= j < |chunks|
      ensures |Delivered(chunks[..j + 1])| as real <= Quota(burst, rate, chunks[j].time - start)
    {
      ReleasedIsDelivered(start, h, chunks, 0, j + 1);
      EarnedGrows(rate, h[j].time - h[0].time, chunks[j].time - start);
      assert Total(h[0..j + 1]) <= Quota(burst, rate, h[j].time - h[0].time);
    }
    forall i, j | 0 <= i < j < |chunks|
      ensures |Delivered(chunks[i + 1..j + 1])| as real <= Quota(burst, rate, chunks[j].time - chunks[i].time)
    {
      ReleasedIsDelivered(start, h, chunks, i + 1, j + 1);
      EarnedGrows(rate, h[j].time - h[i + 1].time, chunks[j].time - chunks[i].time);
      assert Total(h[i + 1..j + 1]) <= Quota(burst, rate, h[j].time - h[i + 1].time);
    }
  }

  // ---- The sender ------------------------------------------------------------------

  /** Read until the chunk is full or the source ends. */
  method FillChunk(source: Source, buf: array<Byte>, want: nat) returns (r: Result<nat, ()>)
    requires source.Valid() && 0 < want <= buf.Length
    modifies source`pos, buf
    ensures source.Valid() && old(source.pos) <= source.pos
    ensures r.Ok? ==> r.value <= want && source.pos == old(source.pos) + r.value
    ensures r.Ok? ==> buf[..r.value] == source.content[old(source.pos)..source.pos]
    ensures r.Ok? && r.value < want ==> source.pos == |source.content|
  {
    var filled := 0;
    while filled < want
      invariant source.Valid() && filled <= want && source.pos == old(source.pos) + filled
      invariant buf[..filled] == source.content[old(source.pos)..source.pos]
      decreases want - filled
    {
      ghost var before := source.pos;
      var got := source.Read(buf, filled, want);
      if got.Err? {
        return Err(());
      }
      if got.value == 0 {
        break;
      }
      filled := filled + got.value;
      assert source.content[old(source.pos)..before] + source.content[before..source.pos]
          == source.content[old(source.pos)..source.pos];
    }
    return Ok(filled);
  }

  lemma InStepOneMore(start: real, h: seq<Release>, chunks: seq<Sent>, r: Release, s: Sent)
    requires InStep(start, h, chunks)
    requires start <= r.time <= s.time && (forall i :: 0 <= i < |chunks| ==> chunks[i].time <= r.time)
    requires s.message.Data? && r.bytes == |s.message.bytes| as real
    ensures InStep(start, h + [r], chunks + [s])
  {
  }

  /** Everything sent so far was sent by `now`. */
  ghost predicate SentBy(chunks: seq<Sent>, now: real) {
    forall i :: 0 <= i < |chunks| ==> chunks[i].time <= now
  }

  /** Report a failure to the receiver, if there still is one. */
  method Fail(failure: End, channel: Channel, clock: Clock) returns (ghost end: End)
    requires failure == ReadFailed || failure == EndedEarly
    modifies channel, clock
    ensures end == if channel.open then failure else ReceiverGone
    ensures IsLog(channel.log, old(channel.log), end)
  {
    var ok := channel.Send(Failure, clock);
    end := if ok then failure else ReceiverGone;
  }

  /** Stream `len` bytes of the source. */
  method StreamSnapshot(source: Source, len: nat, rate: nat, chunk: nat, channel: Channel, clock: Clock)
    returns (ghost end: End, ghost chunks: seq<Sent>)
    requires source.Valid() && source.pos == 0 && chunk >= 1
    requires channel.open && channel.log == []
    modifies source`pos, channel, clock
    ensures IsLog(channel.log, chunks, end) && AllChunks(chunks, chunk)
    ensures IsResult(source.content, len, Delivered(chunks), end)
    ensures end == ReceiverGone <==> !channel.open
    ensures rate > 0 ==> WithinQuota(old(clock.now), chunks, chunk as real, rate as real)
  {
    hide Delivered, Paced, Budgeted, InStep, WithinQuota;
    var remaining := len;
    var limiter := new RateLimiter(rate, chunk, clock);
    var buf := new Byte[chunk];
    chunks := [];
    ghost var start := clock.now;
    NothingSent(start);
    while remaining > 0
      invariant source.Valid() && remaining == len - source.pos && remaining >= 0
      invariant channel.open && channel.log == chunks && AllChunks(chunks, chunk)
      invariant Delivered(chunks) == source.content[..source.pos]
      invariant limiter.Valid() && limiter.last <= clock.now && start <= clock.now && SentBy(chunks, clock.now)
      invariant rate > 0 ==> InStep(start, limiter.history, chunks)
      decreases remaining
    {
      ghost var from := source.pos;
      var want := if remaining < chunk then remaining else chunk;
      var filled := FillChunk(source, buf, want);
      if filled.Err? {
        end := Fail(ReadFailed, channel, clock);
        if rate > 0 {
          PacedStaysWithinQuota(start, limiter.history, chunks, chunk as real, rate as real);
        }
        return;
      }
      if filled.value == 0 {
        end := Fail(EndedEarly, channel, clock);
        if rate > 0 {
          PacedStaysWithinQuota(start, limiter.history, chunks, chunk as real, rate as real);
        }
        return;
      }
      ghost var released := limiter.history;
      var granted := limiter.Acquire(filled.value, clock, 1);
      var bytes := buf[..filled.value];
      ghost var at := limiter.last;
      var ok := channel.Send(Data(bytes), clock);
      if !ok {
        end := ReceiverGone;
        if rate > 0 {
          PacedStaysWithinQuota(start, released, chunks, chunk as real, rate as real);
        }
        return;
      }
      ghost var sent := Sent(clock.now, Data(bytes));
      DeliveredOneMore(chunks, sent);
      assert source.content[..from] + bytes == source.content[..source.pos];
      if rate > 0 {
        InStepOneMore(start, released, chunks, Release(at, filled.value as real), sent);
      }
      chunks := chunks + [sent];
      remaining := remaining - filled.value;
    }
    end := Complete;
    if rate > 0 {
      PacedStaysWithinQuota(start, limiter.history, chunks, chunk as real, rate as real);
    }
  }

  lemma NothingSent(start: real)
    ensures Delivered([]) == [] && InStep(start, [], [])
  {
  }

  // ---- The receiver -----------------------------------------------------------------

  /** Why a fetch fails: the file could not be created, written or flushed, or the stream reported an error. */
  datatype FetchError = FileFailed | StreamFailed

  /**
   Append chunks to a new file until the stream ends or reports an error, then flush it.
   The outcome of the file's operations is given: creating it, one write per chunk, and
   flushing it.
   */
  method FetchSnapshot(log: seq<Sent>, fileOk: nat -> bool) returns (r: Result<nat, FetchError>, file: Bytes)
    ensures r.Ok? <==>
            && (forall i :: 0 <= i < |log| ==> log[i].message.Data?)
            && (forall k: nat :: k <= |log| + 1 ==> fileOk(k))
    ensures r.Ok? ==> file == Delivered(log) && r.value == |file|
    ensures r == Err(StreamFailed) <==> exists i :: IsFirstFailure(log, i) && forall k: nat :: k <= i ==> fileOk(k)
    ensures file <= Delivered(log)
  {
    hide Delivered;
    var written := 0;
    file := [];
    NothingDelivered();
    if !fileOk(0) {
      return Err(FileFailed), file;
    }
    for i := 0 to |log|
      invariant forall k :: 0 <= k < i ==> log[k].message.Data?
      invariant forall k: nat :: k <= i ==> fileOk(k)
      invariant file == Delivered(log[..i]) && written == |file|
    {
      DeliveredOneMore(log[..i], log[i]);
      assert log[..i + 1] == log[..i] + [log[i]];
      DeliveredGrows(log, i);
      match log[i].message {
        case Data(bytes) =>
          if !fileOk(i + 1) {
            return Err(FileFailed), file;
          }
          file := file + bytes;
          written := written + |bytes|;
        case Failure =>
          assert IsFirstFailure(log, i);
          return Err(StreamFailed), file;
      }
    }
    assert log[..|log|] == log;
    if !fileOk(|log| + 1) {
      return Err(FileFailed), file;
    }
    return Ok(written), file;
  }

  lemma NothingDelivered()
    ensures Delivered([]) == []
  {
  }

  ghost predicate IsFirstFailure(log: seq<Sent>, i: int) {
    0 <= i < |log| && log[i].message == Failure && forall j :: 0 <= j < i ==> log[j].message.Data?
  }

  /**
   One transfer, end to end, to a receiver that stays. It succeeds only if the stream was
   complete, and then the file is the declared length of the source, byte for byte; it
   fails with the stream only if the stream failed; and otherwise the file failed.
   */
  method Transfer(
    source: Source, len: nat, rate: nat, maxMessageSize: nat, channel: Channel, clock: Clock, fileOk: nat -> bool)
    returns (r: Result<nat, FetchError>, file: Bytes, ghost end: End)
    requires source.Valid() && source.pos == 0
    requires channel.open && channel.log == []
    modifies source`pos, channel, clock
    ensures channel.open <==> end != ReceiverGone
    ensures channel.open && r.Ok? ==>
              end == Complete && r.value == len <= |source.content| && file == source.content[..len]
    ensures channel.open && r == Err(StreamFailed) ==>
              end == ReadFailed || (end == EndedEarly && |source.content| < len)
    ensures channel.open && (forall k :: fileOk(k)) ==> (r.Ok? <==> end == Complete) && r != Err(FileFailed)
    ensures file <= source.content
  {
    hide Delivered, WithinQuota;
    ghost var chunks;
    end, chunks := StreamSnapshot(source, len, rate, ChunkBytes(maxMessageSize), channel, clock);
    LogDelivers(channel.log, chunks, end);
    r, file := FetchSnapshot(channel.log, fileOk);
    if end == ReadFailed || end == EndedEarly {
      assert IsFirstFailure(channel.log, |chunks|);
    }
  }

  lemma {:induction false} LogDelivers(log: seq<Sent>, chunks: seq<Sent>, end: End)
    requires IsLog(log, chunks, end)
    ensures Delivered(log) == Delivered(chunks)
  {
    if |log| > |chunks| {
      var last := log[|chunks|];
      assert log == chunks + [last];
      DeliveredOneMore(chunks, last);
    }
  }
}
