/** The per-artifact download task of network/DownloadTask.kt and the events it
    emits (network/DownloadEvent.kt).

    The download task owns one file and at most one transfer job. The job is a coroutine:
    `start` and `resume` only launch it; it then runs in two steps that this model
    names after what they do: `EnterJob` (offset, Range header, the announce event,
    the content-length probe and the connection) and `Deliver` (the write loop over
    what the response stream returns). Between those steps the job is blocked in
    `read`, which is where a `pause` or `purge` can cancel it. */
module Download {
  import opened Wrappers
  import opened KotlinText

  newtype byte = b: int | 0 <= b < 256

  /** Progress as the exact pair (bytesWritten + start, contentLength) whose
      quotient the source emits. */
  datatype Progress = Progress(written: nat, total: nat)

  /** Why a transfer attempt failed. */
  datatype Cause = NoContentLength | IoFailure(message: string)

  /** DownloadEvent. DownloadTask.kt:60 calls the progress event `Progressed`;
      it is the `Downloading` variant of DownloadEvent.kt:4. */
  datatype DownloadEvent =
    | Downloading(progress: Progress)
    | Purged | Paused | Resumed | Created
    | StartCreating | StartResuming | StartPurging | StartPausing
    | Downloaded | StartWaitingRetry
    | Failed(cause: Cause)

  /** The events `DownloadTask` itself emits. The `Start…` announcements and
      `StartWaitingRetry` are declared but never emitted. */
  predicate TaskEvent(e: DownloadEvent) {
    e.Downloading? || e.Failed? || e == Created || e == Resumed || e == Paused || e == Purged || e == Downloaded
  }

  /** The `IllegalStateException`s that `error(...)` raises on a call out of sequence. */
  datatype TaskError = TaskFinished | AlreadyCreated | AlreadyPaused | NotPaused

  /** The `notify` callback a job was launched with: `start`'s or `resume`'s. */
  datatype Notify = AnnounceCreated | AnnounceResumed

  /** Where the job coroutine stands: launched but not yet run, or blocked in
      `read` inside the write loop with its `start` offset, the probed content
      length and its `bytesWritten` counter. */
  datatype Job = Launched(notify: Notify) | Reading(start: nat, contentLength: nat, bytesWritten: nat)

  /** The outcome of `httpClient.newCall(request).await()`: a response with a
      body, one without a body (the write loop is skipped), or an IOException. */
  datatype Connection = Connected | NoBody | ConnectFailed(message: string)

  /** One call of `read(buffer)` on the response stream: some bytes, -1, or an IOException. */
  datatype ReadResult = Chunk(bytes: seq<byte>) | EndOfStream | ReadFailed(message: string)

  /** The ranged GET request a job builds. */
  datatype Request = Request(url: string, range: string)

  /** The value of the `RANGE` header: `bytes=<start>-`. */
  function RangeHeader(start: nat): string {
    "bytes=" + NatToString(start) + "-"
  }

  /** The header asks for the suffix of the resource from `start` on: between
      `bytes=` and the closing dash stands the decimal numeral of `start`. */
  lemma RangeHeaderNamesOffset(start: nat)
    ensures var h := RangeHeader(start);
      && "bytes=" <= h && |h| > 7 && h[|h| - 1] == '-'
      && AllDigits(h[6..|h| - 1]) && DigitsValue(h[6..|h| - 1]) == start
  {
    var h := RangeHeader(start);
    assert h[6..|h| - 1] == NatToString(start);
    DigitsValueOfNatToString(start);
  }

  /** `RandomAccessFile.write` at position `pos`: the bytes of `b` replace those
      at `pos` and beyond, and the file grows when they reach past its end. */
  function WriteAt(f: seq<byte>, pos: nat, b: seq<byte>): (r: seq<byte>)
    requires pos <= |f|
    ensures |r| == if pos + |b| < |f| then |f| else pos + |b|
    ensures forall i :: 0 <= i < |r| ==> r[i] == if pos <= i < pos + |b| then b[i - pos] else f[i]
  {
    f[..pos] + b + (if pos + |b| < |f| then f[pos + |b|..] else [])
  }

  /** Writing at the end of the file appends. */
  lemma WriteAtEnd(f: seq<byte>, b: seq<byte>)
    ensures WriteAt(f, |f|, b) == f + b
  {
    assert forall i :: 0 <= i < |f| + |b| ==> WriteAt(f, |f|, b)[i] == (f + b)[i];
  }

  /** The chunks the write loop writes: those read before the first `-1` or failure. */
  function Written(stream: seq<ReadResult>): seq<seq<byte>> {
    if stream == [] || !stream[0].Chunk? then [] else [stream[0].bytes] + Written(stream[1..])
  }

  function Concat(chunks: seq<seq<byte>>): seq<byte> {
    if chunks == [] then [] else chunks[0] + Concat(chunks[1..])
  }

  /** The reads finish the stream: one of them is `-1` or a failure. */
  predicate Ends(stream: seq<ReadResult>) {
    stream != [] && (!stream[0].Chunk? || Ends(stream[1..]))
  }

  /** The events the write loop emits for `stream` when `pos` bytes are already in
      the file: one progress event per chunk written, then `Downloaded` at `-1`
      or `Failed` on a failed read. */
  function DeliverEvents(pos: nat, total: nat, stream: seq<ReadResult>): seq<DownloadEvent>
    decreases |stream|
  {
    if stream == [] then []
    else match stream[0]
      case Chunk(b) => [Downloading(Progress(pos + |b|, total))] + DeliverEvents(pos + |b|, total, stream[1..])
      case EndOfStream => [Downloaded]
      case ReadFailed(m) => [Failed(IoFailure(m))]
  }

  /** The write loop's functions, one read at a time. */
  lemma DeliverStep(pos: nat, total: nat, stream: seq<ReadResult>)
    requires stream != []
    ensures stream[0].Chunk? ==> (
      && Concat(Written(stream)) == stream[0].bytes + Concat(Written(stream[1..]))
      && DeliverEvents(pos, total, stream)
         == [Downloading(Progress(pos + |stream[0].bytes|, total))] + DeliverEvents(pos + |stream[0].bytes|, total, stream[1..])
      && (Ends(stream) <==> Ends(stream[1..])))
    ensures !stream[0].Chunk? ==> Written(stream) == [] && Ends(stream)
    ensures stream[0].EndOfStream? ==> DeliverEvents(pos, total, stream) == [Downloaded]
    ensures stream[0].ReadFailed? ==> DeliverEvents(pos, total, stream) == [Failed(IoFailure(stream[0].message))]
  {
  }

  class DownloadTask {
    const url: string
    const path: string
    /** The contents of the download task's file; a file that does not exist is empty. */
    var file: seq<byte>
    var job: Option<Job>
    var created: bool
    var finished: bool
    /** Every event emitted on `eventFlow`, oldest first. */
    var events: seq<DownloadEvent>

    /** `finished` is never set, a job launched by `start` runs before `created`
        is set and one launched by `resume` after, a job in its write loop has
        written exactly the bytes from its start offset to the file's end, and
        only events the download task emits are on its flow. */
    ghost predicate Valid()
      reads this
    {
      && !finished
      && (forall i :: 0 <= i < |events| ==> TaskEvent(events[i]))
      && match job
         case None => true
         case Some(Launched(n)) => created <==> n == AnnounceResumed
         case Some(Reading(start, _, bytesWritten)) => created && |file| == start + bytesWritten
    }

    constructor (url: string, path: string, onDisk: seq<byte>)
      ensures Valid()
      ensures this.url == url && this.path == path && file == onDisk
      ensures job == None && !created && !finished && events == []
    {
      this.url := url;
      this.path := path;
      file := onDisk;
      job := None;
      created := false;
      finished := false;
      events := [];
    }

    /** `assertNotFinished`: throws once the download task is finished, which a valid
        task never is. */
    function AssertNotFinished(): (r: Outcome<TaskError>)
      reads this
      ensures r.Fail? <==> finished
      ensures Valid() ==> r == Pass
    {
      if finished then Fail(TaskFinished) else Pass
    }

    /** `clear`. */
    method Clear()
      modifies this
      ensures job == None && !finished
      ensures file == old(file) && created == old(created) && events == old(events)
    {
      job := None;
      finished := false;
    }

    /** `createJob`: launches the job coroutine; its body runs later (EnterJob). */
    method CreateJob(notify: Notify)
      modifies this
      ensures job == Some(Launched(notify))
      ensures file == old(file) && created == old(created) && finished == old(finished) && events == old(events)
    {
      job := Some(Launched(notify));
    }

    /** `start`: only a task that was never created and has no job may start. */
    method Start() returns (r: Outcome<TaskError>)
      requires Valid()
      modifies this
      ensures Valid()
      ensures r == if old(created) || old(job).Some? then Fail(AlreadyCreated) else Pass
      ensures r.Pass? ==> job == Some(Launched(AnnounceCreated))
      ensures r.Fail? ==> job == old(job)
      ensures file == old(file) && created == old(created) && events == old(events)
    {
      r := AssertNotFinished();
      if r.Fail? {
        return;
      }
      if created || job.Some? {
        return Fail(AlreadyCreated);
      }
      CreateJob(AnnounceCreated);
    }

    /** `resume`: only a created task without a job (a paused one) may resume. */
    method Resume() returns (r: Outcome<TaskError>)
      requires Valid()
      modifies this
      ensures Valid()
      ensures r == if !old(created) || old(job).Some? then Fail(NotPaused) else Pass
      ensures r.Pass? ==> job == Some(Launched(AnnounceResumed))
      ensures r.Fail? ==> job == old(job)
      ensures file == old(file) && created == old(created) && events == old(events)
    {
      r := AssertNotFinished();
      if r.Fail? {
        return;
      }
      if !created || job.Some? {
        return Fail(NotPaused);
      }
      CreateJob(AnnounceResumed);
    }

    /** `job?.cancelAndJoin()`. A job blocked in `read` sees the cancellation at
        the head of its write loop, leaves it without writing what it read, and
        clears the download task; what it emits afterwards is dropped, since emitting
        from a cancelled coroutine throws. A launched job that never ran is
        cancelled before its body starts. */
    method CancelAndJoin()
      requires Valid()
      modifies this
      ensures Valid()
      ensures job == (if old(job).Some? && old(job).value.Launched? then old(job) else None)
      ensures file == old(file) && created == old(created) && events == old(events)
    {
      if job.Some? && job.value.Reading? {
        Clear();
      }
    }

    /** `pause`: only a created task with a job may pause. The job is cancelled and
        joined, then `Paused` is emitted; the file keeps every byte written. */
    method Pause() returns (r: Outcome<TaskError>)
      requires Valid()
      modifies this
      ensures Valid()
      ensures r == if !old(created) || old(job).None? then Fail(AlreadyPaused) else Pass
      ensures r.Pass? ==> job == None && events == old(events) + [Paused]
      ensures r.Fail? ==> job == old(job) && events == old(events)
      ensures file == old(file) && created == old(created)
    {
      r := AssertNotFinished();
      if r.Fail? {
        return;
      }
      if !created || job.None? {
        return Fail(AlreadyPaused);
      }
      CancelAndJoin();
      job := None;
      events := events + [Paused];
    }

    /** `purge`: accepted in every state; cancels and joins the job, resets the
        task, deletes the file (it is never finished) and emits `Purged`. */
    method Purge()
      requires Valid()
      modifies this
      ensures Valid()
      ensures job == None && !created && file == [] && events == old(events) + [Purged]
    {
      CancelAndJoin();
      Clear();
      created := false;
      if !finished {
        file := [];
      }
      events := events + [Purged];
    }

    /** The body of the job up to its write loop (lines 37-51): the start offset
        is the file's length, the request asks for `bytes=<start>-`, the notify
        callback announces the job, then the content length is probed. A missing
        length fails the attempt, a length equal to the offset completes it
        without a request, a failed connection fails it and a response without
        a body completes it. */
    method EnterJob(contentLength: Option<nat>, connection: Connection) returns (request: Request)
      requires Valid() && job.Some? && job.value.Launched?
      modifies this
      ensures Valid()
      ensures request == Request(url, RangeHeader(|old(file)|))
      ensures file == old(file) && created
      ensures var announced := old(events) + [if old(job).value.notify == AnnounceCreated then Created else Resumed];
        match contentLength
        case None => job == None && events == announced + [Failed(NoContentLength)]
        case Some(total) =>
          if total == |file| then job == None && events == announced + [Downloaded]
          else if connection.ConnectFailed? then
            job == None && events == announced + [Failed(IoFailure(connection.message))]
          else if connection.NoBody? then job == None && events == announced + [Downloaded]
          else job == Some(Reading(|file|, total, 0)) && events == announced
    {
      var start: nat := 0;
      if file != [] {
        start := |file|;
      }
      request := Request(url, RangeHeader(start));
      match job.value.notify {
        case AnnounceCreated =>
          events := events + [Created];
          created := true;
        case AnnounceResumed =>
          events := events + [Resumed];
      }
      match contentLength {
        case None =>
          Clear();
          events := events + [Failed(NoContentLength)];
        case Some(total) =>
          if start == total {
            Clear();
            events := events + [Downloaded];
          } else {
            match connection {
              case ConnectFailed(message) =>
                Clear();
                events := events + [Failed(IoFailure(message))];
              case NoBody =>
                Clear();
                events := events + [Downloaded];
              case Connected =>
                job := Some(Reading(start, total, 0));
            }
          }
      }
    }

    /** One turn of the write loop: a chunk is written at the end of the file
        and its progress emitted; `-1` or a failed read ends the job. */
    method ReadOnce(read: ReadResult)
      requires Valid() && job.Some? && job.value.Reading?
      modifies this
      ensures Valid() && created == old(created)
      ensures file == old(file) + (if read.Chunk? then read.bytes else [])
      ensures events == old(events) + DeliverEvents(|old(file)|, old(job).value.contentLength, [read])
      ensures job == if read.Chunk? then Some(old(job).value.(bytesWritten := old(job).value.bytesWritten + |read.bytes|))
        else None
    {
      var Reading(start, total, bytesWritten) := job.value;
      match read {
        case Chunk(bytes) =>
          WriteAtEnd(file, bytes);
          file := WriteAt(file, start + bytesWritten, bytes);
          job := Some(Reading(start, total, bytesWritten + |bytes|));
          events := events + [Downloading(Progress(bytesWritten + |bytes| + start, total))];
        case EndOfStream =>
          Clear();
          events := events + [Downloaded];
        case ReadFailed(m) =>
          Clear();
          events := events + [Failed(IoFailure(m))];
      }
    }

    /** The write loop (lines 51-64) over the reads the response stream returns
        to the blocked job: each chunk is written at the file's end and followed
        by a progress event; `-1` ends the attempt with `Downloaded` whatever
        the length written, a failed read with `Failed`. A job that has not seen
        the end of its stream stays blocked in `read`. */
    method Deliver(stream: seq<ReadResult>)
      requires Valid() && job.Some? && job.value.Reading?
      modifies this
      ensures Valid()
      ensures file == old(file) + Concat(Written(stream))
      ensures events == old(events) + DeliverEvents(|old(file)|, old(job).value.contentLength, stream)
      ensures job == if Ends(stream) then None
        else Some(old(job).value.(bytesWritten := old(job).value.bytesWritten + |Concat(Written(stream))|))
      ensures created == old(created)
    {
      var Reading(start, total, _) := job.value;
      var rest := stream;
      while rest != [] && job.Some?
        invariant Valid() && created == old(created)
        invariant job.Some? ==> (
          && job.value.Reading? && job.value.start == start && job.value.contentLength == total
          && job.value.bytesWritten + |old(file)| == old(job).value.bytesWritten + |file|
          && old(file) + Concat(Written(stream)) == file + Concat(Written(rest))
          && old(events) + DeliverEvents(|old(file)|, total, stream) == events + DeliverEvents(|file|, total, rest)
          && (Ends(stream) <==> Ends(rest)))
        invariant job.None? ==> (
          && Ends(stream) && file == old(file) + Concat(Written(stream))
          && events == old(events) + DeliverEvents(|old(file)|, total, stream))
        decreases |rest|
      {
        DeliverStep(|file|, total, rest);
        ghost var file0, events0 := file, events;
        ReadOnce(rest[0]);
        if rest[0].Chunk? {
          assert file + Concat(Written(rest[1..])) == file0 + Concat(Written(rest));
          assert events + DeliverEvents(|file|, total, rest[1..]) == events0 + DeliverEvents(|file0|, total, rest);
        }
        rest := rest[1..];
      }
      if job.Some? {
        assert Concat(Written(rest)) == [] && !Ends(rest);
      }
    }
  }

  /** The event that ends the write loop: `Downloaded` at `-1`, `Failed` on a failed read. */
  function StopEvent(stream: seq<ReadResult>): (e: DownloadEvent)
    requires Ends(stream)
    ensures e == Downloaded || e.Failed?
  {
    match stream[0]
    case Chunk(_) => StopEvent(stream[1..])
    case EndOfStream => Downloaded
    case ReadFailed(m) => Failed(IoFailure(m))
  }

  /** Every progress event in `ev` has denominator `total` and a numerator in `lo..hi`. */
  predicate ProgressWithin(ev: seq<DownloadEvent>, total: nat, lo: nat, hi: nat) {
    forall i :: 0 <= i < |ev| && ev[i].Downloading? ==>
      ev[i].progress.total == total && lo <= ev[i].progress.written <= hi
  }

  /** The numerators of the progress events in `ev` never decrease. */
  predicate ProgressMonotone(ev: seq<DownloadEvent>) {
    forall i, j :: 0 <= i < j < |ev| && ev[i].Downloading? && ev[j].Downloading? ==>
      ev[i].progress.written <= ev[j].progress.written
  }

  /** The write loop reports progress as a fraction of the probed length: every
      progress event has that denominator, its numerator never falls below the
      offset the attempt started from nor rises above the bytes in the file when
      the loop is done, and numerators never decrease. */
  lemma {:induction false} DeliverProgress(pos: nat, total: nat, stream: seq<ReadResult>)
    ensures ProgressWithin(DeliverEvents(pos, total, stream), total, pos, pos + |Concat(Written(stream))|)
    ensures ProgressMonotone(DeliverEvents(pos, total, stream))
    decreases |stream|
  {
    if stream != [] && stream[0].Chunk? {
      var b := stream[0].bytes;
      var hi := pos + |Concat(Written(stream))|;
      DeliverProgress(pos + |b|, total, stream[1..]);
      assert Concat(Written(stream)) == b + Concat(Written(stream[1..]));
      var ev := DeliverEvents(pos, total, stream);
      var tail := DeliverEvents(pos + |b|, total, stream[1..]);
      assert ev == [Downloading(Progress(pos + |b|, total))] + tail;
      assert ProgressWithin(tail, total, pos + |b|, hi);
      forall i | 0 <= i < |ev| && ev[i].Downloading?
        ensures ev[i].progress.total == total && pos + |b| <= ev[i].progress.written <= hi
      {
        if i > 0 {
          assert ev[i] == tail[i - 1];
        }
      }
      forall i, j | 0 <= i < j < |ev| && ev[i].Downloading? && ev[j].Downloading?
        ensures ev[i].progress.written <= ev[j].progress.written
      {
        assert ev[j] == tail[j - 1];
        if i > 0 {
          assert ev[i] == tail[i - 1];
        }
      }
    }
  }

  /** The write loop ends with exactly one `Downloaded` or `Failed`, as the
      stream's first `-1` or failed read dictates, after only progress events;
      a stream that has not ended yields progress events only. `Downloaded`
      does not depend on how many bytes were written: a stream that ends short
      of the probed length is reported as downloaded. */
  lemma {:induction false} DeliverOutcome(pos: nat, total: nat, stream: seq<ReadResult>)
    ensures var ev := DeliverEvents(pos, total, stream);
      && |ev| == |Written(stream)| + (if Ends(stream) then 1 else 0)
      && (forall i :: 0 <= i < |Written(stream)| ==> ev[i].Downloading?)
      && (Ends(stream) ==> ev[|ev| - 1] == StopEvent(stream))
    decreases |stream|
  {
    if stream != [] && stream[0].Chunk? {
      var b := stream[0].bytes;
      DeliverOutcome(pos + |b|, total, stream[1..]);
      var ev := DeliverEvents(pos, total, stream);
      var tail := DeliverEvents(pos + |b|, total, stream[1..]);
      assert ev == [Downloading(Progress(pos + |b|, total))] + tail;
      assert forall i :: 1 <= i < |ev| ==> ev[i] == tail[i - 1];
    }
  }

  /** The first half: a download of `content` paused after its first `k`
      bytes; pausing before the job starts, and pausing twice, are refused. */
  method PausedMidway(url: string, path: string, content: seq<byte>, k: nat)
    returns (t: DownloadTask, early: Outcome<TaskError>, twice: Outcome<TaskError>)
    requires 0 < k < |content|
    ensures fresh(t) && t.Valid() && t.url == url && t.created && t.job.None?
    ensures early == Fail(AlreadyPaused) && twice == Fail(AlreadyPaused)
    ensures t.file == content[..k]
    ensures t.events == [Created, Downloading(Progress(k, |content|)), Paused]
  {
    t := new DownloadTask(url, path, []);
    var r := t.Start();
    early := t.Pause();
    var first := t.EnterJob(Some(|content|), Connected);
    t.Deliver([Chunk(content[..k])]);
    assert Concat(Written([Chunk(content[..k])])) == content[..k];
    assert DeliverEvents(0, |content|, [Chunk(content[..k])]) == [Downloading(Progress(k, |content|))];
    r := t.Pause();
    twice := t.Pause();
  }

  /** Pausing and resuming: a download of
      `content` from an empty file is paused after its first `k` bytes, then
      resumed, and the server answers the second, ranged request with the rest
      of the resource. A pause right after `start`, before the job has
      announced itself, is refused; a second `pause` in a row is refused; the
      resumed request asks for `bytes=k-`; and the file ends up equal to the
      resource. */
  method PauseResume(url: string, path: string, content: seq<byte>, k: nat)
    returns (early: Outcome<TaskError>, twice: Outcome<TaskError>, second: Request,
             finalFile: seq<byte>, log: seq<DownloadEvent>)
    requires 0 < k < |content|
    ensures early == Fail(AlreadyPaused) && twice == Fail(AlreadyPaused)
    ensures second == Request(url, "bytes=" + NatToString(k) + "-")
    ensures finalFile == content
    ensures log == [Created, Downloading(Progress(k, |content|)), Paused,
                    Resumed, Downloading(Progress(|content|, |content|)), Downloaded]
  {
    var t;
    t, early, twice := PausedMidway(url, path, content, k);
    var r := t.Resume();
    second := t.EnterJob(Some(|content|), Connected);
    var rest := [Chunk(content[k..]), EndOfStream];
    assert Written(rest) == [content[k..]];
    assert Concat(Written(rest)) == content[k..];
    assert DeliverEvents(k, |content|, rest) == [Downloading(Progress(|content|, |content|)), Downloaded];
    t.Deliver(rest);
    assert content[..k] + content[k..] == content;
    finalFile := t.file;
    log := t.events;
  }
}
