// `AsyncDownloadCall` of src/server/AsyncDownloadCall.hpp: a server-streaming
// download. Once an RPC is accepted the file "uploads/<name>" is opened and
// sent in chunks of at most 4096 bytes, one `Write` per completion, until a
// read comes back empty or hits the end of the file. The file is read as it
// was when opened; the requested name arrives with the accepted RPC.

module DownloadCall {
  import opened GrpcStatus
  import opened ServerActions

  /** The size of `buffer_`, the most one `Write` sends. */
  const ChunkSize: nat := 4096

  datatype State = CREATE | WRITE | WRITING | FINISH

  /** The fields `Proceed` updates: the state, the open file's contents and
      read position, its end-of-file flag, whether it is open, and whether
      the call has deleted itself. */
  datatype Download = Download(state: State, file: seq<byte>, pos: nat, eof: bool, fileOpen: bool, destroyed: bool)

  datatype Outcome = Outcome(call: Download, actions: seq<Action>)

  /** The completion a step receives, and the file name of the request. */
  datatype Event = Event(ok: bool, filename: string)

  /** The call after its constructor ran `Proceed(true)`: WRITE, with a
      download RPC requested. */
  const Constructed := Download(WRITE, [], 0, false, false, false)

  predicate Readable(d: Download)
  {
    d.pos <= |d.file|
  }

  /** `Finish` as written: close the file, finish the RPC, and delete the
      call in the same step. */
  function FinishAsWritten(d: Download, status: Status): Outcome
  {
    Outcome(d.(fileOpen := false, destroyed := true), [Finish(status, ""), Destroy])
  }

  /** `Finish` as intended: close the file, finish the RPC, and wait in
      FINISH for that finish to complete. */
  function FinishDeferred(d: Download, status: Status): Outcome
  {
    Outcome(d.(fileOpen := false, state := FINISH), [Finish(status, "")])
  }

  function FinishWith(d: Download, status: Status, deferred: bool): Outcome
  {
    if deferred then FinishDeferred(d, status) else FinishAsWritten(d, status)
  }

  /** `DoWrite`: read up to 4096 bytes; nothing read finishes with OK,
      otherwise those bytes are written to the client and the call waits in
      WRITING. A short read sets the end-of-file flag. */
  function DoWriteWith(d: Download, deferred: bool): Outcome
    requires Readable(d)
  {
    var n := if |d.file| - d.pos < ChunkSize then |d.file| - d.pos else ChunkSize;
    var read := d.(eof := |d.file| - d.pos < ChunkSize);
    if n == 0 then FinishWith(read, OkStatus, deferred)
    else Outcome(read.(pos := d.pos + n, state := WRITING), [Write(d.file[d.pos..d.pos + n])])
  }

  /** `Proceed(ok)`, with `Finish` either as written or as intended. */
  function StepWith(d: Download, e: Event, fs: FileSystem, deferred: bool): Outcome
    requires !d.destroyed && Readable(d)
  {
    if deferred && d.state == FINISH then Outcome(d.(destroyed := true), [Destroy])
    else if !e.ok then FinishWith(d, Status(Cancelled, ""), deferred)
    else match d.state
      case CREATE => Outcome(d.(state := WRITE), [RequestCall])
      case WRITE =>
        var path := UploadDir + e.filename;
        var o :=
          if path !in fs then FinishWith(d, Status(NotFound, "File not found"), deferred)
          else DoWriteWith(d.(file := fs[path], pos := 0, eof := false, fileOpen := true), deferred);
        Outcome(o.call, [SpawnNext] + o.actions)
      case WRITING =>
        if d.eof then FinishWith(d, OkStatus, deferred) else DoWriteWith(d, deferred)
      case FINISH => Outcome(d, [])
  }

  /** `Proceed(ok)` as written: `Finish` deletes the call in the very step
      that starts the finish operation tagged with it. */
  function StepAsWritten(d: Download, e: Event, fs: FileSystem): (o: Outcome)
    requires !d.destroyed && Readable(d)
    ensures d.state != FINISH ==> o.call.state != FINISH
    ensures o.call.destroyed <==> Destroy in o.actions
    ensures Destroy in o.actions ==> && |o.actions| >= 2
                                     && o.actions[|o.actions| - 1] == Destroy
                                     && o.actions[|o.actions| - 2].Finish?
  {
    StepWith(d, e, fs, false)
  }

  /** `Proceed(ok)` with `Finish` waiting in FINISH: every step is safe for
      the completion queue, each chunk holds 1 to 4096 bytes, and a step
      that keeps writing has moved forward in the file. */
  function Step(d: Download, e: Event, fs: FileSystem): (o: Outcome)
    requires !d.destroyed && Readable(d)
    ensures SafeStep(o.actions)
    ensures Readable(o.call)
    ensures forall i :: 0 <= i < |o.actions| && o.actions[i].Write? ==> 0 < |o.actions[i].data| <= ChunkSize
    ensures o.call.state == WRITING && d.state == WRITING ==> o.call.file == d.file && d.pos < o.call.pos
    ensures o.call.destroyed <==> d.state == FINISH
  {
    DeferredStepIsGood(d, e, fs);
    StepWith(d, e, fs, true)
  }

  /** The guarantees of `Step`, gathered for its proof. */
  ghost predicate GoodStep(d: Download, o: Outcome)
  {
    && SafeStep(o.actions)
    && Readable(o.call)
    && (forall i :: 0 <= i < |o.actions| && o.actions[i].Write? ==> 0 < |o.actions[i].data| <= ChunkSize)
    && (o.call.state == WRITING && d.state == WRITING ==> o.call.file == d.file && d.pos < o.call.pos)
    && (o.call.destroyed <==> d.state == FINISH)
  }

  lemma DeferredStepIsGood(d: Download, e: Event, fs: FileSystem)
    requires !d.destroyed && Readable(d)
    ensures GoodStep(d, StepWith(d, e, fs, true))
  {
    var o := StepWith(d, e, fs, true);
    if d.state == FINISH || !e.ok || d.state == CREATE {
      SafeShapes(o.actions);
    } else if d.state == WRITE {
      var path := UploadDir + e.filename;
      if path in fs {
        var atStart := d.(file := fs[path], pos := 0, eof := false, fileOpen := true);
        DeferredWriteIsGood(atStart);
        assert o.actions == [SpawnNext] + DoWriteWith(atStart, true).actions;
      }
      SafeShapes(o.actions);
    } else if d.eof {
      SafeShapes(o.actions);
    } else {
      DeferredWriteIsGood(d);
    }
  }

  /** One `DoWrite` either finishes or sends the next 1 to 4096 bytes. */
  lemma DeferredWriteIsGood(d: Download)
    requires Readable(d) && d.state != FINISH && !d.destroyed
    ensures var o := DoWriteWith(d, true);
            && |o.actions| == 1 && Tagged(o.actions[0]) && SafeStep(o.actions)
            && Readable(o.call) && o.call.file == d.file && !o.call.destroyed
            && (o.actions[0].Write? ==> 0 < |o.actions[0].data| <= ChunkSize)
            && (o.call.state == WRITING ==> d.pos < o.call.pos)
  {
    SafeShapes(DoWriteWith(d, true).actions);
  }

  /** The chunks sent until the call finishes, when every completion is ok. */
  function Drain(d: Download, fs: FileSystem): (r: seq<Action>)
    requires d.state == WRITING && !d.destroyed && Readable(d)
    decreases |d.file| - d.pos + (if d.eof then 0 else 1)
  {
    var o := Step(d, Event(true, ""), fs);
    if o.call.state == WRITING then o.actions + Drain(o.call, fs) else o.actions
  }

  /** The chunks of one download are consecutive slices of the file: from
      the current position on, their concatenation is the rest of the file,
      and the download ends with an OK finish. */
  lemma {:induction false} DrainSendsRest(d: Download, fs: FileSystem)
    requires d.state == WRITING && !d.destroyed && Readable(d)
    requires d.eof ==> d.pos == |d.file|
    ensures Written(Drain(d, fs)) == d.file[d.pos..]
    ensures Finish(OkStatus, "") in Drain(d, fs)
    decreases |d.file| - d.pos + (if d.eof then 0 else 1)
  {
    var o := Step(d, Event(true, ""), fs);
    if o.call.state == WRITING {
      SentChunk(d, fs);
      DrainSendsRest(o.call, fs);
      DrainStep(d, fs, o);
    } else {
      LastStep(d, fs);
    }
  }

  lemma DrainStep(d: Download, fs: FileSystem, o: Outcome)
    requires d.state == WRITING && !d.destroyed && Readable(d)
    requires o == Step(d, Event(true, ""), fs) && o.call.state == WRITING
    requires Written(o.actions) == d.file[d.pos..o.call.pos]
    requires Written(Drain(o.call, fs)) == o.call.file[o.call.pos..]
    requires Finish(OkStatus, "") in Drain(o.call, fs)
    ensures Written(Drain(d, fs)) == d.file[d.pos..]
    ensures Finish(OkStatus, "") in Drain(d, fs)
  {
    assert Drain(d, fs) == o.actions + Drain(o.call, fs);
    ConsecutiveSlices(d.file, d.pos, o.call.pos, o.actions, Drain(o.call, fs));
  }

  /** Two runs of writes sending consecutive slices send their union. */
  lemma ConsecutiveSlices(file: seq<byte>, p: nat, q: nat, a: seq<Action>, b: seq<Action>)
    requires p <= q <= |file|
    requires Written(a) == file[p..q] && Written(b) == file[q..]
    ensures Written(a + b) == file[p..]
  {
    WrittenAppend(a, b);
    assert file[p..] == file[p..q] + file[q..];
  }

  /** A step that keeps writing sends the next slice of the file. */
  lemma SentChunk(d: Download, fs: FileSystem)
    requires d.state == WRITING && !d.destroyed && Readable(d)
    requires d.eof ==> d.pos == |d.file|
    requires Step(d, Event(true, ""), fs).call.state == WRITING
    ensures var o := Step(d, Event(true, ""), fs);
            && Written(o.actions) == d.file[d.pos..o.call.pos]
            && (o.call.eof ==> o.call.pos == |o.call.file|)
  {
    var o := Step(d, Event(true, ""), fs);
    assert o.actions == [Write(d.file[d.pos..o.call.pos])];
  }

  /** A step that stops writing sends nothing more and finishes with OK. */
  lemma LastStep(d: Download, fs: FileSystem)
    requires d.state == WRITING && !d.destroyed && Readable(d)
    requires d.eof ==> d.pos == |d.file|
    requires Step(d, Event(true, ""), fs).call.state != WRITING
    ensures Step(d, Event(true, ""), fs).actions == [Finish(OkStatus, "")]
    ensures d.pos == |d.file|
  {
  }

  /** A whole download of a file that exists: the RPC is accepted, the
      chunks sent concatenate to the file's bytes, and the call finishes
      with OK. */
  lemma DownloadSendsFile(fs: FileSystem, name: string)
    requires UploadDir + name in fs
    ensures var o := Step(Constructed, Event(true, name), fs);
            var rest := if o.call.state == WRITING then Drain(o.call, fs) else [];
            && Written(o.actions + rest) == fs[UploadDir + name]
            && Finish(OkStatus, "") in o.actions + rest
  {
    var file := fs[UploadDir + name];
    var o := Step(Constructed, Event(true, name), fs);
    if o.call.state == WRITING {
      var n := o.call.pos;
      assert o.actions == [SpawnNext, Write(file[..n])];
      assert Written(o.actions) == file[..n];
      DrainSendsRest(o.call, fs);
      WrittenAppend(o.actions, Drain(o.call, fs));
      assert file == file[..n] + file[n..];
    } else {
      assert file == [];
      assert o.actions == [SpawnNext, Finish(OkStatus, "")];
    }
  }

  /** A request for a file that does not exist finishes with NOT_FOUND and
      sends nothing. */
  lemma MissingFileNotFound(fs: FileSystem, name: string)
    requires UploadDir + name !in fs
    ensures Step(Constructed, Event(true, name), fs).actions
         == [SpawnNext, Finish(Status(NotFound, "File not found"), "")]
  {
  }

  /** As written, the last step deletes the call while the finish it has
      just started is still outstanding: its completion will be delivered
      to a deleted object. */
  lemma FinishDeletesTooEarly()
    ensures var d := Download(WRITING, [7], 1, true, true, false);
            var o := StepAsWritten(d, Event(true, ""), map[]);
            && o.actions == [Finish(OkStatus, ""), Destroy]
            && o.call.destroyed
            && !SafeStep(o.actions)
  {
    var d := Download(WRITING, [7], 1, true, true, false);
    var o := StepAsWritten(d, Event(true, ""), map[]);
    assert Tagged(o.actions[0]);
    assert Issued(o.actions) == 1 + Issued(o.actions[1..]);
  }

  /** The call object, with `Finish` waiting for its completion. */
  class AsyncDownloadCall {
    var state: State
    var file: seq<byte>
    var pos: nat
    var eof: bool
    var fileOpen: bool
    var destroyed: bool
    /** `buffer_`. */
    const buffer: array<byte>
    const disk: Disk

    function View(): Download
      reads this
    {
      Download(state, file, pos, eof, fileOpen, destroyed)
    }

    /** The constructor: CREATE, then `Proceed(true)` moves to WRITE and
        requests a download RPC. */
    constructor (disk: Disk)
      ensures View() == Constructed && this.disk == disk
      ensures fresh(buffer) && buffer.Length == ChunkSize
    {
      state := CREATE;
      file, pos, eof, fileOpen, destroyed := [], 0, false, false, false;
      buffer := new byte[ChunkSize];
      this.disk := disk;
      new;
      var ignored := Proceed(Event(true, ""));
    }

    method Finish(status: Status) returns (actions: seq<Action>)
      modifies this
      ensures Outcome(View(), actions) == FinishDeferred(old(View()), status)
    {
      fileOpen := false;
      actions := [ServerActions.Finish(status, "")];
      state := FINISH;
    }

    /** `DoWrite`: the bytes read land in `buffer_`, and the chunk sent is
        the part of `buffer_` that was filled. */
    method DoWrite() returns (actions: seq<Action>)
      requires Readable(View()) && buffer.Length == ChunkSize
      modifies this, buffer
      ensures Outcome(View(), actions) == DoWriteWith(old(View()), true)
    {
      var n := if |file| - pos < ChunkSize then |file| - pos else ChunkSize;
      var k := 0;
      while k < n
        invariant 0 <= k <= n
        invariant View() == old(View())
        invariant buffer[..k] == file[pos..pos + k]
      {
        buffer[k] := file[pos + k];
        k := k + 1;
      }
      eof := |file| - pos < ChunkSize;
      if n == 0 {
        actions := Finish(OkStatus);
        return;
      }
      actions := [Write(buffer[..n])];
      pos := pos + n;
      state := WRITING;
    }

    method Proceed(e: Event) returns (actions: seq<Action>)
      requires !destroyed && Readable(View()) && buffer.Length == ChunkSize
      modifies this, buffer
      ensures Outcome(View(), actions) == Step(old(View()), e, disk.files)
    {
      if state == FINISH {
        destroyed := true;
        return [Destroy];
      }
      if !e.ok {
        actions := Finish(Status(Cancelled, ""));
        return;
      }
      match state {
        case CREATE =>
          state := WRITE;
          actions := [RequestCall];
        case WRITE =>
          var path := UploadDir + e.filename;
          if path !in disk.files {
            actions := Finish(Status(NotFound, "File not found"));
            actions := [SpawnNext] + actions;
            return;
          }
          file, pos, eof, fileOpen := disk.files[path], 0, false, true;
          actions := DoWrite();
          actions := [SpawnNext] + actions;
        case WRITING =>
          if eof {
            actions := Finish(OkStatus);
            return;
          }
          actions := DoWrite();
      }
    }
  }
}
