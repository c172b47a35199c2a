// `AsyncUploadCall` of src/server/AsyncUploadCall.hpp: a client-streaming
// upload. The first chunk names the file, which is created (or truncated)
// under "uploads/"; every chunk's data is appended to it; the end of the
// client stream finishes the RPC. Whether the file can be opened is an
// input of the step, as is the chunk a completed `Read` delivered.

module UploadCall {
  import opened GrpcStatus
  import opened ServerActions

  datatype State = RequestQueued | Reading | Done

  /** `UploadChunk`: a file name (read from the first chunk only) and data. */
  datatype Chunk = Chunk(filename: string, data: seq<byte>)

  /** The fields `Proceed` updates; `destroyed` records `delete this`. */
  datatype Upload = Upload(state: State, filename: string, filenameReceived: bool, fileOpen: bool, destroyed: bool)

  /** What one step leaves behind: the call, the disk, the actions started. */
  datatype Outcome = Outcome(call: Upload, fs: FileSystem, actions: seq<Action>)

  /** The constructor: REQUEST_QUEUED, no file name yet, no file open. */
  const NewUpload := Upload(RequestQueued, "", false, false, false)

  /** The completion a step receives: the `ok` flag, the chunk a `Read`
      filled in, and whether opening the file for writing succeeds. */
  datatype Event = Event(ok: bool, chunk: Chunk, opens: bool)

  function PathOf(u: Upload): string
  {
    UploadDir + u.filename
  }

  /** Writing through the open stream appends to the file; if the file has
      been removed meanwhile, the data goes to the unlinked file. */
  function AppendTo(fs: FileSystem, path: string, data: seq<byte>): FileSystem
  {
    if path in fs then fs[path := fs[path] + data] else fs
  }

  /** The reply and error messages of the upload RPC. */
  const UploadComplete := "Upload complete"
  const UploadFailed := "Upload failed: "
  const FilenameRequired := "Filename required in first chunk"
  const OpenFailed := "Failed to open file for writing"

  /** What `HandleReadError` does: close the file, finish with `code` and `msg`, and
      reply "Upload failed: " + msg; the call then waits in DONE. */
  function ReadErrorOutcome(u: Upload, fs: FileSystem, code: StatusCode, msg: string): (o: Outcome)
    ensures o.call.state == Done && !o.call.fileOpen && o.fs == fs
    ensures o.actions == [Finish(Status(code, msg), UploadFailed + msg)]
  {
    Outcome(u.(fileOpen := false, state := Done), fs, [Finish(Status(code, msg), UploadFailed + msg)])
  }

  /** A successful `Read`: non-empty data goes to the file, then the next
      `Read` is started. */
  function TakeChunk(u: Upload, fs: FileSystem, chunk: Chunk): Outcome
  {
    Outcome(u, if chunk.data != [] then AppendTo(fs, PathOf(u), chunk.data) else fs, [Read])
  }

  /** `Proceed(ok)`: the call, the disk and the actions after one completion. */
  function Step(u: Upload, e: Event, fs: FileSystem): (o: Outcome)
    requires !u.destroyed
    ensures o.call.destroyed <==> u.state == Done
    ensures u.state == RequestQueued ==> o.fs == fs && o.actions == (if e.ok then [SpawnNext, Read] else [])
    ensures u.state == Reading && !e.ok ==> o.actions == [Finish(OkStatus, UploadComplete)] && !o.call.fileOpen
    ensures u.state == Reading && e.ok && !u.filenameReceived && e.chunk.filename == ""
            ==> o.fs == fs && o.actions == [Finish(Status(InvalidArgument, FilenameRequired), UploadFailed + FilenameRequired)]
    ensures u.state == Reading && e.ok && !u.filenameReceived && e.chunk.filename != "" && !e.opens
            ==> o.fs == fs && o.actions == [Finish(Status(Internal, OpenFailed), UploadFailed + OpenFailed)]
  {
    match u.state
    case Done => Outcome(u.(destroyed := true), fs, [Destroy])
    case RequestQueued =>
      if !e.ok then Outcome(u.(state := Done), fs, [])
      else Outcome(u.(state := Reading), fs, [SpawnNext, Read])
    case Reading =>
      if !e.ok then
        Outcome(u.(fileOpen := false, state := Done), fs, [Finish(OkStatus, UploadComplete)])
      else if !u.filenameReceived then
        var named := u.(filename := e.chunk.filename);
        if e.chunk.filename == "" then
          ReadErrorOutcome(named, fs, InvalidArgument, FilenameRequired)
        else if !e.opens then
          ReadErrorOutcome(named, fs, Internal, OpenFailed)
        else
          TakeChunk(named.(fileOpen := true, filenameReceived := true), fs[PathOf(named) := []], e.chunk)
      else
        TakeChunk(u, fs, e.chunk)
  }

  /** Every step is safe for the completion queue, and only the DONE step
      deletes the call. */
  lemma StepIsSafe(u: Upload, e: Event, fs: FileSystem)
    requires !u.destroyed
    ensures var o := Step(u, e, fs);
            && SafeStep(o.actions)
            && (Destroy in o.actions <==> u.state == Done)
            && (o.call.destroyed <==> u.state == Done)
  {
    SafeShapes(Step(u, e, fs).actions);
  }

  /** A step changes no file but `uploads/<filename>` of the call it leaves. */
  lemma StepTouchesOneFile(u: Upload, e: Event, fs: FileSystem, p: string)
    requires !u.destroyed
    ensures var o := Step(u, e, fs);
            p != PathOf(o.call) ==> (p in o.fs <==> p in fs) && (p in fs ==> o.fs[p] == fs[p])
  {
  }

  /** A step that ignores completions once the call has deleted itself. */
  function Next(u: Upload, e: Event, fs: FileSystem): Outcome
  {
    if u.destroyed then Outcome(u, fs, []) else Step(u, e, fs)
  }

  /** A call driven by `step` through a series of completions, until it
      destroys itself. */
  function RunWith(step: (Upload, Event, FileSystem) -> Outcome, u: Upload, fs: FileSystem, events: seq<Event>): Outcome
    decreases |events|
  {
    if events == [] || u.destroyed then Outcome(u, fs, [])
    else
      var o := step(u, events[0], fs);
      var rest := RunWith(step, o.call, o.fs, events[1..]);
      Outcome(rest.call, rest.fs, o.actions + rest.actions)
  }

  /** The call driven by a series of completions, until it destroys itself. */
  function Run(u: Upload, fs: FileSystem, events: seq<Event>): Outcome
  {
    RunWith(Next, u, fs, events)
  }

  /** Successful reads of chunks after the first, all with data. */
  function Chunks(cs: seq<Chunk>): (r: seq<Event>)
    ensures |r| == |cs|
    ensures forall i :: 0 <= i < |cs| ==> r[i] == Event(true, cs[i], true)
  {
    if cs == [] then [] else [Event(true, cs[0], true)] + Chunks(cs[1..])
  }

  /** The bytes a series of chunks carries, in order. */
  function Data(cs: seq<Chunk>): seq<byte>
  {
    if cs == [] then [] else cs[0].data + Data(cs[1..])
  }

  /** One `Read` per chunk, in order: once the file is open, each chunk's
      data is appended to it in arrival order, and the chunks' own file
      names are ignored. */
  lemma {:induction false} ChunksAppendInOrder(u: Upload, fs: FileSystem, cs: seq<Chunk>)
    requires u.state == Reading && u.filenameReceived && !u.destroyed && PathOf(u) in fs
    ensures var o := Run(u, fs, Chunks(cs));
            && o.call == u
            && o.fs == fs[PathOf(u) := fs[PathOf(u)] + Data(cs)]
            && |o.actions| == |cs|
            && forall i :: 0 <= i < |cs| ==> o.actions[i] == Read
    decreases |cs|
  {
    var path := PathOf(u);
    if cs == [] {
      AppendNothing(fs, path);
    } else {
      var fs' := fs[path := fs[path] + cs[0].data];
      FirstChunkRun(u, fs, cs);
      ChunksAppendInOrder(u, fs', cs[1..]);
      AppendTwice(fs, path, cs[0].data, Data(cs[1..]));
    }
  }

  /** Two appends to one file are one append of both. */
  lemma AppendTwice(fs: FileSystem, path: string, a: seq<byte>, b: seq<byte>)
    requires path in fs
    ensures var fs' := fs[path := fs[path] + a];
            fs'[path := fs'[path] + b] == fs[path := fs[path] + (a + b)]
  {
    assert fs[path] + a + b == fs[path] + (a + b);
  }

  /** The first of the chunks appends its data and reads again; the rest of
      the run starts from there. */
  lemma FirstChunkRun(u: Upload, fs: FileSystem, cs: seq<Chunk>)
    requires u.state == Reading && u.filenameReceived && !u.destroyed && PathOf(u) in fs && cs != []
    ensures var rest := Run(u, fs[PathOf(u) := fs[PathOf(u)] + cs[0].data], Chunks(cs[1..]));
            Run(u, fs, Chunks(cs)) == Outcome(rest.call, rest.fs, [Read] + rest.actions)
  {
    var path := PathOf(u);
    var o := Step(u, Event(true, cs[0], true), fs);
    assert o == TakeChunk(u, fs, cs[0]);
    assert o.fs == fs[path := fs[path] + cs[0].data] by {
      if cs[0].data == [] {
        AppendNothing(fs, path);
      }
    }
    assert Chunks(cs)[1..] == Chunks(cs[1..]);
  }

  lemma AppendNothing(fs: FileSystem, path: string)
    requires path in fs
    ensures fs[path := fs[path] + []] == fs
  {
    assert fs[path] + [] == fs[path];
  }

  /** The call right after it accepted an RPC and opened the file the first
      chunk names. */
  function Opened(name: string): Upload
  {
    Upload(Reading, name, true, true, false)
  }

  /** Accepting the RPC spawns the next call and reads; a first chunk with a
      name creates the file with that chunk's data. */
  lemma Accept(fs: FileSystem, first: Chunk)
    requires first.filename != ""
    ensures Run(NewUpload, fs, [Event(true, first, true), Event(true, first, true)])
         == Outcome(Opened(first.filename), fs[UploadDir + first.filename := first.data], [SpawnNext, Read, Read])
  {
    var path := UploadDir + first.filename;
    var o1 := Step(NewUpload, Event(true, first, true), fs);
    assert o1 == Outcome(NewUpload.(state := Reading), fs, [SpawnNext, Read]);
    var o2 := Step(o1.call, Event(true, first, true), fs);
    assert o2.fs == fs[path := first.data] by {
      assert [] + first.data == first.data;
      assert fs[path := []][path := first.data] == fs[path := first.data];
    }
    assert o2 == Outcome(Opened(first.filename), fs[path := first.data], [Read]);
    var e := Event(true, first, true);
    assert [e, e] == [e] + [e];
    RunCons(NewUpload, fs, e, [e]);
    RunCons(o1.call, fs, e, []);
    assert [e] + [] == [e];
  }

  /** The client closing its stream finishes with "Upload complete"; the
      completion of that finish destroys the call. */
  lemma Close(u: Upload, fs: FileSystem, x: Chunk)
    requires u.state == Reading && !u.destroyed
    ensures Run(u, fs, [Event(false, x, true), Event(true, x, true)])
         == Outcome(u.(fileOpen := false, state := Done, destroyed := true), fs, [Finish(OkStatus, UploadComplete), Destroy])
  {
    var o1 := Step(u, Event(false, x, true), fs);
    assert o1 == Outcome(u.(fileOpen := false, state := Done), fs, [Finish(OkStatus, UploadComplete)]);
    var e1, e2 := Event(false, x, true), Event(true, x, true);
    assert [e1, e2] == [e1] + [e2];
    RunCons(u, fs, e1, [e2]);
    RunCons(o1.call, fs, e2, []);
    assert [e2] + [] == [e2];
    assert Step(o1.call, e2, fs) == Outcome(o1.call.(destroyed := true), fs, [Destroy]);
    assert [Finish(OkStatus, UploadComplete)] + ([Destroy] + []) == [Finish(OkStatus, UploadComplete), Destroy];
  }

  /** A run is its first step followed by the run of the other completions. */
  lemma RunCons(u: Upload, fs: FileSystem, e: Event, rest: seq<Event>)
    requires !u.destroyed
    ensures var o := Step(u, e, fs);
            var r := Run(o.call, o.fs, rest);
            Run(u, fs, [e] + rest) == Outcome(r.call, r.fs, o.actions + r.actions)
  {
    assert ([e] + rest)[0] == e && ([e] + rest)[1..] == rest;
  }

  /** A whole upload: the RPC is accepted, the first chunk names the file,
      further chunks follow, the client closes its stream, and the final
      completion destroys the call. The file then holds every chunk's data
      in order, and the client is told "Upload complete". */
  lemma UploadSession(fs: FileSystem, first: Chunk, rest: seq<Chunk>)
    requires first.filename != ""
    ensures var events := [Event(true, first, true), Event(true, first, true)] + Chunks(rest)
                          + [Event(false, first, true), Event(true, first, true)];
            var o := Run(NewUpload, fs, events);
            && o.call.destroyed
            && UploadDir + first.filename in o.fs
            && o.fs[UploadDir + first.filename] == first.data + Data(rest)
            && Finish(OkStatus, UploadComplete) in o.actions
  {
    var path := UploadDir + first.filename;
    var prefix := [Event(true, first, true), Event(true, first, true)];
    var tail := [Event(false, first, true), Event(true, first, true)];
    Accept(fs, first);
    var fs1 := fs[path := first.data];
    ChunksAppendInOrder(Opened(first.filename), fs1, rest);
    var o2 := Run(Opened(first.filename), fs1, Chunks(rest));
    Close(o2.call, o2.fs, first);
    RunAppend(Opened(first.filename), fs1, Chunks(rest), tail);
    RunAppend(NewUpload, fs, prefix, Chunks(rest) + tail);
    assert prefix + Chunks(rest) + tail == prefix + (Chunks(rest) + tail);
  }

  /** Running two series of completions one after the other. */
  lemma RunAppend(u: Upload, fs: FileSystem, a: seq<Event>, b: seq<Event>)
    ensures var o := Run(u, fs, a);
            var r := Run(o.call, o.fs, b);
            Run(u, fs, a + b) == Outcome(r.call, r.fs, o.actions + r.actions)
  {
    RunWithAppend(Next, u, fs, a, b);
  }

  /** Whatever the step function, a run over `a + b` is the run over `a`
      followed by the run over `b` from where it stopped. */
  lemma {:induction false} RunWithAppend(step: (Upload, Event, FileSystem) -> Outcome, u: Upload, fs: FileSystem, a: seq<Event>, b: seq<Event>)
    ensures var o := RunWith(step, u, fs, a);
            var r := RunWith(step, o.call, o.fs, b);
            RunWith(step, u, fs, a + b) == Outcome(r.call, r.fs, o.actions + r.actions)
    decreases |a|
  {
    if a == [] {
      assert a + b == b;
      assert [] + RunWith(step, u, fs, b).actions == RunWith(step, u, fs, b).actions;
    } else if !u.destroyed {
      var o := step(u, a[0], fs);
      RunWithAppend(step, o.call, o.fs, a[1..], b);
      assert (a + b)[0] == a[0] && (a + b)[1..] == a[1..] + b;
      var m := RunWith(step, o.call, o.fs, a[1..]);
      var r := RunWith(step, m.call, m.fs, b);
      assert o.actions + (m.actions + r.actions) == (o.actions + m.actions) + r.actions;
    }
  }

  /** The call object: `Proceed` updates its fields and the disk as `Step`
      says. */
  class AsyncUploadCall {
    var state: State
    var filename: string
    var filenameReceived: bool
    var fileOpen: bool
    var destroyed: bool
    const disk: Disk

    function View(): Upload
      reads this
    {
      Upload(state, filename, filenameReceived, fileOpen, destroyed)
    }

    /** The constructor starts in REQUEST_QUEUED and requests an upload RPC. */
    constructor (disk: Disk)
      ensures View() == NewUpload && this.disk == disk
    {
      state, filename, filenameReceived, fileOpen, destroyed := RequestQueued, "", false, false, false;
      this.disk := disk;
    }

    method HandleReadError(code: StatusCode, msg: string) returns (actions: seq<Action>)
      modifies this
      ensures Outcome(View(), disk.files, actions) == ReadErrorOutcome(old(View()), disk.files, code, msg)
    {
      fileOpen := false;
      actions := [Finish(Status(code, msg), UploadFailed + msg)];
      state := Done;
    }

    method Proceed(e: Event) returns (actions: seq<Action>)
      requires !destroyed
      modifies this, disk
      ensures Outcome(View(), disk.files, actions) == Step(old(View()), e, old(disk.files))
    {
      if state == Done {
        destroyed := true;
        return [Destroy];
      }
      match state {
        case RequestQueued =>
          if !e.ok {
            state := Done;
            return [];
          }
          state := Reading;
          actions := [SpawnNext, Read];
        case Reading =>
          if !e.ok {
            fileOpen := false;
            actions := [Finish(OkStatus, UploadComplete)];
            state := Done;
            return;
          }
          if !filenameReceived {
            filename := e.chunk.filename;
            if filename == "" {
              actions := HandleReadError(InvalidArgument, FilenameRequired);
              return;
            }
            if !e.opens {
              actions := HandleReadError(Internal, OpenFailed);
              return;
            }
            disk.files := disk.files[UploadDir + filename := []];
            fileOpen := true;
            filenameReceived := true;
          }
          if e.chunk.data != [] {
            disk.files := AppendTo(disk.files, UploadDir + filename, e.chunk.data);
          }
          actions := [Read];
      }
    }
  }
}
