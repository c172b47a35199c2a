// `AsyncDeleteCall` of src/server/AsyncDeleteCall.hpp: a unary RPC that
// removes "uploads/<name>" and answers whether that worked.

module DeleteCall {
  import opened GrpcStatus
  import opened ServerActions

  datatype State = CREATE | PROCESS | FINISH

  /** The fields `Proceed` updates; `destroyed` records `delete this`. */
  datatype Delete = Delete(state: State, destroyed: bool)

  datatype Outcome = Outcome(call: Delete, fs: FileSystem, actions: seq<Action>)

  /** The completion a step receives, and the file name of the request. */
  datatype Event = Event(ok: bool, filename: string)

  /** The call after its constructor ran `Proceed(true)`: PROCESS, with a
      delete RPC requested. */
  const Constructed := Delete(PROCESS, false)

  /** The reply `Finish` sends: the message, or a default when it is empty. */
  function FinishReply(message: string): (r: string)
    ensures message != "" ==> r == message
    ensures message == "" ==> r == "Delete operation complete"
  {
    if message == "" then "Delete operation complete" else message
  }

  /** `Proceed(ok)`. A failed completion answers CANCELLED; the accepted
      request removes exactly the named file, answering OK when it existed
      and NOT_FOUND otherwise; the completion after the answer destroys the
      call. */
  function Step(c: Delete, e: Event, fs: FileSystem): (o: Outcome)
    requires !c.destroyed
    ensures SafeStep(o.actions)
    ensures o.fs == if e.ok && c.state == PROCESS then fs - {UploadDir + e.filename} else fs
    ensures Finish(OkStatus, "Delete success") in o.actions
            <==> e.ok && c.state == PROCESS && UploadDir + e.filename in fs
    ensures Finish(Status(NotFound, "Delete failed"), "Delete failed or not found") in o.actions
            <==> e.ok && c.state == PROCESS && UploadDir + e.filename !in fs
    ensures !e.ok ==> o.actions == [Finish(Status(Cancelled, ""), "Delete operation complete")]
    ensures e.ok && c.state == CREATE ==> o.actions == [RequestCall]
    ensures e.ok && c.state == PROCESS ==> |o.actions| == 2 && o.actions[0] == SpawnNext
    ensures e.ok && c.state == FINISH ==> o.actions == [Destroy]
    ensures o.call.destroyed <==> e.ok && c.state == FINISH
    ensures !o.call.destroyed ==> o.call.state == (if e.ok && c.state == CREATE then PROCESS else FINISH)
  {
    if !e.ok then
      Outcome(c.(state := FINISH), fs, [Finish(Status(Cancelled, ""), FinishReply(""))])
    else match c.state
      case CREATE => Outcome(c.(state := PROCESS), fs, [RequestCall])
      case PROCESS =>
        var path := UploadDir + e.filename;
        var finish :=
          if path in fs then Finish(OkStatus, "Delete success")
          else Finish(Status(NotFound, "Delete failed"), "Delete failed or not found");
        Outcome(c.(state := FINISH), fs - {path}, [SpawnNext, finish])
      case FINISH => Outcome(c.(destroyed := true), fs, [Destroy])
  }

  /** The call object. */
  class AsyncDeleteCall {
    var state: State
    var destroyed: bool
    const disk: Disk

    function View(): Delete
      reads this
    {
      Delete(state, destroyed)
    }

    /** The constructor: CREATE, then `Proceed(true)` moves to PROCESS and
        requests a delete RPC. */
    constructor (disk: Disk)
      modifies disk
      ensures View() == Constructed && this.disk == disk && disk.files == old(disk.files)
    {
      state, destroyed := CREATE, false;
      this.disk := disk;
      new;
      var ignored := Proceed(Event(true, ""));
    }

    method Finish(status: Status, message: string) returns (actions: seq<Action>)
      modifies this
      ensures actions == [ServerActions.Finish(status, FinishReply(message))]
      ensures state == FINISH && destroyed == old(destroyed)
    {
      actions := [ServerActions.Finish(status, FinishReply(message))];
      state := FINISH;
    }

    method Proceed(e: Event) returns (actions: seq<Action>)
      requires !destroyed
      modifies this, disk
      ensures Outcome(View(), disk.files, actions) == Step(old(View()), e, old(disk.files))
    {
      if !e.ok {
        actions := Finish(Status(Cancelled, ""), "");
        return;
      }
      if state == CREATE {
        state := PROCESS;
        actions := [RequestCall];
      } else if state == PROCESS {
        var path := UploadDir + e.filename;
        var removed := path in disk.files;
        disk.files := disk.files - {path};
        var finish :=
          if removed then ServerActions.Finish(OkStatus, "Delete success")
          else ServerActions.Finish(Status(NotFound, "Delete failed"), "Delete failed or not found");
        actions := [SpawnNext, finish];
        state := FINISH;
      } else {
        destroyed := true;
        actions := [Destroy];
      }
    }
  }
}
