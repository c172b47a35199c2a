// What a server call object does in one `Proceed` step, as a list of
// actions, and the disk the calls read and write. Each asynchronous
// operation a call starts is tagged with the call object itself, and its
// completion comes back later as the next `Proceed(ok)` on that object.

module ServerActions {
  import opened GrpcStatus

  newtype byte = x: int | 0 <= x < 256

  /** The files under the server's working directory: path to contents. */
  type FileSystem = map<string, seq<byte>>

  /** Every call works inside this directory. */
  const UploadDir: string := "uploads/"

  datatype Action =
    /** `Request{Upload,Download,Delete}`: wait for the next RPC of this kind. */
    | RequestCall
    /** `Read` of the next client chunk. */
    | Read
    /** `Write` of one chunk to the client. */
    | Write(data: seq<byte>)
    /** `Finish` of the RPC with a status and the reply message ("" when the
        RPC has no reply message). */
    | Finish(status: Status, reply: string)
    /** `new Async...Call`: a fresh object for the next RPC, tagged with itself. */
    | SpawnNext
    /** `delete this`. */
    | Destroy

  /** Operations whose completion comes back tagged with this call. */
  predicate Tagged(a: Action)
  {
    a.RequestCall? || a.Read? || a.Write? || a.Finish?
  }

  /** How many operations tagged with this call a step starts. */
  function Issued(actions: seq<Action>): (n: nat)
    ensures n <= |actions|
    ensures n == 0 <==> forall i :: 0 <= i < |actions| ==> !Tagged(actions[i])
  {
    if actions == [] then 0
    else (if Tagged(actions[0]) then 1 else 0) + Issued(actions[1..])
  }

  /** A step keeps at most one operation of its own outstanding, and it
      destroys the call only when it starts none: otherwise a completion
      would later arrive for a deleted object. */
  predicate SafeStep(actions: seq<Action>)
  {
    Issued(actions) <= 1 && (Destroy in actions ==> Issued(actions) == 0)
  }

  /** The action lists the calls' steps produce are safe: nothing, a lone
      `delete this`, or one tagged operation, possibly after spawning the
      next call. */
  lemma SafeShapes(actions: seq<Action>)
    requires || actions == [] || actions == [Destroy]
             || (|actions| == 1 && Tagged(actions[0]))
             || (|actions| == 2 && actions[0] == SpawnNext && Tagged(actions[1]))
    ensures SafeStep(actions)
  {
    if |actions| == 2 {
      assert actions[1..][1..] == [];
    }
  }

  /** The concatenation of the chunks a series of steps writes to the client. */
  function Written(actions: seq<Action>): (r: seq<byte>)
    ensures (forall i :: 0 <= i < |actions| ==> !actions[i].Write?) ==> r == []
  {
    if actions == [] then []
    else (if actions[0].Write? then actions[0].data else []) + Written(actions[1..])
  }

  lemma WrittenAppend(a: seq<Action>, b: seq<Action>)
    ensures Written(a + b) == Written(a) + Written(b)
  {
    if a != [] {
      assert (a + b)[0] == a[0] && (a + b)[1..] == a[1..] + b;
      WrittenAppend(a[1..], b);
      var head := if a[0].Write? then a[0].data else [];
      assert Written(a + b) == head + Written(a[1..] + b);
    } else {
      assert a + b == b;
    }
  }

  /** The disk the call objects share. */
  class Disk {
    var files: FileSystem

    constructor (files: FileSystem)
      ensures this.files == files
    {
      this.files := files;
    }
  }
}
