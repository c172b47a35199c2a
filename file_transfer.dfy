// The three server calls working on one disk: what an upload stores, a
// download of the same name sends back, and after a delete of that name a
// download is answered NOT_FOUND.

module FileTransfer {
  import opened GrpcStatus
  import opened ServerActions
  import UploadCall
  import DownloadCall
  import DeleteCall

  /** The disk after a complete upload of `first` followed by `rest`. */
  ghost function Uploaded(fs: FileSystem, first: UploadCall.Chunk, rest: seq<UploadCall.Chunk>): FileSystem
  {
    var events := [UploadCall.Event(true, first, true), UploadCall.Event(true, first, true)] + UploadCall.Chunks(rest)
                  + [UploadCall.Event(false, first, true), UploadCall.Event(true, first, true)];
    UploadCall.Run(UploadCall.NewUpload, fs, events).fs
  }

  /** The bytes a download of `name` sends from `fs`. */
  ghost function Downloaded(fs: FileSystem, name: string): seq<byte>
  {
    var o := DownloadCall.Step(DownloadCall.Constructed, DownloadCall.Event(true, name), fs);
    var rest := if o.call.state == DownloadCall.WRITING then DownloadCall.Drain(o.call, fs) else [];
    Written(o.actions + rest)
  }

  /** Uploading chunks and downloading the same name gives back the chunks'
      bytes, in order. */
  lemma UploadThenDownload(fs: FileSystem, first: UploadCall.Chunk, rest: seq<UploadCall.Chunk>)
    requires first.filename != ""
    ensures Downloaded(Uploaded(fs, first, rest), first.filename) == first.data + UploadCall.Data(rest)
  {
    UploadCall.UploadSession(fs, first, rest);
    DownloadCall.DownloadSendsFile(Uploaded(fs, first, rest), first.filename);
  }

  /** Deleting an uploaded file answers OK, and a download of it afterwards
      is answered NOT_FOUND. */
  lemma UploadDeleteDownload(fs: FileSystem, first: UploadCall.Chunk, rest: seq<UploadCall.Chunk>)
    requires first.filename != ""
    ensures var stored := Uploaded(fs, first, rest);
            var del := DeleteCall.Step(DeleteCall.Constructed, DeleteCall.Event(true, first.filename), stored);
            && Finish(OkStatus, "Delete success") in del.actions
            && DownloadCall.Step(DownloadCall.Constructed, DownloadCall.Event(true, first.filename), del.fs).actions
               == [SpawnNext, Finish(Status(NotFound, "File not found"), "")]
  {
    UploadCall.UploadSession(fs, first, rest);
    var stored := Uploaded(fs, first, rest);
    var del := DeleteCall.Step(DeleteCall.Constructed, DeleteCall.Event(true, first.filename), stored);
    DownloadCall.MissingFileNotFound(del.fs, first.filename);
  }
}
