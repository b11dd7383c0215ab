/** What the file browser exchanges with the remote session: the replies the
    server gives, the requests the browser issues and the toasts it shows.
    Every request goes to `/sessions/{sessionId}/...` of one session. */
module Remote {

  datatype Option<+T> = None | Some(value: T)

  /** A reply of the remote session API. A body with `code == 1` is `Ok`,
      any other code is `Err` carrying the server's `message`; `Thrown` is a
      request whose promise rejected (transport failure). */
  datatype Reply<+T> = Ok(data: T) | Err(message: string) | Thrown

  /** The requests the browser sends, in the order it sends them. */
  datatype Request =
    | List(dir: string)                            // GET  ls?dir=
    | Remove(key: string)                          // POST rm?key=
    | MakeDir(dir: string)                         // POST mkdir?dir=
    | Rename(oldName: string, newName: string)     // POST rename?oldName=&newName=
    | Download(file: string)                       // download?file=

  /** The user-facing messages (antd `message` toasts). */
  datatype Toast =
    | NeedSelection                 // warning: select at least one file or directory
    | Created                       // success: directory created
    | Renamed                       // success: renamed
    | Uploaded(name: string)        // success: upload of `name` finished
    | UploadFailed(name: string)    // error: upload of `name` failed
    | Failure(message: string)      // error: the server's message, verbatim

  /** The status the upload widget reports for one file. */
  datatype UploadStatus = Uploading | Done | Error | Removed

  /** The toast a reply produces when the handler reports only failures. */
  function FailureToasts<T>(reply: Reply<T>): (ts: seq<Toast>)
    ensures |ts| <= 1
    ensures ts != [] <==> reply.Err?
    ensures reply.Err? ==> ts == [Failure(reply.message)]
  {
    match reply
    case Err(m) => [Failure(m)]
    case _ => []
  }
}
