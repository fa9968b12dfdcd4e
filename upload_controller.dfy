/**
 * The ingest endpoint `POST /upload`: reject a request without a file,
 * otherwise store the file's bytes under its original name, overwriting any
 * earlier file of that name, and acknowledge with the file's metadata. Any
 * failure while building the path or writing turns into one generic error.
 * The upload directory is an abstract store from file names to contents.
 */
module UploadController {
  import opened Wrappers

  newtype byte = x: int | 0 <= x < 256

  /** The part of Multer's file object the handler reads. */
  datatype MulterFile = MulterFile(originalname: string, mimetype: string, size: nat, buffer: seq<byte>)

  /** The acknowledgment body; `size` and `type` are optional in its declared shape. */
  datatype UploadResponse = UploadResponse(message: string, filename: string, size: Option<nat>, mimeType: Option<string>)

  /** What the handler produces: the returned acknowledgment, or a thrown `BadRequestException`. */
  datatype Reply = Created(body: UploadResponse) | BadRequest(message: string)

  /** The upload directory: file name to contents. */
  type Store = map<string, seq<byte>>

  const NoFileMessage := "Nenhum arquivo enviado"
  const ProcessingErrorMessage := "Erro ao processar arquivo"
  const SuccessMessage := "Arquivo enviado com sucesso"

  /**
   * The HTTP status each reply is sent with: a returned acknowledgment is a
   * `POST`'s 201, a thrown `BadRequestException` is 400.
   */
  function HttpStatus(r: Reply): (code: int)
    ensures code == 201 <==> r.Created?
    ensures code == 400 <==> r.BadRequest?
  {
    if r.Created? then 201 else 400
  }

  /** The acknowledgment built from the stored file. */
  function Acknowledgment(f: MulterFile): (ack: UploadResponse)
    ensures ack.message == SuccessMessage
    ensures ack.filename == f.originalname
    ensures ack.size == Some(f.size) && ack.mimeType == Some(f.mimetype)
  {
    UploadResponse(SuccessMessage, f.originalname, Some(f.size), Some(f.mimetype))
  }

  /**
   * The reply to one request. `file` is `None` when the request carried no
   * file; `fault` says whether building the path or writing failed.
   */
  function Respond(file: Option<MulterFile>, fault: bool): (r: Reply)
    ensures r.Created? <==> file.Some? && !fault
    ensures file.None? ==> r == BadRequest(NoFileMessage)
    ensures file.Some? && fault ==> r == BadRequest(ProcessingErrorMessage)
    ensures r.Created? ==> r.body == Acknowledgment(file.value)
    ensures HttpStatus(r) == (if file.Some? && !fault then 201 else 400)
  {
    match file
    case None => BadRequest(NoFileMessage)
    case Some(f) => if fault then BadRequest(ProcessingErrorMessage) else Created(Acknowledgment(f))
  }

  /** The store after one request: written only when the write succeeds. */
  function Stored(disk: Store, file: Option<MulterFile>, fault: bool): (d: Store)
    ensures Respond(file, fault).Created? ==> d == disk[file.value.originalname := file.value.buffer]
    ensures !Respond(file, fault).Created? ==> d == disk
  {
    if file.Some? && !fault then disk[file.value.originalname := file.value.buffer] else disk
  }

  /** A successful write stores the bytes at the name and leaves every other name alone. */
  lemma WriteAtName(disk: Store, f: MulterFile, name: string)
    ensures var d := Stored(disk, Some(f), false);
      && f.originalname in d && d[f.originalname] == f.buffer
      && (name != f.originalname ==> (name in d <==> name in disk))
      && (name != f.originalname && name in disk ==> d[name] == disk[name])
      && d.Keys == disk.Keys + {f.originalname}
  {
  }

  /** The acknowledged file name is the key under which the bytes were stored. */
  lemma AcknowledgedNameIsKey(disk: Store, file: Option<MulterFile>, fault: bool)
    requires Respond(file, fault).Created?
    ensures var name := Respond(file, fault).body.filename;
      name in Stored(disk, file, fault) && Stored(disk, file, fault)[name] == file.value.buffer
  {
  }

  /**
   * Uploading two files with the same name both succeed, the second reply
   * does not depend on what was stored before, and the second buffer wins.
   */
  lemma LastWriteWins(disk: Store, first: MulterFile, second: MulterFile)
    requires first.originalname == second.originalname
    ensures Respond(Some(first), false) == Created(Acknowledgment(first))
    ensures Respond(Some(second), false) == Created(Acknowledgment(second))
    ensures Stored(Stored(disk, Some(first), false), Some(second), false)
         == disk[second.originalname := second.buffer]
  {
  }

  /** A failure is never reported as an acknowledgment and never touches the store. */
  lemma FaultIsError(disk: Store, f: MulterFile)
    ensures Respond(Some(f), true) == BadRequest(ProcessingErrorMessage)
    ensures HttpStatus(Respond(Some(f), true)) == 400
    ensures Stored(disk, Some(f), true) == disk
  {
  }

  /** When Multer's size is the buffer length, the acknowledged size is the stored length. */
  lemma AcknowledgedSizeIsStoredLength(disk: Store, f: MulterFile)
    requires f.size == |f.buffer|
    ensures Respond(Some(f), false).body.size == Some(|Stored(disk, Some(f), false)[f.originalname]|)
  {
  }

  /** The controller, holding the upload directory it writes into. */
  class Controller {
    var disk: Store

    constructor (initial: Store)
      ensures disk == initial
    {
      disk := initial;
    }

    /** `uploadFile`: returns the reply and updates the store as `Stored` says. */
    method UploadFile(file: Option<MulterFile>, fault: bool) returns (reply: Reply)
      modifies this
      ensures reply == Respond(file, fault)
      ensures disk == Stored(old(disk), file, fault)
      ensures reply.Created? ==> disk[reply.body.filename] == file.value.buffer
    {
      if file.None? {
        return BadRequest(NoFileMessage);
      }
      var f := file.value;
      if fault {
        return BadRequest(ProcessingErrorMessage);
      }
      disk := disk[f.originalname := f.buffer];
      reply := Created(UploadResponse(SuccessMessage, f.originalname, Some(f.size), Some(f.mimetype)));
    }
  }
}
