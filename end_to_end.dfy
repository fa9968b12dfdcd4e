/**
 * One round trip: the client sends its held candidate, the endpoint answers,
 * and the client's completion handler reconciles the answer. These lemmas
 * connect the endpoint's replies to the uploader's transitions.
 */
module EndToEnd {
  import opened Wrappers
  import opened Strings
  import opened FileUpload
  import UploadController

  /**
   * The multipart file the endpoint receives for a candidate and its bytes.
   * Multer's `originalname`, `mimetype` and `size` are taken to be the
   * browser file's `name`, `type` and `size`.
   */
  function Received(c: Candidate, bytes: seq<UploadController.byte>): UploadController.MulterFile
  {
    UploadController.MulterFile(c.name, c.mimeType, c.size, bytes)
  }

  /** The endpoint's success message is shown in green. */
  lemma SuccessGreen()
    ensures StatusColour(UploadController.SuccessMessage) == Green
  {
    IncludesAt(UploadController.SuccessMessage, "sucesso", 20);
  }

  /**
   * A successful upload is recorded once, under the candidate's own name and
   * size, which are also the acknowledged name and the key the bytes are
   * stored under; the bar is full and the status is green.
   */
  lemma AcknowledgedUploadRecorded(s: Snapshot, request: nat, bytes: seq<UploadController.byte>,
                                   disk: UploadController.Store, now: int)
    requires request < |s.pending|
    ensures var c := s.pending[request];
      var f := Received(c, bytes);
      var reply := UploadController.Respond(Some(f), false);
      var t := Next(s, Load(request, UploadController.HttpStatus(reply), reply.body.message, now));
      && t.uploadedFiles == s.uploadedFiles + [UploadedFile(c.name, c.size, now)]
      && t.uploadedFiles[|s.uploadedFiles|].filename == reply.body.filename
      && UploadController.Stored(disk, Some(f), false)[reply.body.filename] == bytes
      && ProgressBarShown(t.upload.progress)
      && StatusColour(t.upload.status) == Green
  {
    var c := s.pending[request];
    var f := Received(c, bytes);
    var reply := UploadController.Respond(Some(f), false);
    assert reply.body.message == UploadController.SuccessMessage;
    var t := Next(s, Load(request, UploadController.HttpStatus(reply), reply.body.message, now));
    assert t.upload.status == UploadController.SuccessMessage;
    SuccessGreen();
  }

  /**
   * A rejected request, for a missing file or a failed write, leaves the
   * history and the store as they were, resets the bar and shows a red
   * send-failure status whatever the endpoint's own message was.
   */
  lemma RejectedUploadNotRecorded(s: Snapshot, request: nat, file: Option<UploadController.MulterFile>,
                                  fault: bool, disk: UploadController.Store, now: int)
    requires request < |s.pending|
    requires file.None? || fault
    ensures var reply := UploadController.Respond(file, fault);
      var t := Next(s, Load(request, UploadController.HttpStatus(reply), reply.message, now));
      && t.uploadedFiles == s.uploadedFiles
      && t.pending == Without(s.pending, request)
      && UploadController.Stored(disk, file, fault) == disk
      && !ProgressBarShown(t.upload.progress)
      && t.upload.status == SendFailedMessage
      && StatusColour(t.upload.status) == Red
  {
    var reply := UploadController.Respond(file, fault);
    assert UploadController.HttpStatus(reply) == 400;
    var t := Next(s, Load(request, UploadController.HttpStatus(reply), reply.message, now));
    assert t.upload.status == SendFailedMessage;
    SendFailedRed();
  }
}
