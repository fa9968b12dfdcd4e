/**
 * The uploader component with rendering and transport stripped away: the
 * held candidate, the status line and the progress value, the append-only
 * list of files the server acknowledged, and the requests issued and not yet
 * completed. `Next` is the pure meaning of one event; the class `Uploader`
 * performs the same updates on fields, one method per event handler.
 */
module FileUpload {
  import opened Wrappers
  import opened Strings
  import FileValidation

  /** A file the user picked: its name, declared media type and byte size. */
  datatype Candidate = Candidate(name: string, mimeType: string, size: nat)

  /** The `uploadState` record: the held file, the status line and the progress. */
  datatype UploadState = UploadState(file: Option<Candidate>, status: string, progress: nat)

  /** One entry of the uploaded-files list; `uploadedAt` is the client clock reading. */
  datatype UploadedFile = UploadedFile(filename: string, size: nat, uploadedAt: int)

  /**
   * Everything the component holds. `pending` lists the requests issued and
   * not yet completed: each `handleUpload` with a held file creates a
   * request whose callbacks keep the file it was sent with.
   */
  datatype Snapshot = Snapshot(upload: UploadState, uploadedFiles: seq<UploadedFile>, pending: seq<Candidate>)

  /**
   * The events the component reacts to. `Progress` reports on the pending
   * request at index `request`; `Load` and `TransportError` end it; `httpStatus` and `message` come from
   * the response and `now` is the clock reading at completion.
   */
  datatype Event =
    | Select(files: seq<Candidate>)
    | Drop(files: seq<Candidate>)
    | Upload
    | Progress(request: nat, percent: nat)
    | Load(request: nat, httpStatus: int, message: string, now: int)
    | TransportError(request: nat)

  const CreatedStatus := 201
  const SelectedMessage := "Arquivo selecionado"
  const NoFileMessage := "Por favor, selecione um arquivo"
  const SendFailedMessage := "Erro ao enviar arquivo"
  const ConnectionErrorMessage := "Erro na conexão"

  /** The status line while a transfer is under way. */
  function SendingMessage(percent: nat): string
  {
    "Enviando: " + Decimal(percent) + "%"
  }

  /** The state the component starts in. */
  function Initial(): Snapshot
  {
    Snapshot(UploadState(None, "", 0), [], [])
  }

  /** Selection and drop: validate the first file of the list, if there is one. */
  function Choose(u: UploadState, files: seq<Candidate>): (r: UploadState)
    ensures |files| == 0 ==> r == u
    ensures |files| > 0 ==> r.progress == u.progress
    ensures |files| > 0 ==> (r.file.Some? <==> Validated(files[0]))
    ensures |files| > 0 && r.file.Some? ==> r.file.value == files[0]
    ensures (u.file.Some? ==> Validated(u.file.value)) ==> (r.file.Some? ==> Validated(r.file.value))
  {
    if |files| == 0 then u
    else
      var validation := FileValidation.ValidateFile(files[0].mimeType, files[0].size);
      if !validation.isValid then u.(file := None, status := validation.message)
      else u.(file := Some(files[0]), status := SelectedMessage)
  }

  /** Whether a candidate passes the validator. */
  predicate Validated(c: Candidate)
  {
    FileValidation.ValidateFile(c.mimeType, c.size).isValid
  }

  /** The record a successful completion appends: the sent file's own name and size. */
  function RecordOf(sent: Candidate, now: int): UploadedFile
  {
    UploadedFile(sent.name, sent.size, now)
  }

  /** Whether a record names candidate `c`: the same file name and size. */
  predicate RecordedFrom(r: UploadedFile, c: Candidate)
  {
    r.filename == c.name && r.size == c.size
  }

  /** `xs` with its element at `i` taken out. */
  function Without(xs: seq<Candidate>, i: nat): (r: seq<Candidate>)
    requires i < |xs|
    ensures |r| == |xs| - 1
    ensures forall c :: c in r ==> c in xs
  {
    xs[..i] + xs[i + 1..]
  }

  /** Whether an event ends a request that is pending in `s`. */
  predicate Completes(s: Snapshot, e: Event)
  {
    (e.Load? || e.TransportError?) && e.request < |s.pending|
  }

  /** Whether an event is a 201 completion of a request pending in `s`. */
  predicate IsCreated(s: Snapshot, e: Event)
  {
    e.Load? && e.httpStatus == CreatedStatus && e.request < |s.pending|
  }

  /**
   * The effect of one event. A progress report or completion naming no
   * pending request cannot arise (a request's callbacks exist only once it
   * is issued) and has no effect.
   */
  function Next(s: Snapshot, e: Event): (t: Snapshot)
    ensures s.uploadedFiles <= t.uploadedFiles
    ensures |t.uploadedFiles| == |s.uploadedFiles| + (if IsCreated(s, e) then 1 else 0)
    ensures IsCreated(s, e) ==> t.uploadedFiles[|s.uploadedFiles|] == RecordOf(s.pending[e.request], e.now)
    ensures forall c :: c in t.pending ==> c in s.pending || (e.Upload? && s.upload.file == Some(c))
  {
    match e
    case Select(files) => s.(upload := Choose(s.upload, files))
    case Drop(files) => s.(upload := Choose(s.upload, files))
    case Upload =>
      if s.upload.file.None? then s.(upload := s.upload.(status := NoFileMessage))
      else s.(pending := s.pending + [s.upload.file.value])
    case Progress(request, percent) =>
      if request >= |s.pending| then s
      else s.(upload := s.upload.(progress := percent, status := SendingMessage(percent)))
    case Load(request, httpStatus, message, now) =>
      if request >= |s.pending| then s
      else if httpStatus == CreatedStatus then
        Snapshot(s.upload.(status := message, progress := 100),
                 s.uploadedFiles + [RecordOf(s.pending[request], now)],
                 Without(s.pending, request))
      else
        Snapshot(s.upload.(status := SendFailedMessage, progress := 0),
                 s.uploadedFiles, Without(s.pending, request))
    case TransportError(request) =>
      if request >= |s.pending| then s
      else
        Snapshot(s.upload.(status := ConnectionErrorMessage, progress := 0),
                 s.uploadedFiles, Without(s.pending, request))
  }

  /** The state after a sequence of events, taken in order. */
  function Run(s: Snapshot, events: seq<Event>): (t: Snapshot)
    ensures s.uploadedFiles <= t.uploadedFiles
    decreases |events|
  {
    if events == [] then s else Run(Next(s, events[0]), events[1..])
  }

  /** The files the `Upload` events among `events` send, in order. */
  function Issued(s: Snapshot, events: seq<Event>): seq<Candidate>
    decreases |events|
  {
    if events == [] then []
    else (if events[0].Upload? && s.upload.file.Some? then [s.upload.file.value] else [])
         + Issued(Next(s, events[0]), events[1..])
  }

  /** The records the 201 completions among `events` append, in order. */
  function CreatedRecords(s: Snapshot, events: seq<Event>): seq<UploadedFile>
    decreases |events|
  {
    if events == [] then []
    else (if IsCreated(s, events[0]) then [RecordOf(s.pending[events[0].request], events[0].now)] else [])
         + CreatedRecords(Next(s, events[0]), events[1..])
  }

  /**
   * The history grows by exactly one record per 201 completion and by
   * nothing else: no partial, removed or reordered entries.
   */
  lemma {:induction false} RunHistory(s: Snapshot, events: seq<Event>)
    ensures Run(s, events).uploadedFiles == s.uploadedFiles + CreatedRecords(s, events)
    decreases |events|
  {
    if events != [] {
      var t := Next(s, events[0]);
      RunHistory(t, events[1..]);
      if IsCreated(s, events[0]) {
        assert t.uploadedFiles == s.uploadedFiles + [RecordOf(s.pending[events[0].request], events[0].now)];
      } else {
        assert t.uploadedFiles == s.uploadedFiles;
      }
    }
  }

  /** A history changes only through 201 completions. */
  lemma RunWithoutCreated(s: Snapshot, events: seq<Event>)
    requires forall i :: 0 <= i < |events| ==> !(events[i].Load? && events[i].httpStatus == CreatedStatus)
    ensures Run(s, events).uploadedFiles == s.uploadedFiles
  {
    RunHistory(s, events);
    NoCreatedRecords(s, events);
  }

  lemma {:induction false} NoCreatedRecords(s: Snapshot, events: seq<Event>)
    requires forall i :: 0 <= i < |events| ==> !(events[i].Load? && events[i].httpStatus == CreatedStatus)
    ensures CreatedRecords(s, events) == []
    decreases |events|
  {
    if events != [] {
      assert forall i :: 0 <= i < |events| - 1 ==> events[1..][i] == events[i + 1];
      NoCreatedRecords(Next(s, events[0]), events[1..]);
    }
  }

  /**
   * Every record a run appends names a file that was pending at its start
   * or that one of its `Upload` events sent.
   */
  lemma {:induction false} RunProvenance(s: Snapshot, events: seq<Event>)
    ensures var t := Run(s, events);
      forall j :: |s.uploadedFiles| <= j < |t.uploadedFiles| ==>
        exists c :: (c in s.pending || c in Issued(s, events)) && RecordedFrom(t.uploadedFiles[j], c)
    decreases |events|
  {
    if events != [] {
      var e := events[0];
      var t1 := Next(s, e);
      var t := Run(s, events);
      var first := if e.Upload? && s.upload.file.Some? then [s.upload.file.value] else [];
      assert t == Run(t1, events[1..]);
      assert Issued(s, events) == first + Issued(t1, events[1..]);
      RunProvenance(t1, events[1..]);
      forall j | |s.uploadedFiles| <= j < |t.uploadedFiles|
        ensures exists c :: (c in s.pending || c in Issued(s, events)) && RecordedFrom(t.uploadedFiles[j], c)
      {
        if j < |t1.uploadedFiles| {
          var c := s.pending[e.request];
          assert t.uploadedFiles[j] == t1.uploadedFiles[j];
          assert RecordedFrom(t.uploadedFiles[j], c);
        } else {
          assert exists c :: (c in t1.pending || c in Issued(t1, events[1..]))
                             && RecordedFrom(Run(t1, events[1..]).uploadedFiles[j], c);
          var c :| (c in t1.pending || c in Issued(t1, events[1..])) && RecordedFrom(t.uploadedFiles[j], c);
          if c in t1.pending && c !in s.pending {
            assert c in first;
          }
          assert c in s.pending || c in Issued(s, events);
        }
      }
    }
  }

  // ---- What the validator guarantees downstream ----

  /** The held file, if any, passed the validator. */
  predicate HeldValid(s: Snapshot)
  {
    s.upload.file.Some? ==> Validated(s.upload.file.value)
  }

  /**
   * The invariant the handlers keep: the held file and every file of a
   * pending request passed the validator.
   */
  predicate Consistent(s: Snapshot)
  {
    && HeldValid(s)
    && (forall c :: c in s.pending ==> Validated(c))
  }

  lemma InitialConsistent()
    ensures Consistent(Initial())
  {
  }

  /** Every event keeps the invariant. */
  lemma NextKeepsConsistent(s: Snapshot, e: Event)
    requires Consistent(s)
    ensures Consistent(Next(s, e))
  {
  }

  /** The invariant holds after any sequence of events. */
  lemma {:induction false} RunKeepsConsistent(s: Snapshot, events: seq<Event>)
    requires Consistent(s)
    ensures Consistent(Run(s, events))
    decreases |events|
  {
    if events != [] {
      NextKeepsConsistent(s, events[0]);
      RunKeepsConsistent(Next(s, events[0]), events[1..]);
    }
  }

  /** A file the validator rejects is never sent. */
  lemma {:induction false} IssuedValidated(s: Snapshot, events: seq<Event>)
    requires HeldValid(s)
    ensures forall c :: c in Issued(s, events) ==> Validated(c)
    decreases |events|
  {
    if events != [] {
      var t1 := Next(s, events[0]);
      assert HeldValid(t1);
      IssuedValidated(t1, events[1..]);
    }
  }

  /**
   * From the initial state, whatever happens, every file sent passed the
   * validator, and every record names one of the files sent.
   */
  lemma OnlyValidatedFilesSentAndRecorded(events: seq<Event>)
    ensures forall c :: c in Issued(Initial(), events) ==> Validated(c)
    ensures forall r :: r in Run(Initial(), events).uploadedFiles ==>
      exists c :: c in Issued(Initial(), events) && Validated(c) && RecordedFrom(r, c)
  {
    IssuedValidated(Initial(), events);
    RunProvenance(Initial(), events);
    var t := Run(Initial(), events);
    forall r | r in t.uploadedFiles
      ensures exists c :: c in Issued(Initial(), events) && Validated(c) && RecordedFrom(r, c)
    {
      var j :| 0 <= j < |t.uploadedFiles| && t.uploadedFiles[j] == r;
      assert |Initial().uploadedFiles| <= j < |Run(Initial(), events).uploadedFiles|;
      assert exists c :: (c in Initial().pending || c in Issued(Initial(), events))
                         && RecordedFrom(Run(Initial(), events).uploadedFiles[j], c);
      var c :| (c in Initial().pending || c in Issued(Initial(), events)) && RecordedFrom(t.uploadedFiles[j], c);
      assert c in Issued(Initial(), events) && Validated(c);
    }
  }

  // ---- Per-event behaviour ----

  /** An invalid pick clears the held file and shows the validator's reason. */
  lemma ChooseInvalid(s: Snapshot, files: seq<Candidate>)
    requires |files| > 0
    requires !FileValidation.ValidateFile(files[0].mimeType, files[0].size).isValid
    ensures var t := Next(s, Select(files));
      && t.upload.file == None
      && t.upload.status == FileValidation.ValidateFile(files[0].mimeType, files[0].size).message
      && t.upload.progress == s.upload.progress
      && t.uploadedFiles == s.uploadedFiles && t.pending == s.pending
  {
  }

  /** A valid pick is held and announced; progress and history are untouched. */
  lemma ChooseValid(s: Snapshot, files: seq<Candidate>)
    requires |files| > 0
    requires FileValidation.ValidateFile(files[0].mimeType, files[0].size).isValid
    ensures var t := Next(s, Select(files));
      && t.upload == UploadState(Some(files[0]), SelectedMessage, s.upload.progress)
      && t.uploadedFiles == s.uploadedFiles && t.pending == s.pending
  {
  }

  /**
   * Dropping a file and selecting it have the same effect. The two source
   * handlers have identical bodies, and the model routes both through
   * `Choose`, so this records that decision rather than comparing two
   * separate definitions.
   */
  lemma DropIsSelect(s: Snapshot, files: seq<Candidate>)
    ensures Next(s, Drop(files)) == Next(s, Select(files))
  {
  }

  /** An empty file list changes nothing. */
  lemma EmptyChoiceIgnored(s: Snapshot)
    ensures Next(s, Select([])) == s && Next(s, Drop([])) == s
  {
  }

  /** Pressing upload with no held file only sets the prompt and sends nothing. */
  lemma UploadWithoutFile(s: Snapshot)
    requires s.upload.file.None?
    ensures var t := Next(s, Upload);
      && t.upload == s.upload.(status := NoFileMessage)
      && t.uploadedFiles == s.uploadedFiles && t.pending == s.pending
  {
  }

  /** Pressing upload with a held file issues one request for it and changes nothing else. */
  lemma UploadWithFile(s: Snapshot)
    requires s.upload.file.Some?
    ensures var t := Next(s, Upload);
      && t.pending == s.pending + [s.upload.file.value]
      && t.upload == s.upload && t.uploadedFiles == s.uploadedFiles
  {
  }

  /**
   * A 201 completion appends the name and size of the file that request
   * carried, ends the request, fills the bar and shows the server's message.
   */
  lemma LoadCreated(s: Snapshot, request: nat, message: string, now: int)
    requires request < |s.pending|
    ensures var t := Next(s, Load(request, CreatedStatus, message, now));
      && t.uploadedFiles == s.uploadedFiles + [UploadedFile(s.pending[request].name, s.pending[request].size, now)]
      && t.upload.progress == 100
      && t.upload.status == message
      && t.upload.file == s.upload.file
      && t.pending == Without(s.pending, request)
  {
  }

  /** Any other completion status resets progress and reports a send failure. */
  lemma LoadFailed(s: Snapshot, request: nat, httpStatus: int, message: string, now: int)
    requires request < |s.pending| && httpStatus != CreatedStatus
    ensures var t := Next(s, Load(request, httpStatus, message, now));
      && t.upload == s.upload.(progress := 0, status := SendFailedMessage)
      && t.uploadedFiles == s.uploadedFiles
      && t.pending == Without(s.pending, request)
  {
  }

  /** A transport error resets progress and reports a connection failure. */
  lemma TransportErrorResets(s: Snapshot, request: nat)
    requires request < |s.pending|
    ensures var t := Next(s, TransportError(request));
      && t.upload == s.upload.(progress := 0, status := ConnectionErrorMessage)
      && t.uploadedFiles == s.uploadedFiles
      && t.pending == Without(s.pending, request)
  {
  }

  /** A progress report of 50 followed by a 201 completion: 50, then 100, and one record. */
  lemma ProgressThenCreated(s: Snapshot, request: nat, message: string, now: int)
    requires request < |s.pending|
    ensures Next(s, Progress(request, 50)).upload.progress == 50
    ensures Next(s, Progress(request, 50)).upload.status == "Enviando: 50%"
    ensures var t := Run(s, [Progress(request, 50), Load(request, CreatedStatus, message, now)]);
      && t.upload.progress == 100
      && t.uploadedFiles == s.uploadedFiles + [RecordOf(s.pending[request], now)]
  {
    assert Decimal(50) == "50";
    var events := [Progress(request, 50), Load(request, CreatedStatus, message, now)];
    var t1 := Next(s, events[0]);
    var t2 := Next(t1, events[1]);
    assert events[1..][1..] == [];
    assert Run(t1, events[1..]) == Run(t2, []) == t2;
  }

  // ---- Rendering decisions ----

  datatype Colour = Green | Red | Blue

  /** The status line's colour: green on "sucesso", else red on "Erro", else blue. */
  function StatusColour(status: string): Colour
  {
    if Includes(status, "sucesso") then Green
    else if Includes(status, "Erro") then Red
    else Blue
  }

  /** The status line is rendered only when it is not empty. */
  predicate StatusShown(status: string)
  {
    status != ""
  }

  /** The progress bar is rendered exactly when progress is positive. */
  predicate ProgressBarShown(progress: nat)
  {
    progress > 0
  }

  /**
   * The colour against the reference meaning of `includes`: green exactly
   * when "sucesso" occurs, red exactly when "Erro" occurs and "sucesso"
   * does not, blue exactly when neither occurs.
   */
  lemma StatusColourMeaning(status: string)
    ensures StatusColour(status) == Green <==> exists i :: OccursAt(status, "sucesso", i)
    ensures StatusColour(status) == Red <==>
      (!exists i :: OccursAt(status, "sucesso", i)) && exists i :: OccursAt(status, "Erro", i)
    ensures StatusColour(status) == Blue <==>
      (!exists i :: OccursAt(status, "sucesso", i)) && !exists i :: OccursAt(status, "Erro", i)
  {
    IncludesIffOccurs(status, "sucesso");
    IncludesIffOccurs(status, "Erro");
  }

  /** A status starting with "Erro" and holding no 's' is red. */
  lemma RedWhenErro(status: string)
    requires "Erro" <= status && 's' !in status
    ensures StatusColour(status) == Red
  {
    ExcludesByHead(status, "sucesso");
  }

  /** A status holding neither an 's' nor an 'E' is blue. */
  lemma BlueWithoutMarkerHeads(status: string)
    requires 's' !in status && 'E' !in status
    ensures StatusColour(status) == Blue
  {
    ExcludesByHead(status, "sucesso");
    ExcludesByHead(status, "Erro");
  }

  lemma SendFailedRed()
    ensures StatusColour(SendFailedMessage) == Red
  {
    RedWhenErro(SendFailedMessage);
  }

  lemma ConnectionErrorRed()
    ensures StatusColour(ConnectionErrorMessage) == Red
  {
    RedWhenErro(ConnectionErrorMessage);
  }

  /** Both failure messages are shown in red. */
  lemma FailureColours()
    ensures StatusColour(SendFailedMessage) == Red
    ensures StatusColour(ConnectionErrorMessage) == Red
  {
    SendFailedRed();
    ConnectionErrorRed();
  }

  lemma TypeNotAllowedBlue()
    ensures StatusColour(FileValidation.TypeNotAllowedMessage) == Blue
  {
    BlueWithoutMarkerHeads(FileValidation.TypeNotAllowedMessage);
  }

  lemma TooLargeBlue()
    ensures StatusColour(FileValidation.TooLargeMessage) == Blue
  {
    BlueWithoutMarkerHeads(FileValidation.TooLargeMessage);
  }

  lemma ValidBlue()
    ensures StatusColour(FileValidation.ValidMessage) == Blue
  {
    BlueWithoutMarkerHeads(FileValidation.ValidMessage);
  }

  /**
   * The validator's messages, including its two rejections, and the other
   * prompts the client sets itself are all shown in blue: none of them
   * contains "sucesso" or "Erro".
   */
  lemma NeutralColours()
    ensures StatusColour(FileValidation.TypeNotAllowedMessage) == Blue
    ensures StatusColour(FileValidation.TooLargeMessage) == Blue
    ensures StatusColour(FileValidation.ValidMessage) == Blue
    ensures StatusColour(SelectedMessage) == Blue
    ensures StatusColour(NoFileMessage) == Blue
  {
    TypeNotAllowedBlue();
    TooLargeBlue();
    ValidBlue();
    SelectedBlue();
    NoFileBlue();
  }

  /**
   * `a + "s" + rest` is blue when neither `a` nor `rest` holds an 'E' or
   * an 's' and `rest` does not start with 'u'.
   */
  lemma BlueAroundOneS(a: string, rest: string)
    requires 'E' !in a && 's' !in a && 'E' !in rest && 's' !in rest
    requires |rest| > 0 && rest[0] != 'u'
    ensures StatusColour(a + "s" + rest) == Blue
  {
    var b := "s" + rest;
    assert b[1..] == rest && b[1] == rest[0];
    ExcludesPastFirst(b, "sucesso");
    ExcludesAcrossPrefix(a, b, "sucesso");
    assert a + "s" + rest == a + b;
    assert 'E' !in a + b;
    ExcludesByHead(a + b, "Erro");
  }

  lemma SelectedBlue()
    ensures StatusColour(SelectedMessage) == Blue
  {
    assert "Arquivo " + "s" + "elecionado" == SelectedMessage;
    BlueAroundOneS("Arquivo ", "elecionado");
  }

  lemma NoFileBlue()
    ensures StatusColour(NoFileMessage) == Blue
  {
    assert "Por favor, " + "s" + "elecione um arquivo" == NoFileMessage;
    BlueAroundOneS("Por favor, ", "elecione um arquivo");
  }

  /** Every progress status is shown in blue. */
  lemma SendingColour(percent: nat)
    ensures StatusColour(SendingMessage(percent)) == Blue
  {
    var d := Decimal(percent);
    var m := SendingMessage(percent);
    var tail := "nviando: " + d + "%";
    assert m == "E" + tail;
    assert 's' !in m && 'E' !in tail by {
      forall i | 0 <= i < |tail| ensures tail[i] != 'E' && tail[i] != 's' {
        if 9 <= i < 9 + |d| { assert tail[i] == d[i - 9]; }
      }
    }
    assert m[1..] == tail && m[1] == 'n';
    ExcludesByHead(m, "sucesso");
    ExcludesPastFirst(m, "Erro");
  }

  /**
   * The status line is hidden initially; an event that changes it leaves
   * it shown, unless it is a 201 completion whose response message is empty.
   */
  lemma StatusShownAfterEvent(s: Snapshot, e: Event)
    ensures !StatusShown(Initial().upload.status)
    ensures var t := Next(s, e);
      t.upload.status != s.upload.status ==>
        StatusShown(t.upload.status) || (IsCreated(s, e) && e.message == "")
  {
    if e.Select? || e.Drop? {
      if |e.files| > 0 {
        var v := FileValidation.ValidateFile(e.files[0].mimeType, e.files[0].size);
        assert |v.message| > 0;
      }
    } else if e.Progress? {
      assert |SendingMessage(e.percent)| > 0;
    }
  }

  /** Which events show or hide the progress bar. */
  lemma ProgressBarAfterEvent(s: Snapshot, e: Event)
    ensures IsCreated(s, e) ==> ProgressBarShown(Next(s, e).upload.progress)
    ensures Completes(s, e) && !IsCreated(s, e) ==> !ProgressBarShown(Next(s, e).upload.progress)
    ensures e.Progress? && e.request < |s.pending| ==>
      (ProgressBarShown(Next(s, e).upload.progress) <==> e.percent > 0)
    ensures e.Progress? && e.request >= |s.pending| ==> Next(s, e) == s
    ensures e.Select? || e.Drop? || e.Upload? ==> Next(s, e).upload.progress == s.upload.progress
  {
  }

  /**
   * The component's state as a class: each handler replaces the fields of
   * `uploadState`, appends to `uploadedFiles`, or issues or ends a request,
   * exactly as `Next` says.
   */
  class Uploader {
    var file: Option<Candidate>
    var status: string
    var progress: nat
    var uploadedFiles: seq<UploadedFile>
    /** The requests issued and not yet completed, with the file each carries. */
    var pending: seq<Candidate>

    /** The fields as a value. */
    function State(): Snapshot
      reads this
    {
      Snapshot(UploadState(file, status, progress), uploadedFiles, pending)
    }

    ghost predicate Valid()
      reads this
    {
      Consistent(State())
    }

    constructor ()
      ensures State() == Initial() && Valid()
    {
      file := None;
      status := "";
      progress := 0;
      uploadedFiles := [];
      pending := [];
    }

    /** Shared body of the two selection handlers. */
    method TakeFirst(files: seq<Candidate>)
      requires Valid()
      modifies this
      ensures State() == old(State()).(upload := Choose(old(State()).upload, files))
      ensures Valid()
    {
      if |files| > 0 {
        var candidate := files[0];
        var validation := FileValidation.ValidateFile(candidate.mimeType, candidate.size);
        if !validation.isValid {
          file := None;
          status := validation.message;
        } else {
          file := Some(candidate);
          status := SelectedMessage;
        }
      }
      NextKeepsConsistent(old(State()), Select(files));
    }

    /** `handleFileChange`: the input's file list. */
    method HandleFileChange(files: seq<Candidate>)
      requires Valid()
      modifies this
      ensures State() == Next(old(State()), Select(files))
      ensures uploadedFiles == old(uploadedFiles) && progress == old(progress) && pending == old(pending)
      ensures Valid()
    {
      TakeFirst(files);
    }

    /** `handleDrop`: the dropped file list. */
    method HandleDrop(files: seq<Candidate>)
      requires Valid()
      modifies this
      ensures State() == Next(old(State()), Drop(files))
      ensures uploadedFiles == old(uploadedFiles) && progress == old(progress) && pending == old(pending)
      ensures Valid()
    {
      TakeFirst(files);
    }

    /**
     * `handleUpload`: returns the file a request is issued for, or `None`
     * when no file is held and only the prompt is set. The file sent
     * always passed the validator.
     */
    method HandleUpload() returns (request: Option<Candidate>)
      requires Valid()
      modifies this
      ensures request == old(file)
      ensures request.Some? ==> Validated(request.value)
      ensures request.Some? ==> pending == old(pending) + [request.value]
      ensures State() == Next(old(State()), Upload)
      ensures Valid()
    {
      request := file;
      if file.None? {
        status := NoFileMessage;
      } else {
        pending := pending + [file.value];
      }
      NextKeepsConsistent(old(State()), Upload);
    }

    /** `xhr.upload.onprogress`, with the percentage supplied. */
    method OnProgress(request: nat, percent: nat)
      requires Valid() && request < |pending|
      modifies this
      ensures State() == Next(old(State()), Progress(request, percent))
      ensures progress == percent && uploadedFiles == old(uploadedFiles)
      ensures Valid()
    {
      progress := percent;
      status := SendingMessage(percent);
      NextKeepsConsistent(old(State()), Progress(request, percent));
    }

    /** `xhr.onload` for the pending request at index `request`. */
    method OnLoad(request: nat, httpStatus: int, message: string, now: int)
      requires Valid() && request < |pending|
      modifies this
      ensures State() == Next(old(State()), Load(request, httpStatus, message, now))
      ensures old(uploadedFiles) <= uploadedFiles
      ensures Valid()
    {
      var sent := pending[request];
      pending := Without(pending, request);
      if httpStatus == CreatedStatus {
        uploadedFiles := uploadedFiles + [RecordOf(sent, now)];
        status := message;
        progress := 100;
      } else {
        status := SendFailedMessage;
        progress := 0;
      }
      NextKeepsConsistent(old(State()), Load(request, httpStatus, message, now));
    }

    /** `xhr.onerror` for the pending request at index `request`. */
    method OnError(request: nat)
      requires Valid() && request < |pending|
      modifies this
      ensures State() == Next(old(State()), TransportError(request))
      ensures uploadedFiles == old(uploadedFiles) && progress == 0
      ensures Valid()
    {
      pending := Without(pending, request);
      status := ConnectionErrorMessage;
      progress := 0;
      NextKeepsConsistent(old(State()), TransportError(request));
    }
  }
}
