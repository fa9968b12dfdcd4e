# File upload service — Dafny model

This project models a small single-file upload service. It has three parts:

- **Validator** (`FileValidation`): decides whether a picked file may be uploaded, from its declared
  media type and its byte size. It accepts three types, `image/jpeg`, `image/png` and
  `application/pdf`. The size ceiling is 5 MiB and is inclusive. The type is checked first.
- **Uploader** (`FileUpload`): the browser component's state with rendering and transport taken away.
  The state is the held candidate, the status line, the progress value, the append-only list of
  uploaded files and the requests issued and not yet completed, each with the file it carries. `Next` gives the pure meaning of each event: select, drop, upload, progress,
  completion and transport error. The class `Uploader` has one method per handler. Each method updates
  the fields and proves it matches `Next`. `StatusColour`, `StatusShown` and `ProgressBarShown` are
  the render decisions.
- **Ingest endpoint** (`UploadController`): `POST /upload` over an abstract store from file names to
  bytes. `Respond` gives the reply and `Stored` gives the new store. The class `Controller` holds the
  store as a `map` field, and its `UploadFile` method is proved against those two functions.
- `Strings` models JavaScript's `String.prototype.includes` and the decimal rendering of a whole
  number. `EndToEnd` connects the endpoint's replies to the uploader's completion handler.

Transport values become event parameters: the response status, the response message and the client
clock. Each upload with a held file issues a request that stays pending until its completion or
transport error; a completion event names its pending request by index. The source's completion
handler reads the file captured when the request was issued
(`frontend/file-upload-client/src/components/FileUpload.tsx:97-98`), not whatever is held when the
response arrives, so the record appended is built from the pending request's file. The endpoint's
failure is a `fault` parameter.

The endpoint's messages are the code's Portuguese strings.

## Model

| member | source | states |
|---|---|---|
| `FileValidation.ValidateFile` | frontend/file-upload-client/src/utils/fileValidation.ts:11-41 | valid exactly when the type is one of the three allowed and size <= 5 MiB; valid exactly when the message is "Arquivo válido"; the type message exactly when the type is not allowed; the size message exactly when the type is allowed and the size is too large; always one of the three messages |
| `FileValidation.TypeCheckedFirst` | frontend/file-upload-client/src/utils/fileValidation.ts:16-25 | a disallowed type gives the type failure whatever the size |
| `FileValidation.SizeBoundary` | frontend/file-upload-client/src/utils/fileValidation.ts:13-34 | the ceiling is 5242880; an allowed type passes at 5242880 bytes and fails with the size message at 5242881 |
| `FileValidation.NearMissesRejected` | frontend/file-upload-client/src/utils/fileValidation.ts:16-20 | membership is exact: "image/jpg", "IMAGE/PNG", a trailing space, "" and "application/x-pdf" are rejected |
| `FileValidation.AcceptedTypes` | frontend/file-upload-client/src/utils/fileValidation.ts:16-20 | only the three listed types can pass |
| `Strings.IncludesIffOccurs` | frontend/file-upload-client/src/components/FileUpload.tsx:175-177 | the recursive `includes` holds exactly when `sub` occurs at some index of `s` |
| `Strings.Includes` | frontend/file-upload-client/src/components/FileUpload.tsx:175-177 | an inclusion implies `sub` is no longer than `s` |
| `Strings.Decimal` | frontend/file-upload-client/src/components/FileUpload.tsx:86 | the rendering of a number is a non-empty digit string with no leading zero |
| `Strings.DecimalRoundTrip` | frontend/file-upload-client/src/components/FileUpload.tsx:86 | reading the rendered digits back gives the number |
| `FileUpload.Next` | frontend/file-upload-client/src/components/FileUpload.tsx:22-122 | no event removes or changes history entries; history grows by one exactly on a 201 completion of a pending request, and that entry is the name and size of the file that request carried, with the completion time; only an upload with a held file adds a pending request, and only that file |
| `FileUpload.Run` | frontend/file-upload-client/src/components/FileUpload.tsx:94-101 | over any sequence of events the history is append-only |
| `FileUpload.RunHistory` | frontend/file-upload-client/src/components/FileUpload.tsx:90-122 | after any sequence of events the history is the old history followed by one record per 201 completion, in order |
| `FileUpload.RunWithoutCreated` | frontend/file-upload-client/src/components/FileUpload.tsx:107-122 | events without a 201 completion leave the history unchanged |
| `FileUpload.RunProvenance` | frontend/file-upload-client/src/components/FileUpload.tsx:90-101 | every record a run appends names (same name and size) a file that was pending at its start or that one of its upload events sent |
| `FileUpload.InitialConsistent` | frontend/file-upload-client/src/components/FileUpload.tsx:13-19 | the initial state satisfies the invariant: no held file and no pending request |
| `FileUpload.NextKeepsConsistent` | frontend/file-upload-client/src/components/FileUpload.tsx:22-122 | every event keeps the invariant: the held file and every pending file passed the validator |
| `FileUpload.RunKeepsConsistent` | frontend/file-upload-client/src/components/FileUpload.tsx:22-122 | the invariant (held and pending files passed the validator) holds after any sequence of events |
| `FileUpload.IssuedValidated` | frontend/file-upload-client/src/components/FileUpload.tsx:67-79 | from a state whose held file passed the validator, every file any upload event sends passed it |
| `FileUpload.OnlyValidatedFilesSentAndRecorded` | frontend/file-upload-client/src/components/FileUpload.tsx:22-122 | from the initial state, every file sent passed the validator, and every record has the name and size of one of the files sent |
| `FileUpload.Choose` | frontend/file-upload-client/src/components/FileUpload.tsx:22-64 | an empty list changes nothing; otherwise a file is held exactly when the first file passes the validator, that file is the one held, and progress is unchanged; a held file that passed the validator stays so |
| `FileUpload.ChooseInvalid` | frontend/file-upload-client/src/components/FileUpload.tsx:22-32 | an invalid pick clears the held file and shows the validator's message; progress and history are unchanged |
| `FileUpload.ChooseValid` | frontend/file-upload-client/src/components/FileUpload.tsx:33-38 | a valid pick is held with status "Arquivo selecionado"; progress and history are unchanged |
| `FileUpload.DropIsSelect` | frontend/file-upload-client/src/components/FileUpload.tsx:44-64 | dropping a file list has the same effect as selecting it |
| `FileUpload.EmptyChoiceIgnored` | frontend/file-upload-client/src/components/FileUpload.tsx:23 | an empty file list, selected or dropped, changes nothing |
| `FileUpload.UploadWithoutFile` | frontend/file-upload-client/src/components/FileUpload.tsx:68-74 | upload with no held file only sets "Por favor, selecione um arquivo" |
| `FileUpload.UploadWithFile` | frontend/file-upload-client/src/components/FileUpload.tsx:67-79 | upload with a held file issues one request carrying that file and changes nothing else |
| `FileUpload.LoadCreated` | frontend/file-upload-client/src/components/FileUpload.tsx:90-106 | a 201 completion appends exactly the name and size of the file its request carried, with the supplied time, ends that request, sets progress to 100 and shows the response message; the held file stays |
| `FileUpload.LoadFailed` | frontend/file-upload-client/src/components/FileUpload.tsx:107-113 | any other status ends the request, sets progress 0 and "Erro ao enviar arquivo"; the held file and the history are unchanged |
| `FileUpload.TransportErrorResets` | frontend/file-upload-client/src/components/FileUpload.tsx:116-122 | a transport error ends the request, sets progress 0 and "Erro na conexão"; the held file and the history are unchanged |
| `FileUpload.ProgressThenCreated` | frontend/file-upload-client/src/components/FileUpload.tsx:81-106 | a progress report of 50 shows 50 and "Enviando: 50%"; a 201 completion after it gives 100 and exactly one new record |
| `FileUpload.StatusColourMeaning` | frontend/file-upload-client/src/components/FileUpload.tsx:174-180 | the colour is green exactly when "sucesso" occurs in the status, red exactly when "Erro" occurs and "sucesso" does not, blue exactly when neither occurs |
| `FileUpload.FailureColours` | frontend/file-upload-client/src/components/FileUpload.tsx:173-180 | both failure statuses are shown in red |
| `FileUpload.NeutralColours` | frontend/file-upload-client/src/components/FileUpload.tsx:173-180 | the validator's three messages, including both rejections, "Arquivo selecionado" and the select-a-file prompt are shown in blue |
| `FileUpload.SendingColour` | frontend/file-upload-client/src/components/FileUpload.tsx:86 | every "Enviando: N%" status is shown in blue |
| `FileUpload.ProgressBarAfterEvent` | frontend/file-upload-client/src/components/FileUpload.tsx:162 | the bar shows after a 201 completion and hides after a failed completion or a transport error; a progress report on a pending request shows it exactly when positive, and one naming no pending request changes nothing; select, drop and upload leave progress unchanged |
| `FileUpload.StatusShownAfterEvent` | frontend/file-upload-client/src/components/FileUpload.tsx:173 | the status line is hidden initially; an event that changes the status leaves it shown, unless it is a 201 completion with an empty response message |
| `FileUpload.Uploader.constructor` | frontend/file-upload-client/src/components/FileUpload.tsx:13-19 | the component starts with no file, an empty status, progress 0, an empty history and no pending request, and the invariant `Consistent` holds |
| `FileUpload.Uploader.TakeFirst` | frontend/file-upload-client/src/components/FileUpload.tsx:22-64 | the held file and status become `Choose` of the old ones and the list; nothing else changes; the invariant is kept |
| `FileUpload.Uploader.HandleFileChange` | frontend/file-upload-client/src/components/FileUpload.tsx:22-41 | the fields after the handler are `Next` of the old fields under `Select`; history and progress are unchanged |
| `FileUpload.Uploader.HandleDrop` | frontend/file-upload-client/src/components/FileUpload.tsx:44-64 | the fields after the handler are `Next` of the old fields under `Drop`; history and progress are unchanged |
| `FileUpload.Uploader.HandleUpload` | frontend/file-upload-client/src/components/FileUpload.tsx:67-79 | a request is issued exactly for the held file, none when no file is held; the file sent passed the validator; the fields follow `Next` under `Upload`; the invariant is kept |
| `FileUpload.Uploader.OnProgress` | frontend/file-upload-client/src/components/FileUpload.tsx:81-88 | for a pending request, progress becomes the supplied percentage; the fields follow `Next`; history is unchanged; the invariant is kept |
| `FileUpload.Uploader.OnLoad` | frontend/file-upload-client/src/components/FileUpload.tsx:90-114 | for a pending request, the fields follow `Next` under the completion; the old history is a prefix of the new; the invariant is kept |
| `FileUpload.Uploader.OnError` | frontend/file-upload-client/src/components/FileUpload.tsx:116-122 | for a pending request, the fields follow `Next` under a transport error; progress is 0 and history is unchanged; the invariant is kept |
| `UploadController.HttpStatus` | file-upload-server/backend/src/upload/upload.controller.ts:15-47 | status 201 exactly for a returned acknowledgment (a `POST` handler's default) and 400 exactly for a thrown `BadRequestException` |
| `UploadController.Acknowledgment` | file-upload-server/backend/src/upload/upload.controller.ts:38-43 | the acknowledgment carries "Arquivo enviado com sucesso" and echoes the original name, the size and the media type |
| `UploadController.Respond` | file-upload-server/backend/src/upload/upload.controller.ts:21-47 | an acknowledgment exactly when a file is present and nothing failed; no file gives BadRequest "Nenhum arquivo enviado"; a failure gives BadRequest "Erro ao processar arquivo"; the status is 201 exactly when a file is present and nothing failed, otherwise 400 |
| `UploadController.Stored` | file-upload-server/backend/src/upload/upload.controller.ts:30-35 | the store changes only when the reply is an acknowledgment, and then only by writing the buffer at the original name |
| `UploadController.WriteAtName` | file-upload-server/backend/src/upload/upload.controller.ts:30-35 | after a successful write the name maps to the buffer; every other name is present and mapped as before; the names are the old names plus the written one |
| `UploadController.AcknowledgedNameIsKey` | file-upload-server/backend/src/upload/upload.controller.ts:31-40 | the acknowledged file name is the key under which the bytes were stored |
| `UploadController.LastWriteWins` | file-upload-server/backend/src/upload/upload.controller.ts:30-35 | two uploads with the same name both succeed with no duplicate signal, and the store holds the second buffer |
| `UploadController.FaultIsError` | file-upload-server/backend/src/upload/upload.controller.ts:25-47 | a failure is reported as BadRequest "Erro ao processar arquivo" with status 400, never as an acknowledgment, and leaves the store unchanged |
| `UploadController.AcknowledgedSizeIsStoredLength` | file-upload-server/backend/src/upload/upload.controller.ts:34-41 | when the file's size is its buffer length, the acknowledged size is the length of the stored bytes |
| `UploadController.Controller.UploadFile` | file-upload-server/backend/src/upload/upload.controller.ts:17-49 | the reply is `Respond` and the new store is `Stored` of the old one; an acknowledged name maps to the buffer |
| `EndToEnd.SuccessGreen` | file-upload-server/backend/src/upload/upload.controller.ts:39 | the endpoint's success message is shown in green by the client |
| `EndToEnd.AcknowledgedUploadRecorded` | frontend/file-upload-client/src/components/FileUpload.tsx:90-106 | a successful round trip for a pending request records its file once under the acknowledged name, which is also the storage key; the bar is full and the status is green |
| `EndToEnd.RejectedUploadNotRecorded` | frontend/file-upload-client/src/components/FileUpload.tsx:107-113 | a rejected request leaves the history and the store unchanged, ends the request, resets progress and shows the red send-failure text |

## Left out

- React rendering, JSX and styling. The only render decisions modelled are the status colour, whether
  the status line shows and whether the progress bar shows.
- The stale `...uploadState` spread in the selection handlers. Every update is applied to the current
  state.
- `XMLHttpRequest`, `FormData`, the hard-coded URL and `JSON.parse`. The response status and message are
  event parameters and the clock reading is a parameter. `HandleUpload` returns the file a request
  would carry instead of sending it.
- FileUpload.Uploader.OnProgress: takes a whole-number percentage. The floating-point
  `(loaded / total) * 100`, its division by zero and `Math.round` are not modelled.
- The KB figure (`toFixed(2)`) and the locale date text of the uploaded-files list. Both are
  floating-point or locale formatting.
- NestJS decorators, Multer's `FileInterceptor`, `__dirname` and `path.join`. The destination is the
  original name used as a store key, with no path semantics. Path traversal is therefore not
  represented.
- UploadController.Stored: a failure is assumed to happen before any byte reaches the store, so the store is
  unchanged. Stream errors raised asynchronously by `createWriteStream` are not caught by the source's
  `try` and are not modelled. A partially written file is not modelled either.
- The identity of an `XMLHttpRequest` object. A pending request is named by its index in the list
  of pending requests, and a progress report or completion naming no pending request has no effect
  in `Next`; the handler methods demand a pending index, since a request's callbacks exist only once
  it is issued.
- The multipart encoding. The file the endpoint receives for a candidate carries the browser file's
  name, type and size as Multer's `originalname`, `mimetype` and `size`.
- Write durability, and races between concurrent writers to the same name.
- `frontend/file-upload-client/src/App.tsx` holds only layout.
- `frontend/file-upload-client/src/types/upload.types.ts` holds only data shapes, which appear here as
  the datatypes `UploadState` and `UploadResponse`.
