# Portfolio app: task reconciler, image encoding and records

A Dafny model of the sequential core of a desktop portfolio manager written in
Rust with egui. The UI thread keeps a registry of background tasks and, once
per frame, polls each task's channel without blocking. A task that has sent a
response is applied and dropped; every other task is kept. The "Add Image"
button launches one such task. Its body, `new_image_file_dialog`, is an
`async fn`: driven to completion it would run a file dialog, turn the picked
file into a `data:image/<ext>;base64,…` URI (RFC 2397) and send back one
envelope. The spawned thread only calls it and drops the returned future
unpolled, so as written nothing is sent (see "## Findings"). Around this sit the image and project records with their
hand-written equalities and defaults.

Modules, one per concern:

- `Wrappers` (wrappers.dfy): `Option`, `byte`, `u64` and an anchored prefix test.
- `Hex` (hex.dfy): lower-case hex encoding with its decoder.
- `Base64` (base64.dfy): standard padded Base64 (section 4 of RFC 4648) with its decoder.
  It also holds the MIME line wrapping and the CRLF removal.
- `App` (app.dfy): the `Response` envelope, the poll outcome, the `Portfolio` state, `check_tasks` and "Add Image".
- `Images` (images.dfy): `file_type`, `base64_from_vec`, the `Image` record, the dialog unit and the thread "Add Image" spawns.
- `Projects` (project.dfy): the `Project` and `Links` records.

Threads, channels and handles are abstract in the model. A task handle is a
type parameter `H`. What one frame's `try_recv` sees is a function
`H -> Poll<P>`, where `Poll` is `Ready(response)`, `Empty` or `Disconnected`.
A frame (one call of `update`) is the `check_tasks` pass followed by the "Images" window,
where a click on "Add Image" registers a fresh handle (`App.Frame`).
The payload `P` is also a type parameter, because the two source files
disagree on it: src/app.rs:15 carries a texture handle and src/image.rs:120
sends an `Image` record.

Two behaviours of the code that a reader might not expect:

- A handle whose producer died without sending is never dropped. The code
  keeps every `Err` from `try_recv`, `Disconnected` included
  (src/app.rs:51, 60-61), so such a handle stays in the registry forever
  (`App.UnansweredStays`).
- `Response` has only `Image` and `Nothing`, and an image goes onto one
  top-level list (src/app.rs:14-17, 53-55).

## Model

| member | source | states |
|---|---|---|
| `App.Default` | src/app.rs:26-34 | a fresh portfolio has no images and no tasks |
| `App.AddImage` | src/app.rs:78-89 | clicking "Add Image" appends exactly one handle at the back of the registry; earlier handles and the images are unchanged |
| `App.Retain` | src/app.rs:50-63 | the `retain` walk polls each remaining handle once, in order; the pushed images are the image payloads of the ready entries and the kept handles are exactly the not-ready ones |
| `App.CheckTasks` | src/app.rs:49-64 | one pass appends the ready image payloads to the old images in registry order and keeps exactly the entries without a value, in registry order |
| `App.CheckTasksCount` | src/app.rs:50-62 | a pass shrinks the registry by exactly the number of entries whose poll had a value |
| `App.CheckTasksMembership` | src/app.rs:50-62 | a handle survives a pass if and only if it was registered and its poll had no value, so every ready handle is gone and every empty or disconnected one remains |
| `App.CheckTasksKeepsOrder` | src/app.rs:50 | the kept registry reads the old one at strictly increasing positions, and those positions are exactly the entries without a value: no skip, no revisit, order kept |
| `App.CheckTasksIdempotent` | src/app.rs:50-62 | a second pass under the same polls changes nothing: no kept handle has a value left to apply |
| `App.QuietPass` | src/app.rs:60-62 | when no entry has a value, a pass leaves both images and registry unchanged |
| `App.NothingLeavesImages` | src/app.rs:56-59 | when no ready entry carries an image (only `Ready(Nothing)` or no value), the images are unchanged |
| `App.Frame` | src/app.rs:36-40 | one `update` runs the pass and then the "Images" window: the images gain the ready payloads, the registry keeps the entries without a value and, when "Add Image" was clicked, gains the fresh handle at the back, so it grows by at most one |
| `App.Frames` | src/app.rs:36-40 | a run of frames applies one `update` per frame with that frame's polls and click; the registry grows by at most one handle per frame and not at all when nobody clicks, and the image list never shrinks |
| `App.UnansweredStays` | src/app.rs:51-61 | a handle that never has a value (`Empty` or `Disconnected` on every frame) is still registered after any number of frames, whatever is clicked on them |
| `App.FramesOnlyAddClicked` | src/app.rs:36-40 | a handle registered after some frames was registered before them or is the handle a click on one of those frames registered |
| `App.DroppedStaysDropped` | src/app.rs:50-62 | a handle whose value is taken on one frame is gone after every later frame, whatever their polls, as long as no click registers that same handle again (each click makes a fresh channel, src/app.rs:80), so its response is applied at most once |
| `App.FramesExtendImages` | src/app.rs:36-40 | over any number of frames, clicks included, the old image list stays a prefix of the new one |
| `App.DistinctPreserved` | src/app.rs:78-88 | adding a handle not yet registered, running a pass, and a whole frame whose click registers a fresh handle all keep the registry free of duplicates |
| `App.Scenario` | src/app.rs:36-64 | two handles registered; on frame one the second delivers an image and a click registers a third; on frame two the first delivers `Nothing`: one image shown, only the third handle left |
| `Hex.Encode` | src/image.rs:94 | the encoding has two characters per byte, and byte `i`'s high and low nibble digits sit at positions `2i` and `2i+1` |
| `Hex.DecodeEncode` | src/image.rs:94 | decoding the hex encoding gives back the bytes |
| `Hex.EncodeInjective` | src/image.rs:94 | two byte vectors with the same hex encoding are equal |
| `Hex.StartsWithEncode` | src/image.rs:94-96 | the hex text starts with the encoding of a byte signature if and only if the bytes start with that signature |
| `Base64.Encode` | src/image.rs:93 | the standard encoding has length `4*ceil(n/3)` and uses only alphabet and pad characters |
| `Base64.DecodeEncode` | src/image.rs:93 | decoding the standard encoding gives back the bytes |
| `Base64.StripCrlfWrap` | src/image.rs:97 | removing CRLFs from any line-wrapped text that had no line breaks of its own gives back the text |
| `Base64.StripCrlf` | src/image.rs:97 | removing CRLFs never lengthens a text and leaves a text without line breaks unchanged |
| `Base64.Mime` | src/image.rs:93-97 | the MIME form with its CRLFs removed equals the standard single-line encoding |
| `Images.FileType` | src/image.rs:80-90 | the result is `jpeg`, `png` or `gif` exactly when the hex text starts with `ffd8ffe0`, `89504e47` or `47494638`; any other text has no result (the panic) |
| `Images.FileTypeAnchored` | src/image.rs:81-86 | a text whose first eight characters are no signature stays unrecognised whatever follows, so a signature later in the text does not count |
| `Images.FileTypeOfBytes` | src/image.rs:80-96 | sniffing the hex of a byte vector is the same as comparing its first four bytes with the JFIF, PNG and GIF signatures |
| `Images.FileTypeOnlyHead` | src/image.rs:94-96 | the sniffed type of a byte vector depends only on its first four bytes |
| `Images.DataUri` | src/image.rs:92-99 | a URI is built exactly when the bytes carry a known signature; it is `data:image/<ext>;base64,` plus the standard encoding, has no line breaks, and parses back to the extension and every byte |
| `Images.DataUriParses` | src/image.rs:98 | a URI of the `format!` shape parses back to its extension and bytes |
| `Images.ImageEqIgnoresSkipped` | src/image.rs:31-35 | two images are equal if and only if they agree once texture, name, path and upload flag are ignored |
| `Images.ImageEqIsEquivalence` | src/image.rs:31-35 | image equality is reflexive, symmetric and transitive |
| `Images.DefaultImage` | src/image.rs:43-54 | the default image is the placeholder `/proxy-image.jpg` with its alt text, not an upload, with no texture |
| `Images.NewImage` | src/image.rs:56-64 | a new image is the default with empty data and alt text, and so is not equal to the default |
| `Images.Observed` | src/app.rs:51 | a unit that sent an envelope is seen as ready with that envelope; a unit that panicked is seen as disconnected |
| `Images.ImageFileDialog` | src/image.rs:101-124 | the body as written, if driven: a cancel or dialog error sends `Nothing`; a picked file sends one `Image` exactly when the decoded pixel buffer carries a known signature; otherwise nothing is sent |
| `Images.ImageFileDialogFixed` | src/image.rs:101-124 | corrected: a picked file that decodes and carries a known signature sends exactly one `Image` whose data URI decodes to the file's bytes; a cancel or dialog error sends `Nothing` |
| `Images.SpawnedUnit` | src/app.rs:84-87 | the thread spawned by "Add Image" sends nothing and is seen as disconnected; it differs from the driven body exactly when that body would have sent an envelope |
| `Images.AddImageHandleStays` | src/app.rs:82-88 | the handle "Add Image" registers, polling `Empty` before the spawned thread drops the future and `Disconnected` after, is still registered after any number of frames, whatever is clicked on them |
| `Images.AwaitedUnitDelivers` | src/app.rs:49-64 | with the unit driven and a cancelled dialog or a decodable, recognised file, the next pass removes the new handle and appends exactly its image (none on cancel) after the older handles' images |
| `Images.PixelBufferSniffed` | src/image.rs:114-115 | a PNG file whose first decoded pixel is black makes the as-written unit send nothing while the corrected unit sends the image |
| `Projects.ProjectEqIgnoresContent` | src/project.rs:20-24 | two projects are equal if and only if they agree once description, images and links are ignored |
| `Projects.ProjectEqAfterEdit` | src/project.rs:22 | changing description, images or links keeps a project equal to its old self |
| `Projects.ProjectEqIsEquivalence` | src/project.rs:20-24 | project equality is reflexive, symmetric and transitive |
| `Projects.DefaultProject` | src/project.rs:4-11 | the default project has id 0, empty name and description, no images and no links |
| `Projects.DefaultProjectEq` | src/project.rs:4-24 | a project equals the default exactly when its id is 0 and its name is empty |
| `Projects.DefaultLinks` | src/project.rs:13-18 | the default `Links` has empty url, icon and name |

## Left out

- Threads, `mpsc` channels, `JoinHandle` and the `Arc<Mutex<Context>>`: a handle is abstract and each frame's polls are a function parameter.
- Window layout, image drawing, the debug window and the `max_image_width` slider (an `f32`, default 160): UI work and floating point.
- The file dialog and image decoding (`FileDialog`, `from_path`): their results are parameters of the dialog unit.
- Images.ImageFileDialog: models the dialog body as if its future were driven to completion, which the spawned thread never does (see "## Findings").
- The `unwrap`s on the file name, the lock and `send`: the model assumes a UTF-8 path with a file name, an unpoisoned lock and a live receiver.
- The pixel buffer handed to `from_rgba_unmultiplied`: a decoding concern outside the model.
- The `regex` and `rustc_serialize` crates are not part of this model. Hex and Base64 are written from RFC 4648, and `to_base64(MIME)` is taken as the standard encoding cut into 76-character lines joined by CRLF.
- `Debug for Image` (text formatting) and the serde derives: no behaviour to model.
- `Portfolio::new`, called from src/main.rs:13, is defined nowhere in src/app.rs. Only `Default` is modelled.
- src/response.rs, src/link.rs and src/state.rs declare plain data without behaviour.

## Findings

| source | as written | input that shows it | evidently intended | confidence | as-written member | corrected member |
|---|---|---|---|---|---|---|
| src/image.rs:114-115 | the data URI is built from the first result of `from_path`, which is the decoded RGB8 pixel buffer (src/image.rs:70-75), so `file_type` sniffs pixel bytes and panics for ordinary images, and no envelope is ever sent | a picked PNG file (`89 50 4e 47 …`) whose decoded pixels start `00 00 00` | sniff and encode the file's own bytes, which is what an `image/<ext>` data URI holds | medium, not executed; the model takes `from_path`'s result as given and does not model its own handling of the buffer | `Images.ImageFileDialog`, `Images.PixelBufferSniffed` | `Images.ImageFileDialogFixed` |
| src/app.rs:84-87 | the spawned closure calls the `async fn new_image_file_dialog` (src/image.rs:101) without awaiting it; the future, which owns the `Sender`, is dropped unpolled, so no dialog opens, nothing is sent and the handle stays registered as `Disconnected` forever | any click on "Add Image" | drive the unit to completion (await it on a runtime, or make it a plain function) so that exactly one envelope is sent | high, not executed. The corrected member also builds the data URI from the file's bytes (the src/image.rs:114-115 row), because driving the as-written body alone would still abort on most files | `Images.SpawnedUnit`, `Images.AddImageHandleStays` | `Images.AwaitedUnitDelivers` |
