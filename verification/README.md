# gulp-ttf2woff2, modelled in Dafny

gulp-ttf2woff2 is a gulp plugin. It converts TrueType fonts in a stream of
vinyl files to WOFF2. This project models the logic the plugin owns:

- the stage's per-file `_transform` dispatch;
- its option defaulting;
- the `fileTransform` callback that adapts the external `ttf2woff2` encoder to
  the `bufferstreams` callback protocol.

Both implementations in the repository are modelled. `src/index.ts` is the
current one (module `IndexTs`). `src/index.js` is the legacy one (module
`IndexJs`). Module `Variants` proves where the two agree and where they part.

How the model is built:

- **Encoder.** The encoder is a parameter `codec: Bytes -> Result<Bytes, string>`. A
  thrown error is a `Failure` carrying its message.
- **File contents.** They are `Null`, `Buf(bytes)` or `Strm(readout)`. A stream is
  described by what a reader eventually gets from it: all its bytes (`Ends`),
  an error (`Fails`), or nothing, because it never ends (`Hangs`).
- **PassThrough.** `pipe` forwards data and the end, but not errors. A
  `PassThrough` piped from a stream that ends yields the same bytes. One piped
  from a failing stream never ends (`Files.Tap`).
- **Derived stream.** The stream `bufferstreams` derives collects its source's
  bytes. The model assumes it also subscribes to its source's error, which
  `pipe` alone does not forward. It yields the first value the callback
  reports. A source that never ends leaves it waiting.
- **One call of `_transform`.** It is the sequence of what it does: `Push(file)`,
  `Emit(error)` and `Done` events (`Files.Trace`). `Pushed`, `Emitted` and
  `DoneCount` project a trace onto the downstream files, the error channel and
  the `done` calls.
- **A whole run.** `Pipeline.Run` concatenates the per-file traces. A gulp
  object-mode Transform finishes each file before it starts the next.
- **Paths.** `Paths.Extname` models Node's `path.extname`, and
  `Paths.ReplaceExtension` models the `replace-ext` package. Both are defined
  through one split of a path into directory prefix, stem and extension. The
  split is proved unique.

Modules: `Outcomes` (Option, Result), `Paths`, `Files`, `Config`, `Pipeline`,
`Buffers` (the buffer branch, which both implementations share),
`IndexTs`, `IndexJs`, `Variants`.

## Model

| member | source | states |
|---|---|---|
| Config.Normalize | src/index.ts:55-57 | An option is on exactly when it was given as `true`. Absent options, or absent fields, read as `false`. |
| Config.AbsentOptionsAreFalse | src/index.js:35-37 | Leaving out the options object, or all its fields, gives `ignoreExt = false` and `clone = false`. |
| Files.Wrap | src/index.ts:26-30 | The error raised is a `PluginError` that names `gulp-ttf2woff2`, carries the given message and asks for a stack. |
| Files.Lift | src/index.ts:34-46 | The codec's outcome as a callback argument: success keeps the converted bytes, and a thrown message becomes a wrapped plugin error. |
| Paths.SplitSound | src/index.ts:71 | Splitting any path gives a well-formed directory/stem/extension triple, and joining the triple gives the path back. |
| Paths.SplitUnique | src/index.ts:71 | Every well-formed triple is recovered by splitting its join, so the extension `extname` reports is uniquely determined. |
| Paths.Extname | src/index.ts:71 | The reported extension is empty, or it is a dot followed by characters that are neither dots nor separators. |
| Paths.Basename | src/index.ts:92 | The last segment of a path contains no separator. |
| Paths.ReplacedExtension | src/index.ts:92 | Renaming a path whose last segment is not empty keeps its directory and stem and gives it exactly the new extension. |
| Paths.ReplaceExtensionTwice | src/index.ts:92 | Renaming twice is the same as renaming once with the second extension. |
| Paths.ReplaceExtensionRoundTrip | src/index.ts:92 | Renaming to `.woff2` and back to the old extension restores the original path. |
| Files.Tap | src/index.ts:86-87 | A tap of a stream that ends yields the same bytes. A tap of a stream that fails never ends, because `pipe` does not forward errors. |
| Files.Duplicate | src/index.ts:79-89 | The clone pushed first keeps the path, the directory flag and the kind of contents. A buffer is copied as an equal value; a stream is read through a tap. |
| Files.DuplicateIsCopy | src/index.ts:79-89 | The duplicate of a buffer, or of a stream that ends, equals the file. The duplicate of a stream that fails never ends. |
| Pipeline.RunAppend | src/index.ts:59-116 | The trace of two batches fed in turn is the first batch's trace followed by the second's. |
| Pipeline.RunDoneCount | src/index.ts:59-116 | If each file calls `done` once, a run calls it once per input file. |
| Pipeline.RunPassesThrough | src/index.ts:64-75 | If each file is pushed unchanged and alone, a run pushes exactly its input and emits nothing. |
| IndexTs.FileTransform | src/index.ts:17-49 | The callback fires exactly once. After an upstream error it reports that error's message as a plugin error. Otherwise it reports the codec's bytes, or the codec's message as a plugin error. |
| IndexTs.UpstreamErrorSkipsCodec | src/index.ts:25-31 | After an upstream error the outcome depends on neither the codec nor the bytes. |
| IndexTs.Converted | src/index.ts:108-112 | Reading the derived stream gives the codec's output on the source's bytes, or the codec's error wrapped, or the source's error wrapped. A source that never ends leaves it waiting. |
| IndexTs.TransformShape | src/index.ts:59-116 | Each call ends with its only `done` and pushes one file, or two when a qualifying file is cloned. It emits at most one error, and does so exactly for a qualifying buffer the codec rejects. A file that does not qualify is pushed as is. One that qualifies is pushed last under its `.woff2` name. |
| Buffers.ConvertShape | src/index.ts:92-105 | Buffer mode, the same code as src/index.js:72-80. The duplicate (if any) is pushed, then the renamed file. That file holds the codec's output, or the original bytes when the codec fails. The codec's error is emitted exactly when it fails, right before that push, and `done` comes last and only once. |
| Buffers.ConvertDuplicate | src/index.ts:79-81 | Cloning a buffer pushes the duplicate in front of exactly what happens without cloning. |
| IndexTs.StreamShape | src/index.ts:79-115 | A qualifying stream file: the duplicate when cloning, then the renamed file, and no error. The renamed file reads the converted source, or the converted tap of it when cloning. |
| IndexTs.StreamSourceError | src/index.ts:83-112 | When a qualifying stream's source fails, the stage emits nothing. Without cloning, the pushed file's stream fails with the source's message. With cloning, both pushed files wait forever. |
| IndexTs.NullOrDirectoryPassesThrough | src/index.ts:64-68 | A file with null contents, or a directory, is pushed unchanged and alone, and no error is emitted. |
| IndexTs.NonTtfPassesThrough | src/index.ts:71-75 | With the extension test on, a file whose extension is not exactly `.ttf` is pushed unchanged and alone, and no error is emitted. |
| IndexTs.TtfHasBasename | src/index.ts:71-75 | A path whose extension is `.ttf` has a non-empty last segment, so renaming it always takes effect. |
| IndexTs.BufferConverted | src/index.ts:92-97 | A qualifying buffer the codec accepts, without cloning, gives one pushed file and no error. The file holds the codec's output and keeps its directory and stem under the `.woff2` extension. |
| IndexTs.CloneEmitsOriginalFirst | src/index.ts:79-90 | With cloning, the duplicate is pushed first. The rest is exactly the trace without cloning, applied to the duplicate. For a buffer, or a stream that ends, the duplicate is the file as it came in. |
| IndexTs.BufferFailureKeepsBytes | src/index.ts:92-105 | A rejected buffer emits exactly one error, just before it is pushed. The pushed file is already renamed to `.woff2` but still holds the original bytes. |
| IndexTs.StreamMatchesBuffer | src/index.ts:108-112 | For the same bytes, stream mode pushes as many files, under the same name, as buffer mode, and emits nothing itself. Its stream reads successfully exactly when buffer mode emits no error. It then yields buffer mode's converted bytes; otherwise it fails with the error buffer mode emits. |
| IndexTs.DefaultStage | src/index.ts:52-57 | The stage built without options, or with empty options, behaves as with both options `false`. |
| IndexTs.RunCounts | src/index.ts:59-116 | Over a batch, `done` is called once per file. One file is pushed per input, plus one duplicate per qualifying file when cloning. |
| IndexTs.PassThroughIsIdempotent | src/index.ts:64-75 | A batch in which no file qualifies comes out unchanged and error-free, and feeding it through the stage again gives the same files. |
| IndexJs.FileTransform | src/index.js:12-30 | Without an upstream error the callback fires once, with the codec's outcome. With one, it fires twice: the wrapped upstream error first, then the codec's outcome on the bytes. |
| IndexJs.UpstreamErrorCallsBackTwice | src/index.js:17-27 | After an upstream error, a codec that accepts the bytes makes the callback report success as well, as a second call. |
| IndexJs.Converted | src/index.js:83 | Reading the derived stream gives the codec's output on the source's bytes, or the codec's error wrapped, or the source's error wrapped. A source that never ends leaves it waiting. |
| IndexJs.NullPassesThrough | src/index.js:43-46 | A file with null contents is pushed unchanged and alone, and no error is emitted. |
| IndexJs.NonTtfPassesThrough | src/index.js:49-52 | With the extension test on, a file whose extension is not exactly `.ttf` is pushed unchanged and alone, and no error is emitted. |
| IndexJs.DirectoryIsNotExempt | src/index.js:41-69 | A directory with contents that passes the extension test is converted: the file pushed last is the directory under its `.woff2` name. Vinyl never makes such a file. |
| IndexJs.ConvertedShape | src/index.js:56-87 | A qualifying file ends with its only `done` and pushes two files when cloning, else one; the last is under the `.woff2` name. |
| IndexJs.ConvertedErrors | src/index.js:71-87 | A qualifying file makes the stage emit an error, at most once, exactly when it is a buffer the codec rejects. |
| IndexJs.StreamShape | src/index.js:56-87 | A qualifying stream file: the duplicate when cloning, then the renamed file, and no error. The renamed file reads the converted source, or the converted tap of it when cloning. |
| IndexJs.CloneEmitsOriginalFirst | src/index.js:56-67 | With cloning, the duplicate is pushed first. The rest is exactly the trace without cloning, applied to the duplicate. For a buffer, or a stream that ends, the duplicate is the file as it came in. |
| IndexJs.StreamCloneTapsSource | src/index.js:60-65 | Cloning a stream pushes two files. First comes the duplicate, under the original path and reading a tap of the source. Then comes the renamed file, reading the converted tap. A failing source leaves both waiting. |
| Variants.FileTransformsAgree | src/index.js:17-27 | The two callbacks make the same first call. Without an upstream error they agree entirely. With one, the legacy callback adds the codec's outcome as a second call. |
| Variants.ConvertedAgree | src/index.js:83 | The legacy and current derived streams read the same. |
| Variants.AgreeOffDirectories | src/index.js:41-89 | On any file that is not a directory, the legacy stage does exactly what the current one does. |
| Variants.AgreeOnVinylFiles | src/index.js:43-46 | On any file vinyl can make, where a directory has null contents, the legacy stage does exactly what the current one does. |
| Variants.RunsAgreeOnVinylFiles | src/index.js:41-89 | Over any batch of files vinyl can make, the legacy and current stages produce the same trace. |
| Variants.DirectoriesDiverge | src/index.js:43-46 | A qualifying directory with contents, whose rename changes its path, passes through the current stage unchanged but is renamed by the legacy one. Vinyl never makes such a file. |

## Left out

- The TTF to WOFF2 encoder is not modelled. It is a foreign call and is a parameter of every operation.
- Node stream mechanics are not modelled: chunking, backpressure, `end` and `finish` timing, and the event loop. A stream is only what a reader eventually gets from it.
- Tapping a stream with a chained `PassThrough` (src/index.ts:86-87) and tapping the raw source twice (src/index.js:63-64) give equal readouts in the model (`Files.TapTwice`). The two differ only in stream mechanics.
- A failing source is modelled only by its readout: with cloning, its error reaches no listener the plugin installs. What Node does with an error nobody listens for is not modelled.
- IndexTs.Converted: the result for a failing source, a `Fails` carrying the wrapped message, assumes that `bufferstreams` subscribes to the error of the stream piped into it. Node's `pipe` does not forward errors, and the plugin installs no error handler on the source.
- IndexJs.Converted: makes the same assumption about `bufferstreams` as `IndexTs.Converted`.
- IndexTs.StreamSourceError: its case without cloning rests on the same `bufferstreams` assumption as `IndexTs.Converted`. If the buffering stream did not subscribe, that file would wait forever, as in the cloning case.
- Variants.ConvertedAgree: on a failing source the two derived streams agree only because the derived stream settles on the first callback value. The legacy callback's second call is ignored, as described below.
- Variants.AgreeOffDirectories: it inherits the same first-callback assumption from `Variants.ConvertedAgree` for streams whose source fails.
- Variants.DirectoriesDiverge: vinyl's `isDirectory()` is true only for null contents, so vinyl never makes the file this lemma needs. `Variants.AgreeOnVinylFiles` states the agreement on the files vinyl makes.
- IndexTs.BufferFailureKeepsBytes: assumes the stage has an `error` listener. Without one, Node's `emit('error')` throws inside `_transform`, so the renamed file is never pushed and `done` is never called.
- Buffers.ConvertShape: makes the same `error` listener assumption as `IndexTs.BufferFailureKeepsBytes`, for both implementations.
- Pipeline.Run: assumes every input file is delivered. A piped upstream unpipes from the stage when the stage emits an error, so later files may never arrive.
- Config.Normalize: options are booleans or absent. JavaScript truthiness of other values, such as a non-empty string or `1`, is not modelled.
- Config.Normalize: the source writes the defaulted fields back into the caller's options object and reads them again on every file. The model reads them once, which differs only if the caller changes the object during a run.
- `bufferstreams` internals are not modelled. What it passes as the buffer after an upstream error is unknown, so the model passes no bytes. What it does with a second callback is not modelled either. The derived stream yields the first callback's value.
- Paths.ReplaceExtension: does not model the `path.join` normalisation that `replace-ext` applies to the directory part (`./`, `..`, repeated separators), because that library code is not part of this model.
- Paths.Extname: does not model trailing separators, because vinyl strips them. It also treats only `/` as a separator: the plugin uses the platform's `path` module, which on Windows also splits at `\`, and the model deliberately fixes the POSIX behaviour.
- `PluginError` formatting and stack capture are left out. An error is its plugin name, message and `showStack` flag. The legacy code passes the error object where the current code passes its message; both are modelled by the message.
- Vinyl's `clone()` internals are left out beyond "same path, same contents, same directory flag". A file's `isDirectory()` is a plain flag of the file.
- A callback `cb` that itself throws is not modelled.

## Findings

| source | as written | input that shows it | evidently intended | confidence | as-written member | corrected member |
|---|---|---|---|---|---|---|
| src/index.js:17-19 | After reporting an upstream error, the callback falls through to the encoder and calls `cb` again. | An upstream error together with bytes the encoder accepts: `cb` gets the error, then the converted bytes. | Stop after reporting the error, with one call per conversion, as `return cb(...)` in src/index.ts:26 does. | not executed | IndexJs.UpstreamErrorCallsBackTwice | IndexTs.FileTransform |
