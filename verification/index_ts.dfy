/**
  The current plugin (src/index.ts): the `fileTransform` callback factory and
  the stage's per-file `_transform`.
 */
module IndexTs {
  import opened Outcomes
  import opened Files
  import opened Paths
  import opened Config
  import Buffers
  import Pipeline

  /**
    The callback built by `ttf2woff2Transform()`, given an upstream error (or
    none) and the collected bytes. The result lists the arguments of every
    call it makes to its continuation, in order.
   */
  function FileTransform(codec: Codec, err: Option<Error>, buf: Bytes): (calls: seq<Reply>)
    ensures |calls| == 1
    ensures err.Some? ==> calls[0].Failure? && calls[0].error == Wrap(err.value.message)
    ensures err.None? ==> (calls[0].Success? <==> codec(buf).Success?)
    ensures err.None? && calls[0].Success? ==> calls[0].value == codec(buf).value
    ensures err.None? && calls[0].Failure? ==> calls[0].error == Wrap(codec(buf).error)
  {
    if err.Some? then [Failure(Wrap(err.value.message))]
    else [Lift(codec(buf))]
  }

  /** After an upstream error the codec is never consulted: neither it nor the bytes matter. */
  lemma UpstreamErrorSkipsCodec(c1: Codec, c2: Codec, e: Error, b1: Bytes, b2: Bytes)
    ensures FileTransform(c1, Some(e), b1) == FileTransform(c2, Some(e), b2)
  {
  }

  /**
    What a consumer reads from the buffering stream piped from `source` with
    this callback. The buffering stream collects the source and hands the
    callback the bytes, or the error the source raises (taking as given that
    it subscribes to that error, which piping alone does not forward); the
    value the callback reports becomes the stream's outcome. A source that
    never ends leaves it waiting too.
   */
  function Converted(codec: Codec, source: Readout): (r: Readout)
    ensures source.Ends? ==> (r.Ends? <==> codec(source.bytes).Success?)
    ensures source.Ends? && r.Ends? ==> r.bytes == codec(source.bytes).value
    ensures source.Ends? && !r.Ends? ==> r == Fails(Wrap(codec(source.bytes).error))
    ensures source.Fails? ==> r == Fails(Wrap(source.error.message))
    ensures source.Hangs? ==> r.Hangs?
  {
    match source
    case Ends(bytes) => Settle(FileTransform(codec, None, bytes)[0])
    case Fails(e) => Settle(FileTransform(codec, Some(e), [])[0])
    case Hangs => Hangs
  }

  /** The file is converted: it has contents, is no directory, and has the `.ttf` extension unless that test is off. */
  predicate Qualifies(opts: Options, f: File)
  {
    && !f.contents.Null?
    && !f.isDirectory
    && (opts.ignoreExt || Extname(f.path) == TTF_EXT)
  }

  /** One call of `_transform` on file `f`, as the sequence of what it does. */
  function Transform(opts: Options, codec: Codec, f: File): seq<Event>
  {
    if f.contents.Null? || f.isDirectory then Trace(None, None, f)
    else if !opts.ignoreExt && TTF_EXT != Extname(f.path) then Trace(None, None, f)
    else
      var renamed := ReplaceExtension(f.path, WOFF2_EXT);
      if f.contents.Buf? then
        Buffers.Convert(codec, if opts.clone then Some(f) else None, f, renamed)
      else
        Streamed(codec, opts.clone, f, renamed)
  }

  /**
    The rest of `_transform` for a stream file `f` once the new path is
    computed. With cloning, the file's contents become a tap of the source and
    the duplicate reads a tap of that tap; the conversion reads the file's
    contents.
   */
  function Streamed(codec: Codec, clone: bool, f: File, renamed: string): seq<Event>
    requires f.contents.Strm?
  {
    var first := Tap(f.contents.readout);
    var duplicate := if clone then Some(f.(contents := Strm(Tap(first)))) else None;
    var source := if clone then first else f.contents.readout;
    Trace(duplicate, None, File(renamed, Strm(Converted(codec, source)), f.isDirectory))
  }

  /** The stage built by `ttf2woff2Gulp(options)`, as its per-file handler. */
  function Stage(raw: Option<RawOptions>, codec: Codec): File -> seq<Event>
  {
    var opts := Normalize(raw);
    f => Transform(opts, codec, f)
  }

  /**
    Every call ends with exactly one `done`; it pushes one file, or two when
    a qualifying file is cloned; it emits at most one error, and only for a
    buffer the codec rejects; a file that does not qualify is pushed as is,
    and one that does is pushed last under its `.woff2` name.
   */
  lemma TransformShape(opts: Options, codec: Codec, f: File)
    ensures var evs := Transform(opts, codec, f);
      && evs != [] && evs[|evs| - 1] == Done && DoneCount(evs) == 1
      && |Pushed(evs)| == (if Qualifies(opts, f) && opts.clone then 2 else 1)
      && (!Qualifies(opts, f) ==> evs == [Push(f), Done])
      && (Qualifies(opts, f) ==>
            && LastPushed(evs).path == ReplaceExtension(f.path, WOFF2_EXT)
            && LastPushed(evs).isDirectory == f.isDirectory)
      && |Emitted(evs)| <= 1
      && (Emitted(evs) != [] <==>
            Qualifies(opts, f) && f.contents.Buf? && codec(f.contents.bytes).Failure?)
  {
    var evs := Transform(opts, codec, f);
    if !Qualifies(opts, f) {
      assert evs == Trace(None, None, f);
      TracePlain(f);
      TraceProjections(None, None, f);
    } else if f.contents.Buf? {
      BufferBranch(opts, codec, f);
      Buffers.ConvertShape(codec, if opts.clone then Some(f) else None, f, ReplaceExtension(f.path, WOFF2_EXT));
    } else {
      StreamShape(opts, codec, f);
      assert |Pushed(evs)| == (if opts.clone then 2 else 1);
    }
  }

  /** A qualifying buffer file goes down the buffer branch, after the duplicate when cloning. */
  lemma BufferBranch(opts: Options, codec: Codec, f: File)
    requires Qualifies(opts, f) && f.contents.Buf?
    ensures Transform(opts, codec, f)
         == Buffers.Convert(codec, if opts.clone then Some(f) else None, f, ReplaceExtension(f.path, WOFF2_EXT))
  {
  }

  /** In the stream branch, the duplicate is a copy of the file that reads a tap of its source. */
  lemma StreamBranch(codec: Codec, clone: bool, f: File, renamed: string)
    requires f.contents.Strm?
    ensures var source := f.contents.readout;
      Streamed(codec, clone, f, renamed)
        == Trace(if clone then Some(Duplicate(f)) else None, None,
                 File(renamed, Strm(Converted(codec, if clone then Tap(source) else source)), f.isDirectory))
  {
    TapTwice(f.contents.readout);
  }

  /**
    The trace of a qualifying stream file: the duplicate when cloning, then the
    renamed file reading the converted stream (converted from a tap of the
    source when cloning, from the source itself otherwise), and no error.
   */
  lemma StreamShape(opts: Options, codec: Codec, f: File)
    requires Qualifies(opts, f) && f.contents.Strm?
    ensures var evs := Transform(opts, codec, f);
      var source := f.contents.readout;
      && evs != [] && evs[|evs| - 1] == Done && DoneCount(evs) == 1
      && Pushed(evs) == (if opts.clone then [Duplicate(f)] else []) + [LastPushed(evs)]
      && |Pushed(evs)| == (if opts.clone then 2 else 1)
      && LastPushed(evs)
           == File(ReplaceExtension(f.path, WOFF2_EXT),
                   Strm(Converted(codec, if opts.clone then Tap(source) else source)), f.isDirectory)
      && Emitted(evs) == []
  {
    var source := f.contents.readout;
    assert Transform(opts, codec, f) == Streamed(codec, opts.clone, f, ReplaceExtension(f.path, WOFF2_EXT));
    StreamBranch(codec, opts.clone, f, ReplaceExtension(f.path, WOFF2_EXT));
    TraceProjections(if opts.clone then Some(Duplicate(f)) else None, None,
                     File(ReplaceExtension(f.path, WOFF2_EXT),
                          Strm(Converted(codec, if opts.clone then Tap(source) else source)), f.isDirectory));
  }

  /**
    A stream whose source fails: without cloning the pushed file's stream fails
    with the source's message wrapped, as far as the buffering stream hears the
    error of the stream piped into it; with cloning the source's error reaches
    nobody, and both the duplicate and the renamed file wait forever. The
    stage itself emits nothing either way.
   */
  lemma StreamSourceError(opts: Options, codec: Codec, f: File)
    requires Qualifies(opts, f) && f.contents.Strm? && f.contents.readout.Fails?
    ensures var evs := Transform(opts, codec, f);
      && Emitted(evs) == []
      && (!opts.clone ==> Pushed(evs) == [File(ReplaceExtension(f.path, WOFF2_EXT),
                                               Strm(Fails(Wrap(f.contents.readout.error.message))), f.isDirectory)])
      && (opts.clone ==> |Pushed(evs)| == 2 && Pushed(evs)[0].contents == Strm(Hangs)
                         && Pushed(evs)[1].contents == Strm(Hangs))
  {
    StreamShape(opts, codec, f);
  }

  /** A file without contents, or a directory, is pushed unchanged and alone, and nothing is emitted. */
  lemma NullOrDirectoryPassesThrough(opts: Options, codec: Codec, f: File)
    requires f.contents.Null? || f.isDirectory
    ensures Transform(opts, codec, f) == [Push(f), Done]
    ensures Pushed(Transform(opts, codec, f)) == [f]
    ensures Emitted(Transform(opts, codec, f)) == []
  {
    TracePlain(f);
    TraceProjections(None, None, f);
  }

  /**
    With the extension test on, a file whose extension is not exactly `.ttf`
    is pushed unchanged and alone, buffer or stream, and nothing is emitted.
   */
  lemma NonTtfPassesThrough(opts: Options, codec: Codec, f: File)
    requires !opts.ignoreExt && Extname(f.path) != TTF_EXT
    ensures Transform(opts, codec, f) == [Push(f), Done]
    ensures Pushed(Transform(opts, codec, f)) == [f]
    ensures Emitted(Transform(opts, codec, f)) == []
  {
    TracePlain(f);
    TraceProjections(None, None, f);
  }

  /** A path whose extension is `.ttf` has a non-empty last segment. */
  lemma TtfHasBasename(p: string)
    requires Extname(p) == TTF_EXT
    ensures Basename(p) != []
  {
  }

  /**
    A qualifying buffer the codec accepts, without cloning: one file is pushed,
    holding the codec's output, and nothing is emitted. Its name keeps the
    directory and stem and takes the `.woff2` extension whenever the last
    segment is not empty, which the extension test guarantees.
   */
  lemma BufferConverted(opts: Options, codec: Codec, f: File)
    requires Qualifies(opts, f) && !opts.clone
    requires f.contents.Buf? && codec(f.contents.bytes).Success?
    ensures var out := Pushed(Transform(opts, codec, f));
      && |out| == 1
      && out[0].contents == Buf(codec(f.contents.bytes).value)
      && out[0].isDirectory == f.isDirectory
      && (!opts.ignoreExt || Basename(f.path) != [] ==>
            Extname(out[0].path) == WOFF2_EXT
            && Split(out[0].path).dir == Split(f.path).dir
            && Split(out[0].path).stem == Split(f.path).stem)
    ensures Emitted(Transform(opts, codec, f)) == []
  {
    var renamed := ReplaceExtension(f.path, WOFF2_EXT);
    BufferBranch(opts, codec, f);
    Buffers.ConvertShape(codec, None, f, renamed);
    assert Pushed(Transform(opts, codec, f)) == [File(renamed, Buf(codec(f.contents.bytes).value), f.isDirectory)];
    if !opts.ignoreExt {
      TtfHasBasename(f.path);
    }
    if Basename(f.path) != [] {
      ReplacedExtension(f.path, WOFF2_EXT);
    }
  }

  /**
    Cloning a qualifying file first pushes its duplicate, under the original
    path, and then does exactly what the stage does without cloning to that
    duplicate's twin. A buffer, or a stream that ends, is duplicated into an
    equal file, so then the file as it came in is pushed first.
   */
  lemma CloneEmitsOriginalFirst(opts: Options, codec: Codec, f: File)
    requires Qualifies(opts, f) && opts.clone
    ensures Transform(opts, codec, f) == [Push(Duplicate(f))] + Transform(opts.(clone := false), codec, Duplicate(f))
    ensures Pushed(Transform(opts, codec, f)) == [Duplicate(f)] + Pushed(Transform(opts.(clone := false), codec, Duplicate(f)))
    ensures f.contents.Buf? || (f.contents.Strm? && f.contents.readout.Ends?) ==>
      Transform(opts, codec, f) == [Push(f)] + Transform(opts.(clone := false), codec, f)
  {
    var renamed := ReplaceExtension(f.path, WOFF2_EXT);
    var rest := Transform(opts.(clone := false), codec, Duplicate(f));
    if f.contents.Buf? {
      Buffers.ConvertDuplicate(codec, f, f, renamed);
    } else {
      var source := f.contents.readout;
      TapTwice(source);
      TraceDuplicate(Duplicate(f), None, File(renamed, Strm(Converted(codec, Tap(source))), f.isDirectory));
    }
    DuplicateIsCopy(f);
    ProjectionsAppend([Push(Duplicate(f))], rest);
    ProjectionsSingle(Push(Duplicate(f)));
  }

  /**
    A qualifying buffer the codec rejects: the error is emitted once, just
    before the file is pushed, and the pushed file already has its `.woff2`
    name but still holds the original bytes.
   */
  lemma BufferFailureKeepsBytes(opts: Options, codec: Codec, f: File)
    requires Qualifies(opts, f) && f.contents.Buf? && codec(f.contents.bytes).Failure?
    ensures var evs := Transform(opts, codec, f);
      && Emitted(evs) == [Wrap(codec(f.contents.bytes).error)]
      && LastPushed(evs) == File(ReplaceExtension(f.path, WOFF2_EXT), f.contents, f.isDirectory)
      && |evs| >= 3
      && evs[|evs| - 3] == Emit(Wrap(codec(f.contents.bytes).error))
      && evs[|evs| - 2] == Push(LastPushed(evs))
      && evs[|evs| - 1] == Done
  {
    BufferBranch(opts, codec, f);
    Buffers.ConvertShape(codec, if opts.clone then Some(f) else None, f, ReplaceExtension(f.path, WOFF2_EXT));
  }

  /**
    Stream mode yields what buffer mode yields: for the same bytes, the stream
    file is pushed under the same name as the buffer file, the stage itself
    emits nothing, and reading the pushed stream gives the buffer file's
    converted bytes, or fails with the error buffer mode emits.
   */
  lemma StreamMatchesBuffer(opts: Options, codec: Codec, path: string, isDirectory: bool, bytes: Bytes)
    requires Qualifies(opts, File(path, Buf(bytes), isDirectory))
    ensures
      var asBuffer := Transform(opts, codec, File(path, Buf(bytes), isDirectory));
      var asStream := Transform(opts, codec, File(path, Strm(Ends(bytes)), isDirectory));
      && Emitted(asStream) == []
      && |Pushed(asStream)| == |Pushed(asBuffer)|
      && LastPushed(asStream).path == LastPushed(asBuffer).path
      && LastPushed(asStream).contents.Strm?
      && var read := LastPushed(asStream).contents.readout;
      && (read.Ends? <==> Emitted(asBuffer) == [])
      && (read.Ends? ==> LastPushed(asBuffer).contents == Buf(read.bytes))
      && (!read.Ends? ==> read.Fails? && Emitted(asBuffer) == [read.error])
  {
    var asBuffer := File(path, Buf(bytes), isDirectory);
    Buffers.ConvertShape(codec, if opts.clone then Some(asBuffer) else None, asBuffer, ReplaceExtension(path, WOFF2_EXT));
    StreamShape(opts, codec, File(path, Strm(Ends(bytes)), isDirectory));
  }

  /** Without options, or with an empty options object, the stage behaves as with both options off. */
  lemma DefaultStage(codec: Codec, f: File)
    ensures Stage(None, codec)(f) == Transform(Options(false, false), codec, f)
    ensures Stage(Some(RawOptions(None, None)), codec)(f) == Transform(Options(false, false), codec, f)
  {
    AbsentOptionsAreFalse();
  }

  /** How many of `files` qualify for conversion. */
  function QualifyingCount(opts: Options, files: seq<File>): (n: nat)
    ensures n <= |files|
  {
    if |files| == 0 then 0
    else (if Qualifies(opts, files[0]) then 1 else 0) + QualifyingCount(opts, files[1..])
  }

  /**
    Over a whole run the stage calls `done` once per input file and pushes one
    file per input, plus one duplicate per qualifying file when cloning.
   */
  lemma {:induction false} RunCounts(opts: Options, codec: Codec, files: seq<File>)
    ensures var evs := Pipeline.Run(f => Transform(opts, codec, f), files);
      && DoneCount(evs) == |files|
      && |Pushed(evs)| == |files| + (if opts.clone then QualifyingCount(opts, files) else 0)
  {
    var step := f => Transform(opts, codec, f);
    if |files| > 0 {
      RunCounts(opts, codec, files[1..]);
      TransformShape(opts, codec, files[0]);
      ProjectionsAppend(step(files[0]), Pipeline.Run(step, files[1..]));
    }
  }

  /**
    A batch in which no file qualifies comes out unchanged, so feeding the
    output through the stage again gives the same files once more.
   */
  lemma PassThroughIsIdempotent(opts: Options, codec: Codec, files: seq<File>)
    requires forall k :: 0 <= k < |files| ==> !Qualifies(opts, files[k])
    ensures Pushed(Pipeline.Run(f => Transform(opts, codec, f), files)) == files
    ensures Emitted(Pipeline.Run(f => Transform(opts, codec, f), files)) == []
    ensures var once := Pushed(Pipeline.Run(f => Transform(opts, codec, f), files));
      Pushed(Pipeline.Run(f => Transform(opts, codec, f), once)) == once
  {
    var step := f => Transform(opts, codec, f);
    forall k | 0 <= k < |files|
      ensures step(files[k]) == [Push(files[k]), Done]
    {
      TransformShape(opts, codec, files[k]);
    }
    Pipeline.RunPassesThrough(step, files);
  }
}
