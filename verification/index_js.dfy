/**
  The legacy plugin (src/index.js): the same stage as src/index.ts, with no
  directory test, with both stream clones tapping the raw source, and with a
  `fileTransform` callback that goes on to the codec after reporting an
  upstream error.
 */
module IndexJs {
  import opened Outcomes
  import opened Files
  import opened Paths
  import opened Config
  import Buffers

  /**
    The callback built by `ttf2woff2Transform(opt)`, given an upstream error
    (or none) and the collected bytes: the arguments of every call it makes to
    its continuation, in order. An upstream error is reported, and then the codec runs on
    the bytes anyway and its outcome is reported as well.
   */
  function FileTransform(codec: Codec, err: Option<Error>, buf: Bytes): (calls: seq<Reply>)
    ensures |calls| == (if err.Some? then 2 else 1)
    ensures err.Some? ==> calls[0] == Failure(Wrap(err.value.message))
    ensures calls[|calls| - 1].Success? <==> codec(buf).Success?
    ensures calls[|calls| - 1].Success? ==> calls[|calls| - 1].value == codec(buf).value
    ensures calls[|calls| - 1].Failure? ==> calls[|calls| - 1].error == Wrap(codec(buf).error)
  {
    var reported := if err.Some? then [Failure(Wrap(err.value.message))] else [];
    reported + [Lift(codec(buf))]
  }

  /**
    With an upstream error the callback fires twice, and the second call is
    decided by the codec on whatever bytes were collected: a successful second
    call follows the error report.
   */
  lemma UpstreamErrorCallsBackTwice(codec: Codec, e: Error, buf: Bytes)
    requires codec(buf).Success?
    ensures var calls := FileTransform(codec, Some(e), buf);
      && |calls| == 2
      && calls[0].Failure?
      && calls[1] == Success(codec(buf).value)
  {
  }

  /**
    What a consumer reads from the buffering stream piped from `source` with
    this callback: the first value the callback reports, or nothing while the
    source has not ended. A failing source reaches the callback only if the
    buffering stream subscribes to its error, which is taken as given.
   */
  function Converted(codec: Codec, source: Readout): (r: Readout)
    ensures source.Ends? ==> (r.Ends? <==> codec(source.bytes).Success?)
    ensures source.Ends? && r.Ends? ==> r.bytes == codec(source.bytes).value
    ensures source.Ends? && !r.Ends? ==> r == Fails(Wrap(codec(source.bytes).error))
    ensures source.Fails? ==> r == Fails(Wrap(source.error.message))
    ensures source.Hangs? ==> r.Hangs?
  {
    match source
    case Ends(bytes) => Settle(FileTransform(codec, None, bytes)[0])
    case Fails(e) => Settle(FileTransform(codec, Some(e), [])[0])
    case Hangs => Hangs
  }

  /** The file is converted: it has contents and the `.ttf` extension unless that test is off; directories are not exempt. */
  predicate Qualifies(opts: Options, f: File)
  {
    && !f.contents.Null?
    && (opts.ignoreExt || Extname(f.path) == TTF_EXT)
  }

  /** One call of `_transform` on file `f`, as the sequence of what it does. */
  function Transform(opts: Options, codec: Codec, f: File): seq<Event>
  {
    if f.contents.Null? then Trace(None, None, f)
    else if !opts.ignoreExt && TTF_EXT != Extname(f.path) then Trace(None, None, f)
    else
      var renamed := ReplaceExtension(f.path, WOFF2_EXT);
      if f.contents.Buf? then
        Buffers.Convert(codec, if opts.clone then Some(f) else None, f, renamed)
      else
        Streamed(codec, opts.clone, f, renamed)
  }

  /**
    The rest of `_transform` for a stream file `f` once the new path is
    computed. With cloning, the file and its duplicate each read their own tap
    of the source.
   */
  function Streamed(codec: Codec, clone: bool, f: File, renamed: string): seq<Event>
    requires f.contents.Strm?
  {
    var source := f.contents.readout;
    var duplicate := if clone then Some(f.(contents := Strm(Tap(source)))) else None;
    var tapped := if clone then Tap(source) else source;
    Trace(duplicate, None, File(renamed, Strm(Converted(codec, tapped)), f.isDirectory))
  }

  /** The stage built by `ttf2woff2Gulp(options)`, as its per-file handler. */
  function Stage(raw: Option<RawOptions>, codec: Codec): File -> seq<Event>
  {
    var opts := Normalize(raw);
    f => Transform(opts, codec, f)
  }

  /** A file without contents is pushed unchanged and alone, and nothing is emitted. */
  lemma NullPassesThrough(opts: Options, codec: Codec, f: File)
    requires f.contents.Null?
    ensures Transform(opts, codec, f) == [Push(f), Done]
    ensures Pushed(Transform(opts, codec, f)) == [f]
    ensures Emitted(Transform(opts, codec, f)) == []
  {
    TracePlain(f);
    TraceProjections(None, None, f);
  }

  /**
    With the extension test on, a file whose extension is not exactly `.ttf`
    is pushed unchanged and alone, and nothing is emitted.
   */
  lemma NonTtfPassesThrough(opts: Options, codec: Codec, f: File)
    requires !opts.ignoreExt && Extname(f.path) != TTF_EXT
    ensures Transform(opts, codec, f) == [Push(f), Done]
    ensures Pushed(Transform(opts, codec, f)) == [f]
    ensures Emitted(Transform(opts, codec, f)) == []
  {
    TracePlain(f);
    TraceProjections(None, None, f);
  }

  /**
    A directory with contents is treated like any other file: when it
    qualifies, the file pushed last carries the `.woff2` name.
   */
  lemma DirectoryIsNotExempt(opts: Options, codec: Codec, f: File)
    requires f.isDirectory && Qualifies(opts, f)
    ensures var evs := Transform(opts, codec, f);
      && Pushed(evs) != []
      && LastPushed(evs).path == ReplaceExtension(f.path, WOFF2_EXT)
      && LastPushed(evs).isDirectory
  {
    ConvertedShape(opts, codec, f);
  }

  /**
    Every qualifying file: the duplicate (if cloning) then the renamed file is
    pushed, and `done` is called once at the end.
   */
  lemma ConvertedShape(opts: Options, codec: Codec, f: File)
    requires Qualifies(opts, f)
    ensures var evs := Transform(opts, codec, f);
      && evs != [] && evs[|evs| - 1] == Done && DoneCount(evs) == 1
      && |Pushed(evs)| == (if opts.clone then 2 else 1)
      && LastPushed(evs).path == ReplaceExtension(f.path, WOFF2_EXT)
      && LastPushed(evs).isDirectory == f.isDirectory
  {
    if f.contents.Buf? {
      BufferBranch(opts, codec, f);
      Buffers.ConvertShape(codec, if opts.clone then Some(f) else None, f, ReplaceExtension(f.path, WOFF2_EXT));
    } else {
      StreamShape(opts, codec, f);
    }
  }

  /** A qualifying file makes the stage emit an error, once, exactly when it is a buffer the codec rejects. */
  lemma ConvertedErrors(opts: Options, codec: Codec, f: File)
    requires Qualifies(opts, f)
    ensures var evs := Transform(opts, codec, f);
      && (Emitted(evs) != [] <==> f.contents.Buf? && codec(f.contents.bytes).Failure?)
      && |Emitted(evs)| <= 1
  {
    if f.contents.Buf? {
      BufferBranch(opts, codec, f);
      Buffers.ConvertShape(codec, if opts.clone then Some(f) else None, f, ReplaceExtension(f.path, WOFF2_EXT));
    } else {
      StreamShape(opts, codec, f);
    }
  }

  /** A qualifying buffer file goes down the buffer branch, after the duplicate when cloning. */
  lemma BufferBranch(opts: Options, codec: Codec, f: File)
    requires Qualifies(opts, f) && f.contents.Buf?
    ensures Transform(opts, codec, f)
         == Buffers.Convert(codec, if opts.clone then Some(f) else None, f, ReplaceExtension(f.path, WOFF2_EXT))
  {
  }

  /** In the stream branch, the duplicate is a copy of the file that reads a tap of its source. */
  lemma StreamBranch(codec: Codec, clone: bool, f: File, renamed: string)
    requires f.contents.Strm?
    ensures var source := f.contents.readout;
      Streamed(codec, clone, f, renamed)
        == Trace(if clone then Some(Duplicate(f)) else None, None,
                 File(renamed, Strm(Converted(codec, if clone then Tap(source) else source)), f.isDirectory))
  {
  }

  /**
    The trace of a qualifying stream file: the duplicate when cloning, then the
    renamed file reading the converted stream (converted from a tap of the
    source when cloning, from the source itself otherwise), and no error.
   */
  lemma StreamShape(opts: Options, codec: Codec, f: File)
    requires Qualifies(opts, f) && f.contents.Strm?
    ensures var evs := Transform(opts, codec, f);
      var source := f.contents.readout;
      && evs != [] && evs[|evs| - 1] == Done && DoneCount(evs) == 1
      && Pushed(evs) == (if opts.clone then [Duplicate(f)] else []) + [LastPushed(evs)]
      && |Pushed(evs)| == (if opts.clone then 2 else 1)
      && LastPushed(evs)
           == File(ReplaceExtension(f.path, WOFF2_EXT),
                   Strm(Converted(codec, if opts.clone then Tap(source) else source)), f.isDirectory)
      && Emitted(evs) == []
  {
    var source := f.contents.readout;
    assert Transform(opts, codec, f) == Streamed(codec, opts.clone, f, ReplaceExtension(f.path, WOFF2_EXT));
    StreamBranch(codec, opts.clone, f, ReplaceExtension(f.path, WOFF2_EXT));
    TraceProjections(if opts.clone then Some(Duplicate(f)) else None, None,
                     File(ReplaceExtension(f.path, WOFF2_EXT),
                          Strm(Converted(codec, if opts.clone then Tap(source) else source)), f.isDirectory));
  }

  /**
    Cloning a qualifying file first pushes its duplicate, under the original
    path, and then does exactly what the stage does without cloning to that
    duplicate's twin. A buffer, or a stream that ends, is duplicated into an
    equal file, so then the file as it came in is pushed first.
   */
  lemma CloneEmitsOriginalFirst(opts: Options, codec: Codec, f: File)
    requires Qualifies(opts, f) && opts.clone
    ensures Transform(opts, codec, f) == [Push(Duplicate(f))] + Transform(opts.(clone := false), codec, Duplicate(f))
    ensures Pushed(Transform(opts, codec, f)) == [Duplicate(f)] + Pushed(Transform(opts.(clone := false), codec, Duplicate(f)))
    ensures f.contents.Buf? || (f.contents.Strm? && f.contents.readout.Ends?) ==>
      Transform(opts, codec, f) == [Push(f)] + Transform(opts.(clone := false), codec, f)
  {
    var renamed := ReplaceExtension(f.path, WOFF2_EXT);
    var rest := Transform(opts.(clone := false), codec, Duplicate(f));
    if f.contents.Buf? {
      Buffers.ConvertDuplicate(codec, f, f, renamed);
    } else {
      var source := f.contents.readout;
      TapTwice(source);
      TraceDuplicate(Duplicate(f), None, File(renamed, Strm(Converted(codec, Tap(source))), f.isDirectory));
    }
    DuplicateIsCopy(f);
    ProjectionsAppend([Push(Duplicate(f))], rest);
    ProjectionsSingle(Push(Duplicate(f)));
  }

  /**
    Cloning a stream pushes two files: first the duplicate, under the original
    path and reading a tap of the source, then the renamed file reading the
    converted tap. A source that fails therefore leaves both waiting.
   */
  lemma StreamCloneTapsSource(opts: Options, codec: Codec, f: File)
    requires Qualifies(opts, f) && opts.clone && f.contents.Strm?
    ensures var out := Pushed(Transform(opts, codec, f));
      var source := f.contents.readout;
      && |out| == 2
      && out[0].path == f.path && out[0].contents == Strm(Tap(source))
      && out[1].path == ReplaceExtension(f.path, WOFF2_EXT)
      && out[1].contents == Strm(Converted(codec, Tap(source)))
      && (source.Ends? ==> out[0].contents == f.contents)
      && (!source.Ends? ==> out[0].contents == Strm(Hangs) && out[1].contents == Strm(Hangs))
  {
    var source := f.contents.readout;
    var last := File(ReplaceExtension(f.path, WOFF2_EXT), Strm(Converted(codec, Tap(source))), f.isDirectory);
    var evs := Transform(opts, codec, f);
    assert Transform(opts, codec, f) == Streamed(codec, opts.clone, f, ReplaceExtension(f.path, WOFF2_EXT));
    StreamBranch(codec, opts.clone, f, ReplaceExtension(f.path, WOFF2_EXT));
    assert evs == Trace(Some(Duplicate(f)), None, last);
    TraceProjections(Some(Duplicate(f)), None, last);
    assert Pushed(evs) == [Duplicate(f), last];
    assert Duplicate(f).contents == Strm(Tap(source));
    if source.Ends? {
      assert Tap(source) == source;
    } else {
      assert Tap(source) == Hangs;
      assert Converted(codec, Hangs) == Hangs;
    }
  }
}
