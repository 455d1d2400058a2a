/**
  What flows through the plugin: vinyl file objects, their three kinds of
  contents, the errors the plugin raises, the codec it calls, and the events
  one call of the stage's `_transform` produces.
 */
module Files {
  import opened Outcomes

  newtype byte = x: int | 0 <= x < 256
  type Bytes = seq<byte>

  const PLUGIN_NAME: string := "gulp-ttf2woff2"
  const TTF_EXT: string := ".ttf"
  const WOFF2_EXT: string := ".woff2"

  /**
    An error as the plugin sees it: a plain error reported by an upstream
    stream, or a `PluginError` naming the plugin and asking for a stack trace.
   */
  datatype Error =
    | NodeError(message: string)
    | PluginError(plugin: string, message: string, showStack: bool)

  /** The error the plugin raises: a plugin error naming this plugin, carrying `message`, with a stack trace requested. */
  function Wrap(message: string): (e: Error)
    ensures e.PluginError? && e.plugin == PLUGIN_NAME && e.showStack
    ensures e.message == message
  {
    PluginError(PLUGIN_NAME, message, true)
  }

  /** What a callback reports: the bytes, or an error. */
  type Reply = Result<Bytes, Error>

  /**
    What a readable stream eventually gives a consumer that drains it: all of
    its bytes followed by the end, an error, or neither (it never ends).
   */
  datatype Readout = Ends(bytes: Bytes) | Fails(error: Error) | Hangs

  /** A vinyl file's contents: none, a buffer, or a readable stream. */
  datatype Contents = Null | Buf(bytes: Bytes) | Strm(readout: Readout)

  /** A vinyl file: its path, its contents, and what its `isDirectory()` reports. */
  datatype File = File(path: string, contents: Contents, isDirectory: bool)

  /** What vinyl guarantees of every file it makes: only a file without contents reports being a directory. */
  predicate VinylMade(f: File)
  {
    f.isDirectory ==> f.contents.Null?
  }

  /**
    The external TTF to WOFF2 encoder: it returns the converted bytes or
    throws an error carrying a message.
   */
  type Codec = Bytes -> Result<Bytes, string>

  /** The codec's outcome as a callback argument: a thrown message becomes a plugin error. */
  function Lift(r: Result<Bytes, string>): (out: Reply)
    ensures r.Success? <==> out.Success?
    ensures r.Success? ==> out.value == r.value
    ensures r.Failure? ==> out.error == Wrap(r.error)
  {
    MapError(r, Wrap)
  }

  /** The stream a buffering stream gives once its callback has reported `r`: those bytes, or that error. */
  function Settle(r: Reply): (out: Readout)
    ensures out.Ends? <==> r.Success?
    ensures out.Ends? ==> out.bytes == r.value
    ensures !out.Ends? ==> out == Fails(r.error)
  {
    match r
    case Success(bytes) => Ends(bytes)
    case Failure(e) => Fails(e)
  }

  /**
    A pass-through stream piped from `source`. Piping forwards data and the
    end but not errors, so a source that fails leaves its tap waiting forever.
   */
  function Tap(source: Readout): (r: Readout)
    ensures source.Ends? ==> r == source
    ensures !source.Ends? ==> r.Hangs?
  {
    if source.Ends? then source else Hangs
  }

  /** A tap of a tap reads the same as a single tap. */
  lemma TapTwice(source: Readout)
    ensures Tap(Tap(source)) == Tap(source)
  {
  }

  /**
    The duplicate the stage pushes when cloning: same path and directory flag;
    a buffer is copied as an equal value, a stream is read through a tap of its own.
   */
  function Duplicate(f: File): (d: File)
    ensures d.path == f.path && d.isDirectory == f.isDirectory
    ensures d.contents.Null? <==> f.contents.Null?
    ensures d.contents.Buf? <==> f.contents.Buf?
  {
    if f.contents.Strm? then f.(contents := Strm(Tap(f.contents.readout))) else f
  }

  /** Whatever ends (a buffer, or a stream that ends) is duplicated into an equal file; a failing stream's duplicate never ends. */
  lemma DuplicateIsCopy(f: File)
    ensures f.contents.Buf? || (f.contents.Strm? && f.contents.readout.Ends?) ==> Duplicate(f) == f
    ensures f.contents.Strm? && !f.contents.readout.Ends? ==> Duplicate(f).contents == Strm(Hangs)
  {
  }

  /** What the stage does while handling one file. */
  datatype Event =
    | Push(file: File)     // a file handed downstream
    | Emit(error: Error)   // an error raised on the stage's error channel
    | Done                 // the handler reports the file finished

  /** The files pushed downstream, in order. */
  function Pushed(evs: seq<Event>): seq<File>
  {
    if |evs| == 0 then []
    else (if evs[0].Push? then [evs[0].file] else []) + Pushed(evs[1..])
  }

  /** The errors emitted on the stage's error channel, in order. */
  function Emitted(evs: seq<Event>): seq<Error>
  {
    if |evs| == 0 then []
    else (if evs[0].Emit? then [evs[0].error] else []) + Emitted(evs[1..])
  }

  /** How many times `done` is called. */
  function DoneCount(evs: seq<Event>): nat
  {
    if |evs| == 0 then 0
    else (if evs[0].Done? then 1 else 0) + DoneCount(evs[1..])
  }

  /**
    The shape of every call of `_transform`: possibly a duplicate pushed
    first, possibly an error emitted, then the file pushed and `done`.
   */
  function Trace(duplicate: Option<File>, error: Option<Error>, last: File): seq<Event>
  {
    (if duplicate.Some? then [Push(duplicate.value)] else [])
    + (if error.Some? then [Emit(error.value)] else [])
    + [Push(last), Done]
  }

  /** The file pushed last. */
  function LastPushed(evs: seq<Event>): File
    requires Pushed(evs) != []
  {
    Pushed(evs)[|Pushed(evs)| - 1]
  }

  /**
    A trace pushes the duplicate (if any) and then the file, emits the error
    (if any) before the file is pushed, and ends with its only `done`.
   */
  lemma TraceProjections(duplicate: Option<File>, error: Option<Error>, last: File)
    ensures var evs := Trace(duplicate, error, last);
      && Pushed(evs) == (if duplicate.Some? then [duplicate.value] else []) + [last]
      && Emitted(evs) == (if error.Some? then [error.value] else [])
      && DoneCount(evs) == 1
      && evs[|evs| - 1] == Done
      && evs[|evs| - 2] == Push(last)
      && (error.Some? ==> evs[|evs| - 3] == Emit(error.value))
  {
    var d: seq<Event> := if duplicate.Some? then [Push(duplicate.value)] else [];
    var m: seq<Event> := if error.Some? then [Emit(error.value)] else [];
    var tail := [Push(last), Done];
    assert Trace(duplicate, error, last) == (d + m) + tail;
    ProjectionsAppend(d + m, tail);
    ProjectionsAppend(d, m);
    EndProjections(last);
    if duplicate.Some? {
      ProjectionsSingle(Push(duplicate.value));
    } else {
      assert Pushed(d) == [];
    }
    if error.Some? {
      ProjectionsSingle(Emit(error.value));
    } else {
      assert Emitted(m) == [] && DoneCount(m) == 0;
    }
  }

  /** The end of every trace pushes the file and calls `done` once, emitting nothing. */
  lemma EndProjections(last: File)
    ensures Pushed([Push(last), Done]) == [last]
    ensures Emitted([Push(last), Done]) == []
    ensures DoneCount([Push(last), Done]) == 1
  {
    assert [Push(last), Done] == [Push(last)] + [Done];
    ProjectionsAppend([Push(last)], [Done]);
    ProjectionsSingle(Push(last));
    ProjectionsSingle(Done);
  }

  /** A trace without duplicate or error is the file pushed alone. */
  lemma TracePlain(last: File)
    ensures Trace(None, None, last) == [Push(last), Done]
  {
  }

  /** A trace with a duplicate is the duplicate pushed in front of the trace without it. */
  lemma TraceDuplicate(duplicate: File, error: Option<Error>, last: File)
    ensures Trace(Some(duplicate), error, last) == [Push(duplicate)] + Trace(None, error, last)
  {
  }

  /** Each projection of a trace distributes over concatenation. */
  lemma {:induction false} ProjectionsAppend(a: seq<Event>, b: seq<Event>)
    ensures Pushed(a + b) == Pushed(a) + Pushed(b)
    ensures Emitted(a + b) == Emitted(a) + Emitted(b)
    ensures DoneCount(a + b) == DoneCount(a) + DoneCount(b)
  {
    if |a| > 0 {
      assert (a + b)[1..] == a[1..] + b;
      ProjectionsAppend(a[1..], b);
    } else {
      assert a + b == b;
    }
  }

  /** The projections of a one-event trace. */
  lemma ProjectionsSingle(e: Event)
    ensures Pushed([e]) == (if e.Push? then [e.file] else [])
    ensures Emitted([e]) == (if e.Emit? then [e.error] else [])
    ensures DoneCount([e]) == (if e.Done? then 1 else 0)
  {
    assert [e][1..] == [];
  }
}
