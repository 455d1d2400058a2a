/**
  Buffer mode, which both stages handle alike (src/index.ts:92-105 and
  src/index.js:72-80): the codec's output replaces the contents, or its error
  is emitted and the bytes stay; either way the renamed file is pushed and
  `done` is called, after the duplicate when cloning.
 */
module Buffers {
  import opened Outcomes
  import opened Files

  /** The rest of `_transform` for a buffer file `f` once the duplicate is chosen and the new path computed. */
  function Convert(codec: Codec, duplicate: Option<File>, f: File, renamed: string): seq<Event>
    requires f.contents.Buf?
  {
    match codec(f.contents.bytes)
    case Success(out) => Trace(duplicate, None, File(renamed, Buf(out), f.isDirectory))
    case Failure(msg) => Trace(duplicate, Some(Wrap(msg)), f.(path := renamed))
  }

  /**
    The duplicate (if any) and then the renamed file are pushed, holding the
    codec's output or, when the codec fails, the original bytes; the codec's
    error is emitted exactly when it fails, right before that push; `done`
    comes last and only once.
   */
  lemma ConvertShape(codec: Codec, duplicate: Option<File>, f: File, renamed: string)
    requires f.contents.Buf?
    ensures var evs := Convert(codec, duplicate, f, renamed);
      var result := codec(f.contents.bytes);
      && evs != [] && evs[|evs| - 1] == Done && DoneCount(evs) == 1
      && Pushed(evs) == (if duplicate.Some? then [duplicate.value] else [])
                        + [File(renamed, if result.Success? then Buf(result.value) else f.contents, f.isDirectory)]
      && |Pushed(evs)| == (if duplicate.Some? then 2 else 1)
      && LastPushed(evs) == File(renamed, if result.Success? then Buf(result.value) else f.contents, f.isDirectory)
      && Emitted(evs) == (if result.Failure? then [Wrap(result.error)] else [])
      && (result.Failure? ==>
            && |evs| >= 3
            && evs[|evs| - 3] == Emit(Wrap(result.error))
            && evs[|evs| - 2] == Push(f.(path := renamed)))
  {
    match codec(f.contents.bytes)
    case Success(out) =>
      TraceProjections(duplicate, None, File(renamed, Buf(out), f.isDirectory));
    case Failure(msg) =>
      TraceProjections(duplicate, Some(Wrap(msg)), f.(path := renamed));
  }

  /** With a duplicate, the duplicate is pushed in front of what happens without one. */
  lemma ConvertDuplicate(codec: Codec, duplicate: File, f: File, renamed: string)
    requires f.contents.Buf?
    ensures Convert(codec, Some(duplicate), f, renamed) == [Push(duplicate)] + Convert(codec, None, f, renamed)
  {
    match codec(f.contents.bytes)
    case Success(out) =>
      TraceDuplicate(duplicate, None, File(renamed, Buf(out), f.isDirectory));
    case Failure(msg) =>
      TraceDuplicate(duplicate, Some(Wrap(msg)), f.(path := renamed));
  }
}
