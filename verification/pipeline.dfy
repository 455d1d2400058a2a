/**
  The stage as a whole: an object-mode Transform handles its input files one
  at a time, each to completion (`done`) before the next, so its trace is the
  concatenation of the per-file traces.
 */
module Pipeline {
  import opened Outcomes
  import opened Files

  /** The trace of a stage whose per-file handler is `step`, fed `files` in order. */
  function Run(step: File -> seq<Event>, files: seq<File>): seq<Event>
  {
    if |files| == 0 then [] else step(files[0]) + Run(step, files[1..])
  }

  /** Feeding two batches one after the other gives the first batch's trace, then the second's. */
  lemma {:induction false} RunAppend(step: File -> seq<Event>, a: seq<File>, b: seq<File>)
    ensures Run(step, a + b) == Run(step, a) + Run(step, b)
  {
    if |a| == 0 {
      assert a + b == b;
    } else {
      assert (a + b)[1..] == a[1..] + b;
      RunAppend(step, a[1..], b);
    }
  }

  /** Two handlers that do the same on every file of a batch give the same trace on it. */
  lemma {:induction false} RunAgrees(step: File -> seq<Event>, other: File -> seq<Event>, files: seq<File>)
    requires forall k :: 0 <= k < |files| ==> step(files[k]) == other(files[k])
    ensures Run(step, files) == Run(other, files)
  {
    if |files| > 0 {
      RunAgrees(step, other, files[1..]);
    }
  }

  /** When every file calls `done` once, the stage calls it once per input file. */
  lemma {:induction false} RunDoneCount(step: File -> seq<Event>, files: seq<File>)
    requires forall f :: DoneCount(step(f)) == 1
    ensures DoneCount(Run(step, files)) == |files|
  {
    if |files| > 0 {
      RunDoneCount(step, files[1..]);
      ProjectionsAppend(step(files[0]), Run(step, files[1..]));
    }
  }

  /** When every file is passed through untouched, the stage pushes exactly its input and emits nothing. */
  lemma {:induction false} RunPassesThrough(step: File -> seq<Event>, files: seq<File>)
    requires forall k :: 0 <= k < |files| ==> step(files[k]) == [Push(files[k]), Done]
    ensures Pushed(Run(step, files)) == files
    ensures Emitted(Run(step, files)) == []
  {
    if |files| > 0 {
      var rest := Run(step, files[1..]);
      RunPassesThrough(step, files[1..]);
      assert step(files[0]) == [Push(files[0])] + [Done];
      ProjectionsAppend([Push(files[0])], [Done]);
      ProjectionsSingle(Push(files[0]));
      ProjectionsSingle(Done);
      ProjectionsAppend(step(files[0]), rest);
      assert files == [files[0]] + files[1..];
    }
  }
}
