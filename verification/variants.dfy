/**
  Where the legacy plugin (src/index.js) and the current one (src/index.ts)
  agree and where they part.
 */
module Variants {
  import opened Outcomes
  import opened Files
  import opened Paths
  import opened Config
  import Pipeline
  import IndexJs
  import IndexTs

  /**
    The two callbacks make the same first call; without an upstream error that
    is their only call, and with one the legacy callback adds the codec's
    outcome as a second call.
   */
  lemma FileTransformsAgree(codec: Codec, err: Option<Error>, buf: Bytes)
    ensures IndexJs.FileTransform(codec, err, buf)[0] == IndexTs.FileTransform(codec, err, buf)[0]
    ensures err.None? ==> IndexJs.FileTransform(codec, err, buf) == IndexTs.FileTransform(codec, err, buf)
    ensures err.Some? ==>
      IndexJs.FileTransform(codec, err, buf) == IndexTs.FileTransform(codec, err, buf) + [Lift(codec(buf))]
  {
  }

  /**
    Both derived streams read the same. On a failing source this rests on the
    buffering stream settling on the first callback value, which hides the
    legacy callback's second call.
   */
  lemma ConvertedAgree(codec: Codec, source: Readout)
    ensures IndexJs.Converted(codec, source) == IndexTs.Converted(codec, source)
  {
    match source
    case Ends(bytes) => FileTransformsAgree(codec, None, bytes);
    case Fails(e) => FileTransformsAgree(codec, Some(e), []);
    case Hangs =>
  }

  /** On anything but a directory the two stages do the same thing. */
  lemma AgreeOffDirectories(opts: Options, codec: Codec, f: File)
    requires !f.isDirectory
    ensures IndexJs.Transform(opts, codec, f) == IndexTs.Transform(opts, codec, f)
  {
    if IndexTs.Qualifies(opts, f) && f.contents.Strm? {
      var source := f.contents.readout;
      var renamed := ReplaceExtension(f.path, WOFF2_EXT);
      IndexJs.StreamBranch(codec, opts.clone, f, renamed);
      IndexTs.StreamBranch(codec, opts.clone, f, renamed);
      ConvertedAgree(codec, if opts.clone then Tap(source) else source);
    }
  }

  /**
    On the files vinyl makes, where a directory never has contents, the two
    stages do the same thing.
   */
  lemma AgreeOnVinylFiles(opts: Options, codec: Codec, f: File)
    requires VinylMade(f)
    ensures IndexJs.Transform(opts, codec, f) == IndexTs.Transform(opts, codec, f)
  {
    if f.isDirectory {
      IndexJs.NullPassesThrough(opts, codec, f);
      IndexTs.NullOrDirectoryPassesThrough(opts, codec, f);
    } else {
      AgreeOffDirectories(opts, codec, f);
    }
  }

  /** Over a batch of vinyl files, the two stages produce the same trace. */
  lemma RunsAgreeOnVinylFiles(opts: Options, codec: Codec, files: seq<File>)
    requires forall k :: 0 <= k < |files| ==> VinylMade(files[k])
    ensures Pipeline.Run(f => IndexJs.Transform(opts, codec, f), files)
         == Pipeline.Run(f => IndexTs.Transform(opts, codec, f), files)
  {
    forall k | 0 <= k < |files|
      ensures IndexJs.Transform(opts, codec, files[k]) == IndexTs.Transform(opts, codec, files[k])
    {
      AgreeOnVinylFiles(opts, codec, files[k]);
    }
    Pipeline.RunAgrees(f => IndexJs.Transform(opts, codec, f), f => IndexTs.Transform(opts, codec, f), files);
  }

  /**
    A directory that has contents and would qualify otherwise is passed
    through by the current stage but renamed by the legacy one, unless the
    rename leaves its path as it was. Vinyl never makes such a file.
   */
  lemma DirectoriesDiverge(opts: Options, codec: Codec, f: File)
    requires f.isDirectory && IndexJs.Qualifies(opts, f)
    requires ReplaceExtension(f.path, WOFF2_EXT) != f.path
    ensures !VinylMade(f)
    ensures IndexTs.Transform(opts, codec, f) == [Push(f), Done]
    ensures IndexJs.Transform(opts, codec, f) != IndexTs.Transform(opts, codec, f)
  {
    IndexTs.NullOrDirectoryPassesThrough(opts, codec, f);
    IndexJs.DirectoryIsNotExempt(opts, codec, f);
  }
}
