/**
 The directory scan (`processDirectory`): the walk visits every entry under a
 root, and every entry that is not a directory and whose extension, lowered,
 is `.mp3` is handed over as a job, in visiting order. An error reported to
 the walk function is returned by it, which ends the walk; the jobs already
 handed over stay handed over.

 The file system is an input: a walk is given as the sequence of calls the
 walk function receives.
 */
module DirectoryScanner {
  import opened Paths
  import SegmentExporter

  /** The file selection: not a directory, and the extension is `.mp3` in any letter case. */
  predicate IsAudioFile(path: string, isDir: bool) {
    !isDir && LowerAscii(Ext(path)) == ".mp3"
  }

  /** The path ends in a dot, `m` or `M`, `p` or `P`, and `3`. */
  predicate EndsInMp3(path: string) {
    var n := |path|;
    && 4 <= n
    && path[n - 4] == '.'
    && (path[n - 3] == 'm' || path[n - 3] == 'M')
    && (path[n - 2] == 'p' || path[n - 2] == 'P')
    && path[n - 1] == '3'
  }

  /** One call of the walk function: an entry with whether it is a directory, or an error for a path. */
  datatype WalkCall = Visit(path: string, isDir: bool) | WalkError(path: string)

  /** How a walk ended: it visited everything, or the error for `path` stopped it. */
  datatype WalkEnd = Completed | Stopped(path: string)

  /** Position of the first error in a walk, or its length when there is none. */
  function FirstError(walk: seq<WalkCall>): (k: nat)
    ensures k <= |walk|
    ensures forall j :: 0 <= j < k ==> walk[j].Visit?
    ensures k < |walk| ==> walk[k].WalkError?
  {
    if |walk| == 0 || walk[0].WalkError? then 0 else 1 + FirstError(walk[1..])
  }

  /** The paths of a run of visits that `keep` accepts, in order. */
  function Filter(walk: seq<WalkCall>, keep: (string, bool) -> bool): seq<string>
    requires forall j :: 0 <= j < |walk| ==> walk[j].Visit?
  {
    if |walk| == 0 then []
    else
      var last := walk[|walk| - 1];
      Filter(walk[..|walk| - 1], keep) + (if keep(last.path, last.isDir) then [last.path] else [])
  }

  /** The paths of a run of visits that the scan selects, in order. */
  function Selected(walk: seq<WalkCall>): seq<string>
    requires forall j :: 0 <= j < |walk| ==> walk[j].Visit?
  {
    Filter(walk, IsAudioFile)
  }

  /**
   `processDirectory`: the jobs handed over, in order, and the error that
   ended the walk, if any. The jobs are the selected entries visited before
   the first error; that error's path is the one reported.
   */
  method ScanDirectory(walk: seq<WalkCall>) returns (jobs: seq<string>, end: WalkEnd)
    ensures jobs == Selected(walk[..FirstError(walk)])
    ensures end.Completed? <==> FirstError(walk) == |walk|
    ensures end.Stopped? ==> FirstError(walk) < |walk| && end.path == walk[FirstError(walk)].path
  {
    jobs, end := WalkWith(walk, IsAudioFile);
  }

  /** The walk function's loop, for any selection rule `keep`. */
  method WalkWith(walk: seq<WalkCall>, keep: (string, bool) -> bool) returns (jobs: seq<string>, end: WalkEnd)
    ensures jobs == Filter(walk[..FirstError(walk)], keep)
    ensures end.Completed? <==> FirstError(walk) == |walk|
    ensures end.Stopped? ==> FirstError(walk) < |walk| && end.path == walk[FirstError(walk)].path
  {
    jobs := [];
    var i := 0;
    while i < |walk|
      invariant i <= FirstError(walk)
      invariant jobs == Filter(walk[..i], keep)
    {
      var call := walk[i];
      if call.WalkError? {
        return jobs, Stopped(call.path);
      }
      assert walk[..i + 1][..i] == walk[..i];
      if keep(call.path, call.isDir) {
        jobs := jobs + [call.path];
      }
      i := i + 1;
    }
    return jobs, Completed;
  }

  // ---------------------------------------------------------------------------
  // Properties
  // ---------------------------------------------------------------------------

  /** A path is handed over exactly when some visit before the first error selected it. */
  lemma SelectedIff(walk: seq<WalkCall>, p: string)
    requires forall j :: 0 <= j < |walk| ==> walk[j].Visit?
    ensures p in Selected(walk) <==>
            exists j :: 0 <= j < |walk| && walk[j].path == p && IsAudioFile(p, walk[j].isDir)
  {
    FilterIff(walk, IsAudioFile, p);
  }

  /** A path is in the filtered list exactly when some visit of it is accepted. */
  lemma {:induction false} FilterIff(walk: seq<WalkCall>, keep: (string, bool) -> bool, p: string)
    requires forall j :: 0 <= j < |walk| ==> walk[j].Visit?
    ensures p in Filter(walk, keep) <==>
            exists j :: 0 <= j < |walk| && walk[j].path == p && keep(p, walk[j].isDir)
  {
    if |walk| > 0 {
      var init := walk[..|walk| - 1];
      var last := walk[|walk| - 1];
      FilterIff(init, keep, p);
      var tail: seq<string> := if keep(last.path, last.isDir) then [last.path] else [];
      assert Filter(walk, keep) == Filter(init, keep) + tail;
      if p in Filter(init, keep) {
        var j :| 0 <= j < |init| && init[j].path == p && keep(p, init[j].isDir);
        assert walk[j] == init[j];
      }
      if exists j :: 0 <= j < |walk| && walk[j].path == p && keep(p, walk[j].isDir) {
        var j :| 0 <= j < |walk| && walk[j].path == p && keep(p, walk[j].isDir);
        if j < |init| {
          assert init[j] == walk[j];
        }
      }
    }
  }

  /** The selection is exactly "ends in `.mp3`, in any letter case, and is not a directory". */
  lemma AudioFileIff(path: string, isDir: bool)
    ensures IsAudioFile(path, isDir) <==> !isDir && EndsInMp3(path)
  {
    var name := AfterSlash(path);
    var e := Ext(path);
    AfterSlashSpec(path);
    if LowerAscii(e) == ".mp3" {
      ExtEndsPath(path);
      assert e == path[|path| - 4..];
      assert LowerChar(e[0]) == '.' && LowerChar(e[1]) == 'm';
      assert LowerChar(e[2]) == 'p' && LowerChar(e[3]) == '3';
    }
    if EndsInMp3(path) {
      Mp3Tail(path);
    }
  }

  /** A path ending in `.mp3`, in any letter case, has those four characters as its extension. */
  lemma Mp3Tail(path: string)
    requires EndsInMp3(path)
    ensures Ext(path) == path[|path| - 4..]
  {
    var n := |path|;
    var head := path[..n - 4];
    var tail := path[n - 4..];
    Mp3TailShape(path);
    AfterSlashAppend(head, tail);
    ExtOfDotTail(path, AfterSlash(head), tail);
  }

  lemma Mp3TailShape(path: string)
    requires EndsInMp3(path)
    ensures var tail := path[|path| - 4..];
            && path == path[..|path| - 4] + tail
            && '/' !in tail && tail[0] == '.' && '.' !in tail[1..]
  {
    var tail := path[|path| - 4..];
    assert tail[1..] == [tail[1], tail[2], tail[3]];
  }

  /** `a.MP3` and `a.Mp3` are selected; `a.mp3x` and a directory `a.mp3` are not. */
  lemma SelectionExamples()
    ensures IsAudioFile("a.MP3", false)
    ensures IsAudioFile("a.Mp3", false)
    ensures !IsAudioFile("a.mp3x", false)
    ensures !IsAudioFile("a.mp3", true)
  {
    AudioFileIff("a.MP3", false);
    AudioFileIff("a.Mp3", false);
    AudioFileIff("a.mp3x", false);
  }

  /** The parts an export writes are themselves selected by the scan, wherever the input was. */
  lemma PartsAreSelected(input: string, i: nat)
    ensures IsAudioFile(SegmentExporter.OutputName(input, i), false)
  {
    SegmentExporter.OutputIsMp3(input, i);
    Mp3Selected(SegmentExporter.OutputName(input, i));
  }

  lemma Mp3Selected(path: string)
    requires Ext(path) == ".mp3"
    ensures IsAudioFile(path, false)
  {
  }
}
