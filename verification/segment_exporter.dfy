/**
 The exporter (`splitAudio`): one encoder call per segment, in segment order,
 each writing `<dir>/<stem>_part_<NNN>.mp3` next to the input, where `<stem>`
 is the input's base name without its extension and `<NNN>` is the segment's
 index printed by `%03d`. The first call that fails ends the export; the
 segments after it are never attempted.

 The encoder is an oracle: whether the external process succeeds for a given
 call is a parameter of the model, not something it computes.
 */
module SegmentExporter {
  import opened Decimal
  import opened Paths
  import opened SilenceParser

  /** The base name without its extension. */
  function Stem(input: string): (stem: string)
    ensures stem + Ext(Base(input)) == Base(input)
  {
    ExtEndsPath(Base(input));
    TrimSuffix(Base(input), Ext(Base(input)))
  }

  /** What follows the stem in the name of the part for segment `i`. */
  function PartSuffix(i: nat): (t: string)
    ensures '/' !in t && 13 <= |t|
  {
    "_part_" + Pad3(i) + ".mp3"
  }

  /** `filepath.Join(dir, fmt.Sprintf("%s_part_%03d.mp3", stem, i))`. */
  function OutputName(input: string, i: nat): string {
    Join(Dir(input), Stem(input) + PartSuffix(i))
  }

  /** One run of the encoder: copy `start`..`end` of `input` into `output`. */
  datatype ExportCall = ExportCall(input: string, output: string, start: Timestamp, end: Timestamp)

  /** The call made for segment `i` when part `j` is written to `name(j)`. */
  function CallNamed(input: string, segs: seq<Segment>, name: nat -> string, i: nat): ExportCall
    requires i < |segs|
  {
    ExportCall(input, name(i), segs[i].start, segs[i].end)
  }

  /** The call `splitAudio` makes for segment `i`: from the segment's first bound to its second, into part `i`. */
  function CallFor(input: string, segs: seq<Segment>, i: nat): ExportCall
    requires i < |segs|
  {
    CallNamed(input, segs, (j: nat) => OutputName(input, j), i)
  }

  /** How the export ended: every part written, or the index of the segment whose call failed. */
  datatype SplitResult = AllExported | SegmentFailed(index: nat)

  /**
   `splitAudio`: the calls made, in order, and how the export ended. Call `j`
   is the call for segment `j`; every call but the last succeeded; the export
   reports success exactly when every segment was exported, and otherwise
   names the segment whose call failed, the last one made.
   */
  method SplitAudio(input: string, segs: seq<Segment>, encoder: ExportCall -> bool)
    returns (calls: seq<ExportCall>, result: SplitResult)
    ensures |calls| <= |segs|
    ensures forall j :: 0 <= j < |calls| ==> calls[j] == CallFor(input, segs, j)
    ensures forall j :: 0 <= j < |calls| - 1 ==> encoder(calls[j])
    ensures result == AllExported <==> |calls| == |segs| && forall j :: 0 <= j < |calls| ==> encoder(calls[j])
    ensures result.SegmentFailed? ==> result.index + 1 == |calls| && !encoder(calls[result.index])
  {
    calls, result := ExportInOrder(input, segs, (j: nat) => OutputName(input, j), encoder);
  }

  /** The export loop, for any naming of the parts. */
  method ExportInOrder(input: string, segs: seq<Segment>, name: nat -> string, encoder: ExportCall -> bool)
    returns (calls: seq<ExportCall>, result: SplitResult)
    ensures |calls| <= |segs|
    ensures forall j :: 0 <= j < |calls| ==> calls[j] == CallNamed(input, segs, name, j)
    ensures forall j :: 0 <= j < |calls| - 1 ==> encoder(calls[j])
    ensures result == AllExported <==> |calls| == |segs| && forall j :: 0 <= j < |calls| ==> encoder(calls[j])
    ensures result.SegmentFailed? ==> result.index + 1 == |calls| && !encoder(calls[result.index])
  {
    calls := [];
    var i := 0;
    while i < |segs|
      invariant i <= |segs| && |calls| == i
      invariant forall j :: 0 <= j < i ==> calls[j] == CallNamed(input, segs, name, j)
      invariant forall j :: 0 <= j < i ==> encoder(calls[j])
    {
      var call := CallNamed(input, segs, name, i);
      calls := calls + [call];
      if !encoder(call) {
        return calls, SegmentFailed(i);
      }
      i := i + 1;
    }
    return calls, AllExported;
  }

  /**
   How many of the `planned` calls, from `from` on, succeed before the first
   one that fails (all of them when none fails): an account of how far an
   export gets that does not follow the loop.
   */
  function Succeeding(planned: seq<ExportCall>, encoder: ExportCall -> bool, from: nat): (n: nat)
    requires from <= |planned|
    ensures from + n <= |planned|
    ensures forall j :: from <= j < from + n ==> encoder(planned[j])
    ensures from + n < |planned| ==> !encoder(planned[from + n])
    decreases |planned| - from
  {
    if from == |planned| || !encoder(planned[from]) then 0
    else 1 + Succeeding(planned, encoder, from + 1)
  }

  // ---------------------------------------------------------------------------
  // Properties
  // ---------------------------------------------------------------------------

  /**
   An export that behaves as `SplitAudio` promises, over the calls `planned`
   for its segments, stops exactly at the first planned call that fails: it
   succeeds when none fails, and otherwise names that call's segment.
   */
  lemma ExportExtent(planned: seq<ExportCall>, encoder: ExportCall -> bool,
                     calls: seq<ExportCall>, result: SplitResult)
    requires |calls| <= |planned|
    requires forall j :: 0 <= j < |calls| ==> calls[j] == planned[j]
    requires forall j :: 0 <= j < |calls| - 1 ==> encoder(calls[j])
    requires result == AllExported <==> |calls| == |planned| && forall j :: 0 <= j < |calls| ==> encoder(calls[j])
    requires result.SegmentFailed? ==> result.index + 1 == |calls| && !encoder(calls[result.index])
    ensures result == AllExported <==> Succeeding(planned, encoder, 0) == |planned|
    ensures result.SegmentFailed? ==> result.index == Succeeding(planned, encoder, 0)
  {
  }

  /**
   The part for segment `i` is named `<stem>_part_<NNN>.mp3`, whatever
   directory the input sits in; the directory only decides what comes before
   the last slash.
   */
  lemma OutputFileName(input: string, i: nat)
    ensures Base(OutputName(input, i)) == AfterSlash(Stem(input)) + PartSuffix(i)
    ensures AfterSlash(OutputName(input, i)) == AfterSlash(Stem(input)) + PartSuffix(i)
  {
    JoinedFileName(Dir(input), Stem(input), PartSuffix(i));
  }

  /** Joining a directory and a file name keeps the file name's last element, once it names something. */
  lemma JoinedFileName(dir: string, stem: string, t: string)
    requires '/' !in t && 3 <= |t|
    ensures Base(Join(dir, stem + t)) == AfterSlash(stem) + t
    ensures AfterSlash(Join(dir, stem + t)) == AfterSlash(stem) + t
  {
    var x := if dir != "" then dir + "/" + (stem + t) else stem + t;
    if dir != "" {
      assert x == (dir + "/" + stem) + t;
      AfterSlashAppend(dir + "/" + stem, t);
      AfterSlashBehind(dir, stem);
    } else {
      AfterSlashAppend(stem, t);
    }
    assert Join(dir, stem + t) == Clean(x);
    CleanKeepsLast(x);
    BaseOfNamed(Clean(x));
  }

  /** For an input that is a file name (the only kind the directory scan hands over), the stem is kept whole. */
  lemma OutputFileNameOfFile(input: string, i: nat)
    requires Base(input) != "/"
    ensures Base(OutputName(input, i)) == Stem(input) + PartSuffix(i)
  {
    OutputFileName(input, i);
    BaseSlashFree(input);
    StemSlashFree(Stem(input), Ext(Base(input)), Base(input));
  }

  lemma StemSlashFree(stem: string, ext: string, base: string)
    requires '/' !in base && stem + ext == base
    ensures '/' !in stem && AfterSlash(stem) == stem
  {
    assert forall k :: 0 <= k < |stem| ==> stem[k] == base[k];
    AfterSlashPlain(stem);
  }

  /** Every part is written into the directory the input is in. */
  lemma PartBesideInput(input: string, i: nat)
    ensures Dir(OutputName(input, i)) == Dir(input)
  {
    var p := input[..LastIndex(input, '/') + 1];
    var rooted := Rooted(p);
    var stack := Resolve(Elements(p), rooted);
    ElementsSlashFree(p);
    ResolveCanonical(Elements(p), rooted);
    assert Dir(input) == Render(stack, rooted);
    var t := PartSuffix(i);
    if Base(input) == "/" {
      StemOfRoot(input);
      assert Stem(input) + t == "/" + t;
      JoinRenderRooted(stack, rooted, t);
      DirOfSnoc(stack, rooted, t);
    } else {
      BaseSlashFree(input);
      StemSlashFree(Stem(input), Ext(Base(input)), Base(input));
      var n := Stem(input) + t;
      assert '/' !in n;
      JoinRender(stack, rooted, n);
      DirOfSnoc(stack, rooted, n);
    }
  }

  /** The input that is only slashes has `/` as its stem. */
  lemma StemOfRoot(input: string)
    requires Base(input) == "/"
    ensures Stem(input) == "/"
  {
    var b := Base(input);
    assert LastIndex(b, '/') == 0;
    assert AfterSlash(b) == "";
    assert Ext(b) == "";
    assert Stem(input) + "" == b;
  }

  /** Different segments are written to different files. */
  lemma OutputNamesDistinct(input: string, i: nat, j: nat)
    requires i != j
    ensures OutputName(input, i) != OutputName(input, j)
  {
    if OutputName(input, i) == OutputName(input, j) {
      OutputFileName(input, i);
      OutputFileName(input, j);
      var x := AfterSlash(Stem(input));
      assert x + PartSuffix(i) == x + PartSuffix(j);
      PartSuffixInjective(x, i, j);
    }
  }

  lemma PartSuffixInjective(x: string, i: nat, j: nat)
    requires x + PartSuffix(i) == x + PartSuffix(j)
    ensures i == j
  {
    Infix(x, "_part_", Pad3(i), Pad3(j), ".mp3");
    Pad3Injective(i, j);
  }

  /** Text between a common prefix and a common suffix is determined by the whole. */
  lemma Infix(x: string, pre: string, a: string, b: string, post: string)
    requires x + (pre + a + post) == x + (pre + b + post)
    ensures a == b
  {
    var u := x + (pre + a + post);
    var v := x + (pre + b + post);
    assert a == u[|x| + |pre|..|u| - |post|];
    assert b == v[|x| + |pre|..|v| - |post|];
  }

  /** No two calls of one export write the same file. */
  lemma CallsWriteDistinctFiles(input: string, segs: seq<Segment>, calls: seq<ExportCall>)
    requires |calls| <= |segs|
    requires forall j :: 0 <= j < |calls| ==> calls[j] == CallFor(input, segs, j)
    ensures forall j, k :: 0 <= j < k < |calls| ==> calls[j].output != calls[k].output
  {
    forall j, k | 0 <= j < k < |calls| ensures calls[j].output != calls[k].output {
      OutputNamesDistinct(input, j, k);
    }
  }

  /** Every part carries the `.mp3` extension. */
  lemma OutputIsMp3(input: string, i: nat)
    ensures Ext(OutputName(input, i)) == ".mp3"
  {
    OutputFileName(input, i);
    Mp3Ending(OutputName(input, i), AfterSlash(Stem(input)), "_part_" + Pad3(i));
  }

  lemma Mp3Ending(x: string, a: string, b: string)
    requires AfterSlash(x) == a + (b + ".mp3")
    ensures Ext(x) == ".mp3"
  {
    assert a + (b + ".mp3") == (a + b) + ".mp3";
    ExtOfDotTail(x, a + b, ".mp3");
  }
}
