/**
 One file's run through the pipeline (`processMP3File`): the analyzer is run
 on the file, its diagnostic log is parsed into segments, and the segments are
 exported. The run stops at the first stage that fails, and its result names
 that stage: the analyzer failed, no segment came out of the log, or a
 segment's export failed.

 The analyzer's run is an input to the model (its log, or that it failed), and
 so is the encoder, as in the exporter.
 */
module FileProcessor {
  import opened SilenceParser
  import opened SegmentExporter

  /** What running the analyzer on the file gave: its diagnostic log, or an error. */
  datatype Probe = ProbeOk(log: string) | ProbeFailed

  /** How `processMP3File` ended: without an error, or with the error of the stage that failed. */
  datatype Outcome =
    | Processed
    | DetectError
    | NoSilence(path: string)
    | SplitError(path: string, segment: nat)

  /** The stages a run goes through, in order. */
  datatype Stage = Probing | Parsing | Exporting

  /** What a run did: the stages it entered, the encoder calls it made, and how it ended. */
  datatype Report = Report(stages: seq<Stage>, calls: seq<ExportCall>, outcome: Outcome)

  /** No segment can be derived from a log: no end was recorded, or fewer than two starts. */
  predicate Silent(log: string) {
    |Ends(log)| == 0 || |Starts(log)| < 2
  }

  /**
   `processMP3File`. A failed analyzer run ends the run before anything is
   parsed or exported. A log without segments ends it with `NoSilence` before
   any export. Otherwise the segments are exported in order; the run succeeds
   exactly when every export does, and a failed export is reported with its
   segment's index.
   */
  method ProcessFile(path: string, probe: Probe, encoder: ExportCall -> bool) returns (r: Report)
    ensures probe.ProbeFailed? ==> r == Report([Probing], [], DetectError)
    ensures probe.ProbeOk? && Silent(probe.log) ==> r == Report([Probing, Parsing], [], NoSilence(path))
    ensures probe.ProbeOk? && !Silent(probe.log) ==>
              var segs := ParseSilence(probe.log);
              && r.stages == [Probing, Parsing, Exporting]
              && 1 <= |r.calls| <= |segs|
              && (forall j :: 0 <= j < |r.calls| ==> r.calls[j] == CallFor(path, segs, j))
              && (forall j :: 0 <= j < |r.calls| - 1 ==> encoder(r.calls[j]))
              && (!r.outcome.Processed? ==> r.outcome == SplitError(path, |r.calls| - 1) && !encoder(r.calls[|r.calls| - 1]))
    ensures r.outcome.Processed? <==>
              && probe.ProbeOk?
              && !Silent(probe.log)
              && |r.calls| == |ParseSilence(probe.log)|
              && forall j :: 0 <= j < |r.calls| ==> encoder(r.calls[j])
  {
    if probe.ProbeFailed? {
      return Report([Probing], [], DetectError);
    }
    var segs := ParseSilence(probe.log);
    NoSegmentsIff(probe.log);
    r := CheckThenExport(path, segs, encoder);
  }

  /** The stages after the log is parsed: the empty-result check, then the export of its segments. */
  method CheckThenExport(path: string, segs: seq<Segment>, encoder: ExportCall -> bool) returns (r: Report)
    ensures |segs| == 0 ==> r == Report([Probing, Parsing], [], NoSilence(path))
    ensures |segs| != 0 ==>
              && r.stages == [Probing, Parsing, Exporting]
              && 1 <= |r.calls| <= |segs|
              && (forall j :: 0 <= j < |r.calls| ==> r.calls[j] == CallFor(path, segs, j))
              && (forall j :: 0 <= j < |r.calls| - 1 ==> encoder(r.calls[j]))
              && (!r.outcome.Processed? ==> r.outcome == SplitError(path, |r.calls| - 1) && !encoder(r.calls[|r.calls| - 1]))
    ensures r.outcome.Processed? <==> |segs| != 0 && |r.calls| == |segs| && forall j :: 0 <= j < |r.calls| ==> encoder(r.calls[j])
  {
    if |segs| == 0 {
      return Report([Probing, Parsing], [], NoSilence(path));
    }
    var calls, result := SplitAudio(path, segs, encoder);
    if result.AllExported? {
      r := Report([Probing, Parsing, Exporting], calls, Processed);
    } else {
      r := Report([Probing, Parsing, Exporting], calls, SplitError(path, result.index));
    }
  }
}
