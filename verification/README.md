# splitAudio, modelled in Dafny

splitAudio walks directories and selects MP3 files. For each one it runs an
audio analyzer's silence detector. It parses the detector's diagnostic log
into segments: each segment runs from the end of one silence to the start of
the next. It then asks an encoder to copy each segment into its own file,
`<dir>/<stem>_part_<NNN>.mp3`, next to the input.

This project models that core as pure functions and small methods, and proves
what the code promises about it. The modules are:

- `LineScanner`: line splitting of the log as `bufio.Scanner` does it, including its 64 KiB token limit.
- `SilenceParser`: `parseSilence`. It covers the two regular expressions (leftmost match, greedy digit runs), when `strconv.ParseFloat` accepts a capture, the two timestamp lists and the pairing loop.
- `Decimal`: digit strings and `%03d`.
- `Paths`: the Unix behaviour of `filepath.Base`, `Dir`, `Ext`, `Join` and `Clean`, plus `strings.TrimSuffix` and `strings.ToLower`.
- `SegmentExporter`: `splitAudio`. It covers output naming and the sequential export that stops at the first failure. The encoder is an oracle: a function from a call to success.
- `FileProcessor`: `processMP3File`. It covers the stages probe, parse, no-silence check and export. The analyzer's result is an input.
- `DirectoryScanner`: the walk function of `processDirectory`. It covers the file selection and the stop at the first walk error. The walk is given as the sequence of calls the walk function receives.
- `Optional`: an option type, for the result of a pattern search.

Timestamps stay as the decimal text the pattern captured. The parser only
decides whether a capture is kept and moves it into a list. Whether it is
kept depends on one fact about the float conversion, and `ParsesAsFloat64`
states that fact exactly. ParseFloat fails on `digits.digits` text only by
overflow: the integer part is at least 2^1024 − 2^970, which rounds to
infinity.

Two behaviours of the code are easy to miss:

- Every line is searched for both patterns. One line can feed both lists.
- A segment is never checked for start < end. The segments are whatever the
  pairing gives.

## Model

| member | source | states |
|---|---|---|
| LineScanner.Lines | cmd/main.go:74-76 | Every line the scanner delivers is shorter than 64 KiB and holds no newline. |
| LineScanner.LinesOfTerminated | cmd/main.go:74-76 | Scanning newline-terminated lines that are shorter than 64 KiB gives one line per input line, in order. Each comes back with one trailing carriage return dropped, so a CRLF log reads like an LF one; a line with no trailing carriage return comes back exactly. |
| LineScanner.LinesOfPlain | cmd/main.go:74-76 | Short newline-terminated lines that do not end in a carriage return come back exactly, in order. |
| LineScanner.LastLineKept | cmd/main.go:74-76 | A final line with no newline after it is still delivered, after the terminated lines before it. Every line loses one trailing carriage return. |
| LineScanner.OverlongLineEndsScan | cmd/main.go:74-75 | A line of 65536 bytes or more ends the scan without an error being seen. Only the lines before it are delivered, whatever follows, each without one trailing carriage return; plain lines come back exactly. |
| SilenceParser.FindCapture | cmd/main.go:78-84 | `FindStringSubmatch(line)[1]`: the capture of the leftmost match of `tag(\d+\.\d+)`, or none. Its contract is carried by `FirstMatchSpec` (the leftmost position), `MatchAtText` (the captured text), `MatchAtSound`, `MatchAtComplete` and `FindCaptureNone`. |
| SilenceParser.ParsesAsFloat64 | cmd/main.go:79-85 | `strconv.ParseFloat(c, 64)` returns no error for `digits.digits` text exactly when the integer part is below 2^1024 − 2^970, the point from which the value rounds to infinity. This is the one fact about a library the model takes as given, not proved; `CaptureKeptIffFinite` and `TaggedLine` state its consequences for a line, and `KeptIff` ties it to the captures the parser keeps. |
| SilenceParser.KeptIff | cmd/main.go:78-81 | A capture is kept exactly when it is `digits.digits` text that ParseFloat accepts. |
| SilenceParser.LineEvent | cmd/main.go:78-88 | What one line adds to one list: the capture when there is one and ParseFloat accepts it, otherwise nothing. `TaggedLine` (both branches, after any prefix), `KeptLine`, `UnmatchedLine`, `BothTags` and `EventsWellFormed` state it. |
| SilenceParser.Events | cmd/main.go:75-89 | The list for one pattern, built line by line in text order. `EventsConcat` and `EventsWellFormed` state it. |
| SilenceParser.Ends | cmd/main.go:78-81 | The `silence_end` list of a log, over the lines the scanner delivers. `ParseSilence` and `AlternatingTranscript` state it. |
| SilenceParser.Starts | cmd/main.go:84-87 | The `silence_start` list of a log, over the lines the scanner delivers. `ParseSilence` and `AlternatingTranscript` state it. |
| SilenceParser.FirstMatchSpec | cmd/main.go:78 | The search finds the leftmost position where the pattern matches: a match starts there and none starts earlier. |
| SilenceParser.MatchAtSound | cmd/main.go:70-71 | A capture is a match of `tag(\d+\.\d+)` at its position, and the captured text is `digits.digits`. |
| SilenceParser.MatchAtText | cmd/main.go:70-78 | A capture is the text right after the tag, and it ends where the digits after the dot end: the character after it, if any, is not a digit. |
| SilenceParser.MatchAtComplete | cmd/main.go:70-71 | Wherever `tag(\d+\.\d+)` matches, the matcher captures. |
| SilenceParser.FindCaptureNone | cmd/main.go:78 | The submatch search finds nothing exactly when the pattern matches at no position of the line. |
| SilenceParser.TaggedLine | cmd/main.go:77-88 | On a line of the form text, tag, decimal, text, the whole decimal is captured. The text before the tag must hold no match of the pattern, and the text after the decimal must not continue its digits. The capture is kept exactly when its integer part is below the float64 overflow bound; a capture ParseFloat rejects adds nothing and raises no error. |
| SilenceParser.CaptureKeptIffFinite | cmd/main.go:79-80 | A value is appended exactly when ParseFloat can represent it. At or above 2^1024 − 2^970 the line adds nothing. |
| SilenceParser.UnsignedDecimalsOnly | cmd/main.go:70-71 | `silence_end: -1.500000` and `silence_start: 10` add nothing. Only unsigned values with a dot are recorded. |
| SilenceParser.KeptLine | cmd/main.go:77-88 | A line of the form text, tag, representable decimal, text adds that decimal to the tag's list, whatever the other pattern finds on the line. The text before the tag must hold no match of the pattern, and the text after the decimal must not continue its digits. |
| SilenceParser.UnmatchedLine | cmd/main.go:78-84 | A line on which a pattern matches nowhere adds nothing to that pattern's list. |
| SilenceParser.BothTags | cmd/main.go:77-88 | A line carrying an end and then a start adds the end's value to the ends and the start's value to the starts: one line can feed both lists. |
| SilenceParser.EventsWellFormed | cmd/main.go:78-87 | Every recorded timestamp is `digits.digits` text that ParseFloat accepts. |
| SilenceParser.EventsConcat | cmd/main.go:75-89 | Both lists keep line order. The values of a text are those of its first lines, followed by those of the rest. |
| SilenceParser.Pairing | cmd/main.go:91-102 | The number of segments is max(0, min(#ends, #starts − 1)). Segment i runs from ends[i] to starts[i + 1]. |
| SilenceParser.ParseSilence | cmd/main.go:66-105 | For a whole log, the same count and pairing over the ends and starts found in it. |
| SilenceParser.NoSegmentsIff | cmd/main.go:98-104 | No segment comes out exactly when no end was recorded or fewer than two starts were. |
| SilenceParser.AlternatingTranscript | cmd/main.go:66-105 | A log of three starts alternating with two ends gives the ends and starts in order. It yields two segments, each from an end to the following start; the first start bounds nothing. |
| Decimal.Pad3 | cmd/main.go:115 | `%03d` writes at least three digits that read back as the index: exactly three below 1000, the plain decimal from 1000 on. |
| Decimal.ValueOfDigits | cmd/main.go:115 | Reading back the digits `%d` writes gives the number. |
| Decimal.Pad3Injective | cmd/main.go:115 | Different indices are printed differently. |
| Paths.Clean | cmd/main.go:109-115 | `filepath.Clean`, as an element stack. `CleanIdempotent`, `CleanKeepsLast` and `DirOfJoin` state it. |
| Paths.Dir | cmd/main.go:109 | `filepath.Dir`: the cleaned text up to the last slash. `DirOfJoin` and `SegmentExporter.PartBesideInput` state it. |
| Paths.Base | cmd/main.go:110 | `filepath.Base`: the last element once trailing slashes are gone, `/` for slashes alone and `.` for the empty path. `SegmentExporter.OutputFileName` states it for the parts. |
| Paths.Ext | cmd/main.go:111 | `filepath.Ext`: the text from the last dot of the last element. `Paths.ExtEndsPath`, `DirectoryScanner.AudioFileIff` and `SegmentExporter.OutputIsMp3` state it. |
| Paths.Join | cmd/main.go:115 | `filepath.Join` of two parts: the cleaned text with a slash between them, skipping an empty part. `DirOfJoin` and `SegmentExporter.OutputFileName` state it. |
| Paths.ExtEndsPath | cmd/main.go:111 | The extension is a suffix of the path, so trimming it leaves the rest of the path. |
| Paths.TrimSuffix | cmd/main.go:111 | The result followed by the suffix is the input when the input ends with the suffix. Otherwise the input is unchanged. |
| Paths.JoinElements | cmd/main.go:109 | Cutting a path at its slashes and rejoining the pieces gives the path back. |
| Paths.CleanKeepsLast | cmd/main.go:115 | Cleaning a path whose last element names something keeps that last element. |
| Paths.CleanIdempotent | cmd/main.go:109 | Cleaning a cleaned path changes nothing. |
| Paths.DirOfJoin | cmd/main.go:109-115 | Joining a cleaned directory with a named, slash-free element and taking the directory of the result gives the cleaned directory back. |
| SegmentExporter.Stem | cmd/main.go:110-111 | The base name is the stem followed by the extension. |
| SegmentExporter.OutputName | cmd/main.go:109-115 | The path of the part for segment i: the input's directory joined with `<stem>_part_<NNN>.mp3`. `OutputFileName`, `PartBesideInput`, `OutputNamesDistinct` and `OutputIsMp3` state it. |
| SegmentExporter.OutputFileName | cmd/main.go:109-115 | The part for segment i has the base name `<stem>_part_<NNN>.mp3`, whatever directory the input is in. |
| SegmentExporter.OutputFileNameOfFile | cmd/main.go:109-115 | For an input whose base name is a file name, the stem appears whole in the part's base name. |
| SegmentExporter.PartBesideInput | cmd/main.go:109-115 | Every part is written into the directory the input is in: the directory of each output path is the directory of the input. |
| SegmentExporter.OutputNamesDistinct | cmd/main.go:115 | Different segment indices give different output paths. |
| SegmentExporter.OutputIsMp3 | cmd/main.go:115 | Every part has the extension `.mp3`. |
| SegmentExporter.SplitAudio | cmd/main.go:108-124 | Call j copies segment j, from its first bound to its second, into part j. Every call but the last succeeded. The result is success exactly when every segment was exported; otherwise it names the failed segment, which is the last one attempted. |
| SegmentExporter.ExportInOrder | cmd/main.go:113-122 | The same loop, for any naming of the parts. |
| SegmentExporter.Succeeding | cmd/main.go:113-122 | Counts the planned calls that succeed before the first failing one: all of them succeed, and the one after them fails. |
| SegmentExporter.ExportExtent | cmd/main.go:113-123 | The export stops exactly at the first planned call that fails. It succeeds when no call fails, and otherwise reports that call's segment. |
| SegmentExporter.CallsWriteDistinctFiles | cmd/main.go:113-121 | No two calls of one export write the same file. |
| FileProcessor.ProcessFile | cmd/main.go:126-145 | A failed analyzer run ends the run with nothing parsed or exported. A log with no end or fewer than two starts ends it with no-silence and no export. Success happens exactly when the analyzer ran, segments exist and every export succeeded. A failed export reports its segment's index. |
| FileProcessor.CheckThenExport | cmd/main.go:133-141 | With no segments it reports no-silence and makes no call. Otherwise the segments are exported in order, and the result is success exactly when every export succeeded. |
| DirectoryScanner.WalkWith | cmd/main.go:150-158 | The walk function's loop for any selection rule: the jobs are the accepted visits before the first error, in order, and the walk ends with that error, or completes when there is none. |
| DirectoryScanner.ScanDirectory | cmd/main.go:150-162 | The jobs are the selected entries visited before the first walk error, in order. An error is reported exactly when the walk hit one, and it is that error. |
| DirectoryScanner.SelectedIff | cmd/main.go:150-158 | A path becomes a job exactly when some visit before the first error selected it. |
| DirectoryScanner.IsAudioFile | cmd/main.go:154 | The selection: an entry that is not a directory and whose extension, lowered, is `.mp3`. `AudioFileIff` states it. |
| DirectoryScanner.AudioFileIff | cmd/main.go:154 | An entry is selected exactly when it is not a directory and ends in `.mp3` in any letter case. |
| DirectoryScanner.SelectionExamples | cmd/main.go:154 | `a.MP3` and `a.Mp3` are selected. `a.mp3x` and a directory named `a.mp3` are not. |
| DirectoryScanner.PartsAreSelected | cmd/main.go:115 | Every part an export writes is itself an `.mp3` file that the selection accepts. A later scan of the same directory would split the parts again. |

## Left out

- Locating the encoder (`findFFmpeg`, `init`, cmd/main.go:19-48) is left out. It depends on the file system and `PATH`, so it is not part of this model.
- Running the analyzer (`detectSilence`, cmd/main.go:51-63) is left out. Its outcome is the `Probe` input: the captured log, or a failure.
- Running the encoder (cmd/main.go:116-118) is the `encoder` oracle. Each call carries the captured timestamp text. The float value ParseFloat produces and its `%f` rendering as an argument are not modelled, because they involve floating point.
- The results are structured (`Outcome`, `SplitResult`, `WalkEnd`). The formatted messages of cmd/main.go:59, 120, 130, 135 and 140 and the wrapped process errors are not built.
- Printing (cmd/main.go:24, 27, 127, 143, 161, 167, 205) and argument handling (cmd/main.go:174-177) are left out.
- The worker pool, channels, `WaitGroup` and `runtime.NumCPU` (cmd/main.go:165-208) are left out, because they are concurrency. This includes the result loop at cmd/main.go:202, which reads one result per root directory instead of one per file. Each file's processing is modelled on its own.
- The walk's traversal order and file metadata (`filepath.Walk`, `os.FileInfo`) are left out. The walk is the sequence of calls the walk function receives.
- Windows path rules (volume names, backslashes) are left out. The paths model is the Unix one.
- `Paths.LowerAscii` lowers ASCII letters only. `strings.ToLower` also lowers non-ASCII letters, but none of them lowers to `.`, `m`, `p` or `3`, so the comparison with `.mp3` comes out the same.
- Text is a sequence of characters, one per byte of the log. The patterns and `\d` are ASCII, so this matches Go's matching.
