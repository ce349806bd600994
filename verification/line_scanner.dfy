/**
 Line splitting of the analyzer's diagnostic text, as `bufio.Scanner` with its
 default `ScanLines` split function performs it over a string reader.

 A token is the text up to the next newline, with one trailing carriage return
 removed; a final line without a newline is still a token, an empty remainder
 is not. The scanner's buffer never grows past `MaxTokenSize` bytes: a line
 whose text before its newline (or before the end of input) fills that buffer
 makes `Scan` report false, which the caller takes as the end of input, so the
 lines from there on are never seen.
 */
module LineScanner {

  /** bufio.MaxScanTokenSize, 64 * 1024 bytes. */
  const MaxTokenSize: nat := 65536

  /** Position of the first newline in `s`, or `|s|` when there is none. */
  function NewlineIndex(s: string): (k: nat)
    ensures k <= |s|
    ensures forall j :: 0 <= j < k ==> s[j] != '\n'
    ensures k < |s| ==> s[k] == '\n'
  {
    if |s| == 0 || s[0] == '\n' then 0 else 1 + NewlineIndex(s[1..])
  }

  /** ScanLines' dropCR: one trailing carriage return is not part of the line. */
  function DropCR(s: string): string {
    if 0 < |s| && s[|s| - 1] == '\r' then s[..|s| - 1] else s
  }

  /** The lines `Scan`/`Text` deliver for `text`, in order. */
  function Lines(text: string): (ls: seq<string>)
    ensures forall i :: 0 <= i < |ls| ==> |ls[i]| < MaxTokenSize && '\n' !in ls[i]
    decreases |text|
  {
    if |text| == 0 then []
    else
      var k := NewlineIndex(text);
      if k >= MaxTokenSize then []
      else if k == |text| then [DropCR(text)]
      else [DropCR(text[..k])] + Lines(text[k + 1..])
  }

  /** Each line without one trailing carriage return. */
  function DropCRs(ls: seq<string>): seq<string> {
    seq(|ls|, i requires 0 <= i < |ls| => DropCR(ls[i]))
  }

  /** Plain lines carry no carriage return to drop. */
  lemma DropCRsPlain(ls: seq<string>)
    requires forall i :: 0 <= i < |ls| ==> PlainLine(ls[i])
    ensures DropCRs(ls) == ls
  {
    forall i | 0 <= i < |ls| ensures DropCRs(ls)[i] == ls[i] {
      assert PlainLine(ls[i]);
    }
  }

  /** A line as a well-behaved writer emits it: short, one physical line, no carriage return at its end. */
  predicate PlainLine(l: string) {
    && |l| < MaxTokenSize
    && '\n' !in l
    && (|l| == 0 || l[|l| - 1] != '\r')
  }

  /** Every line followed by a newline: the shape of a tool's log output. */
  function Terminated(ls: seq<string>): string {
    if |ls| == 0 then [] else ls[0] + "\n" + Terminated(ls[1..])
  }

  /**
   Scanning newline-terminated short lines gives back those lines in order,
   each without one trailing carriage return (so CRLF text reads like LF
   text); plain lines come back exactly.
   */
  lemma {:induction false} LinesOfTerminated(ls: seq<string>)
    requires forall i :: 0 <= i < |ls| ==> |ls[i]| < MaxTokenSize && '\n' !in ls[i]
    ensures |Lines(Terminated(ls))| == |ls|
    ensures forall i :: 0 <= i < |ls| ==> Lines(Terminated(ls))[i] == DropCR(ls[i])
    ensures (forall i :: 0 <= i < |ls| ==> PlainLine(ls[i])) ==> Lines(Terminated(ls)) == ls
  {
    if |ls| > 0 {
      var text := Terminated(ls);
      assert text == ls[0] + "\n" + Terminated(ls[1..]);
      NewlineAfter(ls[0], Terminated(ls[1..]));
      assert text[..|ls[0]|] == ls[0];
      assert text[|ls[0]| + 1..] == Terminated(ls[1..]);
      LinesOfTerminated(ls[1..]);
      assert Lines(text) == [DropCR(ls[0])] + Lines(Terminated(ls[1..]));
      forall i | 0 <= i < |ls| ensures Lines(text)[i] == DropCR(ls[i]) {
        if 0 < i {
          assert Lines(text)[i] == Lines(Terminated(ls[1..]))[i - 1];
        }
      }
      if forall i :: 0 <= i < |ls| ==> PlainLine(ls[i]) {
        forall i | 0 <= i < |ls| ensures Lines(text)[i] == ls[i] {
          assert PlainLine(ls[i]);
        }
      }
    }
  }

  /** Plain lines come back exactly. */
  lemma LinesOfPlain(ls: seq<string>)
    requires forall i :: 0 <= i < |ls| ==> PlainLine(ls[i])
    ensures Lines(Terminated(ls)) == ls
  {
    LinesOfTerminated(ls);
  }

  lemma NewlineAfter(l: string, rest: string)
    requires '\n' !in l
    ensures NewlineIndex(l + "\n" + rest) == |l|
  {
    if |l| > 0 {
      assert (l + "\n" + rest)[1..] == l[1..] + "\n" + rest;
      NewlineAfter(l[1..], rest);
    }
  }

  /**
   A last line without a newline is still delivered, after the terminated
   lines before it; each loses one trailing carriage return.
   */
  lemma {:induction false} LastLineKept(ls: seq<string>, last: string)
    requires forall i :: 0 <= i < |ls| ==> |ls[i]| < MaxTokenSize && '\n' !in ls[i]
    requires 0 < |last| < MaxTokenSize && '\n' !in last
    ensures Lines(Terminated(ls) + last) == DropCRs(ls) + [DropCR(last)]
  {
    if |ls| == 0 {
      assert Terminated(ls) + last == last;
      LastLineAlone(last);
    } else {
      var tail := Terminated(ls[1..]) + last;
      TerminatedCons(ls, last);
      FirstLine(ls[0], tail);
      LastLineKept(ls[1..], last);
      DropCRsCons(ls);
    }
  }

  /**
   A line of `MaxTokenSize` bytes or more ends the scan: nothing from it or
   after it is delivered, whatever the rest of the text holds. The lines
   before it are delivered, each without one trailing carriage return, and
   plain lines exactly.
   */
  lemma {:induction false} OverlongLineEndsScan(ls: seq<string>, long: string, rest: string)
    requires forall i :: 0 <= i < |ls| ==> |ls[i]| < MaxTokenSize && '\n' !in ls[i]
    requires MaxTokenSize <= |long| && '\n' !in long
    ensures Lines(Terminated(ls) + long + rest) == DropCRs(ls)
    ensures (forall i :: 0 <= i < |ls| ==> PlainLine(ls[i])) ==> Lines(Terminated(ls) + long + rest) == ls
  {
    OverlongCut(ls, long, rest);
    if forall i :: 0 <= i < |ls| ==> PlainLine(ls[i]) {
      DropCRsPlain(ls);
    }
  }

  lemma {:induction false} OverlongCut(ls: seq<string>, long: string, rest: string)
    requires forall i :: 0 <= i < |ls| ==> |ls[i]| < MaxTokenSize && '\n' !in ls[i]
    requires MaxTokenSize <= |long| && '\n' !in long
    ensures Lines(Terminated(ls) + long + rest) == DropCRs(ls)
  {
    if |ls| == 0 {
      assert Terminated(ls) + long + rest == long + rest;
      NoNewlineFirst(long, rest);
    } else {
      var tail := Terminated(ls[1..]) + (long + rest);
      TerminatedCons(ls, long + rest);
      assert Terminated(ls) + long + rest == Terminated(ls) + (long + rest);
      assert Terminated(ls[1..]) + long + rest == tail;
      FirstLine(ls[0], tail);
      OverlongCut(ls[1..], long, rest);
      DropCRsCons(ls);
    }
  }

  lemma TerminatedCons(ls: seq<string>, x: string)
    requires 0 < |ls|
    ensures Terminated(ls) + x == ls[0] + "\n" + (Terminated(ls[1..]) + x)
  {
  }

  lemma DropCRsCons(ls: seq<string>)
    requires 0 < |ls|
    ensures DropCRs(ls) == [DropCR(ls[0])] + DropCRs(ls[1..])
  {
  }

  /** A short first line followed by a newline is delivered first, then the lines of the rest. */
  lemma FirstLine(l: string, tail: string)
    requires |l| < MaxTokenSize && '\n' !in l
    ensures Lines(l + "\n" + tail) == [DropCR(l)] + Lines(tail)
  {
    var text := l + "\n" + tail;
    NewlineAfter(l, tail);
    assert text[..|l|] == l;
    assert text[|l| + 1..] == tail;
  }

  /** A short, non-empty text without a newline is one line. */
  lemma LastLineAlone(last: string)
    requires 0 < |last| < MaxTokenSize && '\n' !in last
    ensures Lines(last) == [DropCR(last)]
  {
    NoNewlineFirst(last, []);
    assert last + [] == last;
  }

  lemma NoNewlineFirst(a: string, b: string)
    requires '\n' !in a
    ensures |a| <= NewlineIndex(a + b)
  {
    if |a| > 0 {
      assert (a + b)[1..] == a[1..] + b;
      NoNewlineFirst(a[1..], b);
    }
  }
}
