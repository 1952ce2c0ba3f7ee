/** Block extraction (`extract_lines_from_file`): a two-state scan over the
    lines of a VLD dump, already read and stripped. The fixed header line
    opens a function block and is replaced by a start marker; a lone `|`
    closes an open block and is replaced by an end marker; while a block is
    open every other line is copied; outside a block lines are dropped. */
module Extraction {

  const Header: string := "|line|#*|||op|fetch|ext|return|operands"
  const Closer: string := "|"
  const StartMarker: string := "||||FunctionStart|||"
  const EndMarker: string := "||||FunctionEnd|||"

  /** What one line adds to the output and whether a block is open after it. */
  datatype Step = Step(emitted: seq<string>, recording: bool)

  function StepOn(line: string, recording: bool): Step {
    if line == Header then Step([StartMarker], true)
    else if line == Closer then Step(if recording then [EndMarker] else [], false)
    else Step(if recording then [line] else [], recording)
  }

  /** Whether a block is open after reading `lines`, starting in state `rec`. */
  function RecordingAfter(lines: seq<string>, rec: bool): bool {
    if lines == [] then rec
    else StepOn(lines[|lines| - 1], RecordingAfter(lines[..|lines| - 1], rec)).recording
  }

  /** The lines extracted from `lines`, starting in state `rec`. */
  function Extracted(lines: seq<string>, rec: bool): (out: seq<string>)
    ensures |out| <= |lines|
  {
    if lines == [] then []
    else
      var init := lines[..|lines| - 1];
      Extracted(init, rec) + StepOn(lines[|lines| - 1], RecordingAfter(init, rec)).emitted
  }

  /** `extract_lines_from_file` with the file given as its stripped lines. */
  method ExtractLines(lines: seq<string>) returns (extracted: seq<string>)
    ensures extracted == Extracted(lines, false)
  {
    extracted := [];
    var recording := false;
    for i := 0 to |lines|
      invariant extracted == Extracted(lines[..i], false)
      invariant recording == RecordingAfter(lines[..i], false)
    {
      assert lines[..i + 1][..i] == lines[..i];
      var line := lines[i];
      if line == Header {
        extracted := extracted + [StartMarker];
        recording := true;
        continue;
      }
      if line == Closer {
        if recording {
          extracted := extracted + [EndMarker];
          recording := false;
        }
        continue;
      }
      if recording {
        extracted := extracted + [line];
      }
    }
    assert lines[..|lines|] == lines;
  }

  /** Reading `a` then `b` is reading `a` and going on from the state it left. */
  lemma {:induction false} ExtractedAppend(a: seq<string>, b: seq<string>, rec: bool)
    ensures RecordingAfter(a + b, rec) == RecordingAfter(b, RecordingAfter(a, rec))
    ensures Extracted(a + b, rec) == Extracted(a, rec) + Extracted(b, RecordingAfter(a, rec))
    decreases |b|
  {
    if b == [] {
      assert a + b == a;
    } else {
      var b' := b[..|b| - 1];
      assert (a + b)[..|a + b| - 1] == a + b';
      assert (a + b)[|a + b| - 1] == b[|b| - 1];
      ExtractedAppend(a, b', rec);
    }
  }

  /** A block is open after `lines` exactly when some header has been read
      and no lone `|` since. */
  predicate OpenAfter(lines: seq<string>) {
    exists j :: 0 <= j < |lines| && lines[j] == Header &&
      forall k :: j < k < |lines| ==> lines[k] != Closer
  }

  lemma {:induction false} RecordingAfterIsOpen(lines: seq<string>)
    ensures RecordingAfter(lines, false) == OpenAfter(lines)
    decreases |lines|
  {
    if lines != [] {
      var n := |lines| - 1;
      var init := lines[..n];
      RecordingAfterIsOpen(init);
      if lines[n] == Header {
        assert OpenAfter(lines) by {
          assert lines[n] == Header;
        }
      } else if lines[n] == Closer {
        forall j | 0 <= j < |lines| && lines[j] == Header
          ensures exists k :: j < k < |lines| && lines[k] == Closer
        {
          assert j < n && lines[n] == Closer;
        }
      } else {
        if OpenAfter(init) {
          var j :| 0 <= j < |init| && init[j] == Header && forall k :: j < k < |init| ==> init[k] != Closer;
          assert lines[j] == Header;
        }
        if OpenAfter(lines) {
          var j :| 0 <= j < |lines| && lines[j] == Header && forall k :: j < k < |lines| ==> lines[k] != Closer;
          assert j < n;
          assert init[j] == Header && forall k :: j < k < |init| ==> init[k] != Closer;
        }
      }
    }
  }

  /** A line that is neither sentinel is copied exactly when a block is
      open before it, and it leaves the state as it found it. */
  lemma ContentLineStep(a: seq<string>, x: string)
    requires x != Header && x != Closer
    ensures Extracted(a + [x], false) == Extracted(a, false) + (if OpenAfter(a) then [x] else [])
    ensures RecordingAfter(a + [x], false) == OpenAfter(a)
  {
    RecordingAfterIsOpen(a);
    assert (a + [x])[..|a|] == a;
  }

  /** A line that is neither sentinel is copied exactly when a block is
      open before it, right after what the lines before it produce; so lines
      before any header, or after a `|` that closed the last block, are
      dropped. */
  lemma ContentLine(a: seq<string>, x: string, b: seq<string>)
    requires x != Header && x != Closer
    ensures Extracted(a + [x] + b, false) ==
              Extracted(a, false) + (if OpenAfter(a) then [x] else []) + Extracted(b, OpenAfter(a))
  {
    ContentLineStep(a, x);
    ExtractedAppend(a + [x], b, false);
  }

  /** Without a header nothing is extracted. */
  lemma {:induction false} NoHeaderNothing(lines: seq<string>)
    requires Header !in lines
    ensures Extracted(lines, false) == [] && !RecordingAfter(lines, false)
    decreases |lines|
  {
    if lines != [] {
      var init := lines[..|lines| - 1];
      assert lines[|lines| - 1] in lines;
      assert forall x :: x in init ==> x in lines;
      NoHeaderNothing(init);
    }
  }

  /** The header line and the lone `|` are never copied to the output. */
  lemma {:induction false} NoSentinelCopied(lines: seq<string>, rec: bool)
    ensures Header !in Extracted(lines, rec) && Closer !in Extracted(lines, rec)
    decreases |lines|
  {
    if lines != [] {
      NoSentinelCopied(lines[..|lines| - 1], rec);
    }
  }

  /** The open/closed state that the markers in `out` describe, read from
      the left starting closed, or `Unbalanced` when an end marker comes while
      no block is open. */
  function MarkerState(out: seq<string>): Nesting {
    if out == [] then Balanced(false)
    else
      var last := out[|out| - 1];
      match MarkerState(out[..|out| - 1])
      case Unbalanced => Unbalanced
      case Balanced(open) =>
        if last == EndMarker then (if open then Balanced(false) else Unbalanced)
        else Balanced(open || last == StartMarker)
  }

  /** Whether the markers read so far nest, and if so whether a block is open. */
  datatype Nesting = Unbalanced | Balanced(open: bool)

  /** As long as no dump line is itself the end-marker text, the markers in
      the output follow the recording state: an end marker is only ever
      emitted while a block is open. */
  lemma {:induction false} MarkersFollowRecording(lines: seq<string>)
    requires EndMarker !in lines
    ensures MarkerState(Extracted(lines, false)) == Balanced(RecordingAfter(lines, false))
    decreases |lines|
  {
    if lines != [] {
      var n := |lines| - 1;
      var init, x := lines[..n], lines[n];
      assert x in lines;
      assert forall y :: y in init ==> y in lines;
      MarkersFollowRecording(init);
      var before := Extracted(init, false);
      var rec := RecordingAfter(init, false);
      assert Extracted(lines, false) == before + StepOn(x, rec).emitted;
      MarkerStep(before, x, rec);
    }
  }

  /** One line keeps the marker state in step with the recording state. */
  lemma MarkerStep(before: seq<string>, x: string, rec: bool)
    requires x != EndMarker && MarkerState(before) == Balanced(rec)
    ensures MarkerState(before + StepOn(x, rec).emitted) == Balanced(StepOn(x, rec).recording)
  {
    if x == Header {
      MarkerStateSnoc(before, StartMarker);
    } else if x == Closer && rec {
      MarkerStateSnoc(before, EndMarker);
    } else if x != Closer && rec {
      MarkerStateSnoc(before, x);
    } else {
      assert before + [] == before;
    }
  }

  /** What one more output line does to the marker state. */
  lemma MarkerStateSnoc(out: seq<string>, x: string)
    ensures MarkerState(out + [x]) ==
              match MarkerState(out)
              case Unbalanced => Unbalanced
              case Balanced(open) =>
                if x == EndMarker then (if open then Balanced(false) else Unbalanced)
                else Balanced(open || x == StartMarker)
  {
    assert (out + [x])[..|out|] == out;
  }

  predicate StartBefore(out: seq<string>, j: int) {
    exists k :: 0 <= k < j && k < |out| && out[k] == StartMarker
  }

  predicate StartBetween(out: seq<string>, i: int, j: int) {
    exists k :: i < k < j && 0 <= k < |out| && out[k] == StartMarker
  }

  /** Some start marker of `out` has no end marker after it. */
  predicate OpenWitness(out: seq<string>) {
    exists k :: 0 <= k < |out| && out[k] == StartMarker && NoEndAfter(out, k)
  }

  predicate NoEndAfter(out: seq<string>, k: int) {
    forall m :: k < m < |out| && 0 <= m ==> out[m] != EndMarker
  }

  predicate EndsPreceded(out: seq<string>) {
    forall j :: 0 <= j < |out| && out[j] == EndMarker ==> StartBefore(out, j)
  }

  predicate EndsSeparated(out: seq<string>) {
    forall i, j :: 0 <= i < j < |out| && out[i] == EndMarker && out[j] == EndMarker ==>
      StartBetween(out, i, j)
  }

  /** Appending an element keeps what the earlier end markers had before
      and between them. */
  lemma EndsCarryOver(out: seq<string>)
    requires |out| > 0
    requires EndsPreceded(out[..|out| - 1]) && EndsSeparated(out[..|out| - 1])
    ensures forall j :: 0 <= j < |out| - 1 && out[j] == EndMarker ==> StartBefore(out, j)
    ensures forall i, j :: 0 <= i < j < |out| - 1 && out[i] == EndMarker && out[j] == EndMarker ==>
              StartBetween(out, i, j)
  {
    var n := |out| - 1;
    var init := out[..n];
    forall j | 0 <= j < n && out[j] == EndMarker ensures StartBefore(out, j) {
      assert init[j] == EndMarker;
      var k :| 0 <= k < j && init[k] == StartMarker;
      assert out[k] == StartMarker;
    }
    forall i, j | 0 <= i < j < n && out[i] == EndMarker && out[j] == EndMarker
      ensures StartBetween(out, i, j)
    {
      assert init[i] == EndMarker && init[j] == EndMarker;
      var k :| i < k < j && init[k] == StartMarker;
      assert out[k] == StartMarker;
    }
  }

  /** Where the markers are consistent, every end marker has a start marker
      before it, and between two end markers there is a start marker. */
  lemma {:induction false} MarkerStateSeparatesEnds(out: seq<string>)
    requires MarkerState(out).Balanced?
    ensures EndsPreceded(out) && EndsSeparated(out)
    ensures MarkerState(out).open ==> OpenWitness(out)
    decreases |out|
  {
    if out != [] {
      var n := |out| - 1;
      var init := out[..n];
      MarkerStateSeparatesEnds(init);
      var open := MarkerState(init).open;
      EndsCarryOver(out);
      if out[n] == EndMarker {
        var k :| 0 <= k < n && init[k] == StartMarker && NoEndAfter(init, k);
        assert out[k] == StartMarker;
        forall i | 0 <= i < n && out[i] == EndMarker ensures StartBetween(out, i, n) {
          assert init[i] == EndMarker;
          assert !(k < i);
        }
      } else if out[n] == StartMarker {
        assert NoEndAfter(out, n);
      } else if open {
        var k :| 0 <= k < n && init[k] == StartMarker && NoEndAfter(init, k);
        assert out[k] == StartMarker;
        assert NoEndAfter(out, k);
      }
    }
  }

  /** For a dump whose lines never spell the end marker, two end markers in
      the extracted lines always have a start marker between them, and the
      first marker is never an end marker. */
  lemma EndMarkersSeparated(lines: seq<string>)
    requires EndMarker !in lines
    ensures var out := Extracted(lines, false);
      (forall j :: 0 <= j < |out| && out[j] == EndMarker ==>
         exists k :: 0 <= k < j && out[k] == StartMarker) &&
      (forall i, j :: 0 <= i < j < |out| && out[i] == EndMarker && out[j] == EndMarker ==>
         exists k :: i < k < j && out[k] == StartMarker)
  {
    MarkersFollowRecording(lines);
    MarkerStateSeparatesEnds(Extracted(lines, false));
  }
}
