/** What the event reader guarantees: a writer's payloads come back unchanged, keepalives
    change nothing, the sentinel ends everything, and silence is bounded. */
module SseTheorems {
  import opened Sse

  // ----- keepalives --------------------------------------------------------------

  /** A line that is neither data nor blank: a comment, or a field this reader has no use for. */
  predicate IsNoise(line: string) {
    !IsData(Text(line)) && Text(line) != ""
  }

  function WithoutNoise(lines: seq<string>): seq<string> {
    if lines == [] then []
    else
      var before, last := WithoutNoise(lines[..|lines| - 1]), lines[|lines| - 1];
      if IsNoise(last) then before else before + [last]
  }

  /** Every comment is noise. */
  lemma {:induction false} CommentIsNoise(raw: string)
    requires IsComment(raw)
    ensures IsNoise(raw)
  {
    CommentText(raw);
    KindsExclude(Text(raw));
  }

  lemma {:induction false} CommentText(raw: string)
    ensures IsComment(Text(raw)) <==> IsComment(raw)
  {
    if raw != "" && IsTerminator(raw[|raw| - 1]) {
      CommentText(raw[..|raw| - 1]);
    }
  }

  /** Noise anywhere, inside an event too, leaves every event as it was. */
  lemma {:induction false} NoiseIsInvisible(lines: seq<string>)
    ensures Dispatched(WithoutNoise(lines)) == Dispatched(lines)
    ensures Pending(WithoutNoise(lines)) == Pending(lines)
  {
    hide Text;
    hide IsData;
    hide Join;
    hide Field;
    if lines != [] {
      var n := |lines| - 1;
      NoiseIsInvisible(lines[..n]);
      if !IsNoise(lines[n]) {
        assert WithoutNoise(lines)[..|WithoutNoise(lines)| - 1] == WithoutNoise(lines[..n]);
      }
    }
  }

  // ----- the writer --------------------------------------------------------------

  function SplitLines(payload: string): (lines: seq<string>)
    ensures lines != []
  {
    if payload == "" then [""]
    else
      var rest := SplitLines(payload[1..]);
      if payload[0] == '\n' then [""] + rest else [[payload[0]] + rest[0]] + rest[1..]
  }

  lemma {:induction false} JoinSplit(payload: string)
    ensures Join(SplitLines(payload)) == payload
  {
    if payload != "" {
      var rest := SplitLines(payload[1..]);
      JoinSplit(payload[1..]);
      if payload[0] == '\n' {
        assert SplitLines(payload)[1..] == rest;
        assert Join(SplitLines(payload)) == "" + "\n" + Join(rest);
      } else if |rest| > 1 {
        assert SplitLines(payload)[1..] == rest[1..];
      }
    }
  }

  /** One line: no carriage return or newline in it. */
  predicate SingleLine(line: string) {
    forall c :: c in line ==> !IsTerminator(c)
  }

  /** A line the format can carry: it does not start with a space either. */
  predicate Writable(line: string) {
    SingleLine(line) && (line == "" || !IsSpace(line[0]))
  }

  ghost predicate WritablePayload(payload: string) {
    payload != DONE && forall i :: 0 <= i < |SplitLines(payload)| ==> Writable(SplitLines(payload)[i])
  }

  /** What separates the colon from the value, and what ends a line. */
  datatype Style = Style(pad: string, eol: string) {
    predicate Valid() {
      && (forall c :: c in pad ==> IsSpace(c) && !IsTerminator(c))
      && (forall c :: c in eol ==> IsTerminator(c))
    }
  }

  function DataLine(line: string, style: Style): string {
    DATA + style.pad + line + style.eol
  }

  function DataLines(lines: seq<string>, style: Style): (written: seq<string>)
    ensures |written| == |lines|
  {
    if lines == [] then []
    else DataLines(lines[..|lines| - 1], style) + [DataLine(lines[|lines| - 1], style)]
  }

  function Written(payload: string, style: Style): seq<string> {
    DataLines(SplitLines(payload), style) + [style.eol]
  }

  function WrittenAll(payloads: seq<string>, style: Style): seq<string> {
    if payloads == [] then []
    else WrittenAll(payloads[..|payloads| - 1], style) + Written(payloads[|payloads| - 1], style)
  }

  // ----- one line back -------------------------------------------------------------

  lemma {:induction false} TextDropsTerminators(line: string, eol: string)
    requires forall c :: c in eol ==> IsTerminator(c)
    requires line == "" || !IsTerminator(line[|line| - 1])
    ensures Text(line + eol) == line
  {
    if eol == "" {
      assert line + eol == line;
    } else {
      var n := |eol| - 1;
      assert (line + eol)[..|line + eol| - 1] == line + eol[..n];
      TextDropsTerminators(line, eol[..n]);
    }
  }

  lemma {:induction false} StripDropsPad(pad: string, line: string)
    requires forall c :: c in pad ==> IsSpace(c)
    ensures StripStart(pad + line) == StripStart(line)
  {
    if pad == "" {
      assert pad + line == line;
    } else {
      assert (pad + line)[1..] == pad[1..] + line;
      StripDropsPad(pad[1..], line);
    }
  }

  /** What a written line reads as: itself without its leading spaces. */
  lemma DataLineBack(line: string, style: Style)
    requires SingleLine(line) && style.Valid()
    ensures var text := Text(DataLine(line, style)); IsData(text) && Field(text) == StripStart(line)
  {
    hide Text;
    hide StripStart;
    var text := DATA + style.pad + line;
    assert !IsTerminator(text[|text| - 1]) by {
      if line != "" {
        assert text[|text| - 1] == line[|line| - 1] && line[|line| - 1] in line;
      } else if style.pad != "" {
        assert text[|text| - 1] == style.pad[|style.pad| - 1] && style.pad[|style.pad| - 1] in style.pad;
      } else {
        assert text == DATA && DATA[4] == ':';
      }
    }
    TextDropsTerminators(text, style.eol);
    assert text[|DATA|..] == style.pad + line;
    StripDropsPad(style.pad, line);
  }

  function Stripped(lines: seq<string>): seq<string> {
    seq(|lines|, i requires 0 <= i < |lines| => StripStart(lines[i]))
  }

  // ----- events back ---------------------------------------------------------------

  /** Once no event is open, what follows reads as if it stood alone. */
  lemma {:induction false} ReadsOn(before: seq<string>, after: seq<string>)
    requires Pending(before) == []
    ensures Pending(before + after) == Pending(after)
    ensures Dispatched(before + after) == Dispatched(before) + Dispatched(after)
  {
    hide Text;
    hide Join;
    hide IsData;
    hide Field;
    hide Pending;
    hide Dispatched;
    NothingYet();
    if after == [] {
      assert before + after == before;
    } else {
      var some, line := after[..|after| - 1], after[|after| - 1];
      ReadsOn(before, some);
      OneMoreLine(before + some, line);
      OneMoreLine(some, line);
      assert after == some + [line];
      assert before + after == before + some + [line];
    }
  }

  lemma {:induction false} DataLinesRead(lines: seq<string>, style: Style)
    requires style.Valid() && forall i :: 0 <= i < |lines| ==> SingleLine(lines[i])
    ensures Pending(DataLines(lines, style)) == Stripped(lines)
    ensures Dispatched(DataLines(lines, style)) == []
  {
    hide Pending;
    hide Dispatched;
    hide SingleLine;
    hide Stripped;
    hide Text;
    hide IsData;
    hide Field;
    hide StripStart;
    hide DataLine;
    if lines == [] {
      NothingYet();
      StrippedSnoc(lines);
    } else {
      var n := |lines| - 1;
      DataLinesRead(lines[..n], style);
      DataLineBack(lines[n], style);
      StrippedSnoc(lines);
      KindsExclude(Text(DataLine(lines[n], style)));
      OneMoreLine(DataLines(lines[..n], style), DataLine(lines[n], style));
    }
  }

  lemma StrippedSnoc(lines: seq<string>)
    ensures Stripped([]) == []
    ensures lines != [] ==> Stripped(lines) == Stripped(lines[..|lines| - 1]) + [StripStart(lines[|lines| - 1])]
  {
    hide StripStart;
  }

  lemma DataLinesBack(lines: seq<string>, style: Style)
    requires style.Valid() && forall i :: 0 <= i < |lines| ==> Writable(lines[i])
    ensures Pending(DataLines(lines, style)) == lines
    ensures Dispatched(DataLines(lines, style)) == []
  {
    hide Pending;
    hide Dispatched;
    DataLinesRead(lines, style);
    assert Stripped(lines) == lines;
  }

  /** Any payload without a carriage return is read back with its lines left-stripped. */
  lemma WrittenRead(payload: string, style: Style)
    requires style.Valid() && forall i :: 0 <= i < |SplitLines(payload)| ==> SingleLine(SplitLines(payload)[i])
    ensures Pending(Written(payload, style)) == []
    ensures Dispatched(Written(payload, style)) == [Join(Stripped(SplitLines(payload)))]
  {
    hide Pending;
    hide Dispatched;
    hide Text;
    hide Join;
    var lines := DataLines(SplitLines(payload), style);
    DataLinesRead(SplitLines(payload), style);
    TextDropsTerminators("", style.eol);
    assert "" + style.eol == style.eol;
    OneMoreLine(lines, style.eol);
  }

  lemma WrittenBack(payload: string, style: Style)
    requires style.Valid() && WritablePayload(payload)
    ensures Pending(Written(payload, style)) == []
    ensures Dispatched(Written(payload, style)) == [payload]
  {
    WrittenRead(payload, style);
    JoinSplit(payload);
    assert Stripped(SplitLines(payload)) == SplitLines(payload);
  }

  lemma {:induction false} StripShortens(line: string)
    ensures |StripStart(line)| <= |line|
    ensures |StripStart(line)| == |line| <==> line == "" || !IsSpace(line[0])
  {
    if line != "" && IsSpace(line[0]) {
      StripShortens(line[1..]);
    }
  }

  lemma {:induction false} ShorterJoin(a: seq<string>, b: seq<string>)
    requires |a| == |b| > 0 && forall i :: 0 <= i < |a| ==> |a[i]| <= |b[i]|
    ensures |Join(a)| <= |Join(b)|
    ensures |Join(a)| == |Join(b)| ==> forall i :: 0 <= i < |a| ==> |a[i]| == |b[i]|
  {
    if |a| > 1 {
      ShorterJoin(a[1..], b[1..]);
      if |Join(a)| == |Join(b)| {
        forall i | 0 <= i < |a| ensures |a[i]| == |b[i]| {
          assert i > 0 ==> |a[1..][i - 1]| == |b[1..][i - 1]|;
        }
      }
    }
  }

  /** A payload without a carriage return survives exactly when none of its lines starts with
      a space: this reader strips all leading whitespace where the format strips one space. */
  lemma SurvivesIff(payload: string, style: Style)
    requires style.Valid() && forall i :: 0 <= i < |SplitLines(payload)| ==> SingleLine(SplitLines(payload)[i])
    ensures Dispatched(Written(payload, style)) == [payload] <==>
      forall i :: 0 <= i < |SplitLines(payload)| ==> Writable(SplitLines(payload)[i])
  {
    hide Dispatched;
    hide Join;
    var lines := SplitLines(payload);
    WrittenRead(payload, style);
    JoinSplit(payload);
    forall i | 0 <= i < |lines| ensures |Stripped(lines)[i]| <= |lines[i]| {
      StripShortens(lines[i]);
    }
    ShorterJoin(Stripped(lines), lines);
    assert (forall i :: 0 <= i < |lines| ==> Writable(lines[i])) ==> Stripped(lines) == lines;
    if Join(Stripped(lines)) == payload {
      forall i | 0 <= i < |lines| ensures Writable(lines[i]) {
        assert |Stripped(lines)[i]| == |lines[i]|;
        StripShortens(lines[i]);
      }
    }
  }

  lemma {:induction false} WrittenAllBack(payloads: seq<string>, style: Style)
    requires style.Valid() && forall i :: 0 <= i < |payloads| ==> WritablePayload(payloads[i])
    ensures Pending(WrittenAll(payloads, style)) == []
    ensures Dispatched(WrittenAll(payloads, style)) == payloads
  {
    hide Pending;
    hide Dispatched;
    hide Written;
    NothingYet();
    if payloads != [] {
      var n := |payloads| - 1;
      WrittenAllBack(payloads[..n], style);
      WrittenBack(payloads[n], style);
      ReadsOn(WrittenAll(payloads[..n], style), Written(payloads[n], style));
      assert payloads == payloads[..n] + [payloads[n]];
    }
  }

  // ----- the theorems ----------------------------------------------------------------

  /** Round trip: payloads written with comments, or fields that are not data, put anywhere are
      read back exactly. */
  lemma RoundTrip(payloads: seq<string>, style: Style, s: Stream, start: Time, idle: Time)
    requires style.Valid() && forall i :: 0 <= i < |payloads| ==> WritablePayload(payloads[i])
    requires s.Valid() && Heard(s, start, idle) == |s.ticks|
    requires WithoutNoise(s.lines) == WrittenAll(payloads, style)
    ensures Reading(s, start, idle) == (payloads, Finished)
  {
    NoiseIsInvisible(s.lines);
    WrittenAllBack(payloads, style);
    assert payloads + [] == payloads;
  }

  /** A stream cut off before its last blank line still yields the last payload. */
  lemma RoundTripUnclosed(payloads: seq<string>, last: string, style: Style, s: Stream, start: Time, idle: Time)
    requires style.Valid() && forall i :: 0 <= i < |payloads| ==> WritablePayload(payloads[i])
    requires WritablePayload(last) && s.Valid() && Heard(s, start, idle) == |s.ticks|
    requires WithoutNoise(s.lines) == WrittenAll(payloads, style) + DataLines(SplitLines(last), style)
    ensures Reading(s, start, idle) == (payloads + [last], Finished)
  {
    hide Pending;
    hide Dispatched;
    hide WrittenAll;
    hide DataLines;
    hide SplitLines;
    hide Join;
    hide Heard;
    NoiseIsInvisible(s.lines);
    WrittenAllBack(payloads, style);
    DataLinesBack(SplitLines(last), style);
    ReadsOn(WrittenAll(payloads, style), DataLines(SplitLines(last), style));
    JoinSplit(last);
    assert payloads + [] == payloads;
  }

  /** With the sentinel after them, whatever follows and however late it comes. */
  lemma RoundTripThenDone(
    payloads: seq<string>, style: Style, s: Stream, n: nat, start: Time, idle: Time
  )
    requires style.Valid() && forall i :: 0 <= i < |payloads| ==> WritablePayload(payloads[i])
    requires s.Valid() && n <= |s.lines| && n <= Heard(s, start, idle)
    requires WithoutNoise(s.lines[..n]) == WrittenAll(payloads, style) + [DataLine(DONE, style), style.eol]
    ensures Reading(s, start, idle) == (payloads, Finished)
  {
    var closing := [DataLine(DONE, style), style.eol];
    NoiseIsInvisible(s.lines[..n]);
    WrittenAllBack(payloads, style);
    DoneBack(style);
    ReadsOn(WrittenAll(payloads, style), closing);
    forall i | 0 <= i < |payloads| ensures payloads[i] != DONE {
      assert WritablePayload(payloads[i]);
    }
    SentinelStops(s, start, idle, n, payloads);
  }

  lemma DoneBack(style: Style)
    requires style.Valid()
    ensures Dispatched([DataLine(DONE, style), style.eol]) == [DONE]
  {
    assert Writable(DONE);
    DataLineBack(DONE, style);
    TextDropsTerminators("", style.eol);
    assert "" + style.eol == style.eol;
    OneEvent(DataLine(DONE, style), style.eol);
  }

  lemma OneEvent(line: string, blank: string)
    requires IsData(Text(line)) && Text(blank) == ""
    ensures Dispatched([line, blank]) == [Field(Text(line))]
  {
    hide Text;
    hide Pending;
    hide Dispatched;
    hide IsData;
    hide Field;
    NothingYet();
    KindsExclude(Text(line));
    OneMoreLine([], line);
    OneMoreLine([line], blank);
    assert [] + [line] == [line] && [line] + [blank] == [line, blank];
  }

  /** The sentinel is never yielded, and once it has been read nothing later counts: two
      streams that agree up to there read the same. */
  lemma NothingAfterDone(s: Stream, t: Stream, n: nat, start: Time, idle: Time)
    requires s.Valid() && t.Valid() && n <= |s.lines| && n <= |t.lines|
    requires s.lines[..n] == t.lines[..n] && n <= Heard(s, start, idle) && n <= Heard(t, start, idle)
    requires DONE in Dispatched(s.lines[..n])
    ensures Reading(s, start, idle) == Reading(t, start, idle)
    ensures DONE !in Reading(s, start, idle).0
  {
    hide Dispatched;
    hide Heard;
    hide Reading;
    var m := FirstDone(s.lines[..n]);
    assert s.lines[..n][..m] == s.lines[..m] == t.lines[..m];
    var yielded := Dispatched(s.lines[..m])[..|Dispatched(s.lines[..m])| - 1];
    SentinelStops(s, start, idle, m, yielded);
    SentinelStops(t, start, idle, m, yielded);
  }

  /** The line that closes the sentinel's event. */
  lemma {:induction false} FirstDone(lines: seq<string>) returns (m: nat)
    requires DONE in Dispatched(lines)
    ensures m <= |lines|
    ensures var events := Dispatched(lines[..m]); events != [] && events[|events| - 1] == DONE && DONE !in events[..|events| - 1]
  {
    var n := |lines| - 1;
    if DONE in Dispatched(lines[..n]) {
      m := FirstDone(lines[..n]);
      assert lines[..n][..m] == lines[..m];
    } else {
      m := |lines|;
      assert lines[..m] == lines;
    }
  }

  // ----- silence -----------------------------------------------------------------------

  /** No data line among lines i + 1 .. j - 1: the deadline at j is still line i's. */
  lemma {:induction false} DeadlineStays(s: Stream, start: Time, idle: Time, i: nat, j: nat)
    requires s.Valid() && i < j <= |s.lines| && IsData(Text(s.lines[i]))
    requires forall k :: i < k < j ==> !IsData(Text(s.lines[k]))
    ensures Deadline(s, start, idle, j) == s.ticks[i].at + idle
  {
    if i + 1 < j {
      DeadlineStays(s, start, idle, i, j - 1);
    }
  }

  /** While nothing is late, each thing that arrives — the next data line, a keepalive or the
      end — does so within the idle time of the last data line, whatever came in between; and
      the first arrival outside it stalls the reading unless the sentinel came before. */
  lemma SilenceIsBounded(s: Stream, start: Time, idle: Time, i: nat, j: nat)
    requires s.Valid() && i < j <= |s.lines| && IsData(Text(s.lines[i]))
    requires forall k :: i < k < j ==> !IsData(Text(s.lines[k]))
    ensures j < Heard(s, start, idle) ==> s.ticks[j].at - s.ticks[i].at <= idle
    ensures s.ticks[j].at - s.ticks[i].at > idle && DONE !in Dispatched(s.lines[..j]) ==>
      Reading(s, start, idle).1 == Stalled
  {
    hide Deadline;
    hide Heard;
    hide Dispatched;
    hide Text;
    hide IsData;
    DeadlineStays(s, start, idle, i, j);
    var heard := Heard(s, start, idle);
    assert Late(s, start, idle, j) ==> heard <= j;
    if s.ticks[j].at - s.ticks[i].at > idle && DONE !in Dispatched(s.lines[..j]) {
      assert heard <= j;
      assert s.lines[..j][..heard] == s.lines[..heard];
      DispatchedGrows(s.lines[..j], heard);
      assert DONE !in Dispatched(s.lines[..heard]);
    }
  }

  /** The instant silence is measured from at tick j: when the last data line before it came,
      or the start if there was none. */
  ghost predicate QuietSince(s: Stream, start: Time, j: nat, since: Time)
    requires s.Valid() && j <= |s.lines|
  {
    || (since == start && forall k :: 0 <= k < j ==> !IsData(Text(s.lines[k])))
    || (exists i :: 0 <= i < j && LastData(s, i, j) && since == s.ticks[i].at)
  }

  ghost predicate LastData(s: Stream, i: int, j: nat)
    requires 0 <= i < j <= |s.lines|
  {
    IsData(Text(s.lines[i])) && forall k :: i < k < j ==> !IsData(Text(s.lines[k]))
  }

  lemma {:induction false} DeadlineIsSince(s: Stream, start: Time, idle: Time, j: nat)
    requires s.Valid() && j <= |s.lines|
    ensures QuietSince(s, start, j, Deadline(s, start, idle, j) - idle)
  {
    hide Text;
    hide IsData;
    if j > 0 {
      if IsData(Text(s.lines[j - 1])) {
        assert LastData(s, j - 1, j);
      } else {
        DeadlineIsSince(s, start, idle, j - 1);
        var since := Deadline(s, start, idle, j - 1) - idle;
        if i :| 0 <= i < j - 1 && LastData(s, i, j - 1) && since == s.ticks[i].at {
          assert LastData(s, i, j);
        }
      }
    }
  }

  lemma {:induction false} SinceIsDeadline(s: Stream, start: Time, idle: Time, j: nat, since: Time)
    requires s.Valid() && j <= |s.lines| && QuietSince(s, start, j, since)
    ensures Deadline(s, start, idle, j) == since + idle
  {
    hide Text;
    hide IsData;
    if i :| 0 <= i < j && LastData(s, i, j) && since == s.ticks[i].at {
      DeadlineStays(s, start, idle, i, j);
    } else if j > 0 {
      SinceIsDeadline(s, start, idle, j - 1, since);
    }
  }

  /** The reading stalls exactly when something - a line, a keepalive or the end - is asked for
      or comes too late after the last data line or the start, and the sentinel has not been
      read by then. Keepalives and blank lines buy no time. */
  lemma StallsIff(s: Stream, start: Time, idle: Time)
    requires s.Valid()
    ensures Reading(s, start, idle).1 == Stalled <==>
      exists j: nat, since :: (
        && j <= |s.lines| && QuietSince(s, start, j, since) && DONE !in Dispatched(s.lines[..j])
        && (s.ticks[j].asked >= since + idle || s.ticks[j].at > since + idle))
  {
    hide Deadline;
    hide Heard;
    hide Dispatched;
    hide QuietSince;
    var heard := Heard(s, start, idle);
    if Reading(s, start, idle).1 == Stalled {
      DeadlineIsSince(s, start, idle, heard);
    }
    forall j: nat, since | j <= |s.lines| && QuietSince(s, start, j, since) && DONE !in Dispatched(s.lines[..j])
        && (s.ticks[j].asked >= since + idle || s.ticks[j].at > since + idle)
      ensures Reading(s, start, idle).1 == Stalled
    {
      SinceIsDeadline(s, start, idle, j, since);
      assert Late(s, start, idle, j);
      assert heard <= j;
      assert s.lines[..j][..heard] == s.lines[..heard];
      DispatchedGrows(s.lines[..j], heard);
      assert DONE !in Dispatched(s.lines[..heard]);
    }
  }
}
