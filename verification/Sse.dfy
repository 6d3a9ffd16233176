/** The server-sent-events reader of a streaming provider call (app/providers/base.py). Lines
    arrive with the moment each was asked for and the moment it came; a stall raises. */
module Sse {

  type Time = real

  const DONE := "[DONE]"
  const DATA := "data:"

  // ----- one line --------------------------------------------------------------

  /** Python's `str.isspace` for one character. */
  predicate IsSpace(c: char) {
    || c in " \t\n\r\U{000B}\U{000C}\U{001C}\U{001D}\U{001E}\U{001F}\U{0085}\U{00A0}\U{1680}"
    || '\U{2000}' <= c <= '\U{200A}'
    || c in "\U{2028}\U{2029}\U{202F}\U{205F}\U{3000}"
  }

  predicate IsTerminator(c: char) {
    c == '\r' || c == '\n'
  }

  /** `rstrip("\r\n")`. */
  function Text(raw: string): (text: string)
    ensures text <= raw && (text == "" || !IsTerminator(text[|text| - 1]))
  {
    if raw != "" && IsTerminator(raw[|raw| - 1]) then Text(raw[..|raw| - 1]) else raw
  }

  /** `lstrip()`. */
  function StripStart(s: string): string {
    if s != "" && IsSpace(s[0]) then StripStart(s[1..]) else s
  }

  predicate IsComment(text: string) {
    ":" <= text
  }

  predicate IsData(text: string) {
    DATA <= text
  }

  function Field(text: string): string
    requires IsData(text)
  {
    StripStart(text[|DATA|..])
  }

  /** `"\n".join`. */
  function Join(lines: seq<string>): string
    requires lines != []
  {
    if |lines| == 1 then lines[0] else lines[0] + "\n" + Join(lines[1..])
  }

  // ----- what a run of lines says ------------------------------------------------

  /** The data fields of the event still open after these lines. */
  function Pending(lines: seq<string>): seq<string> {
    if lines == [] then []
    else
      var before, text := lines[..|lines| - 1], Text(lines[|lines| - 1]);
      if IsData(text) then Pending(before) + [Field(text)]
      else if text == "" then []
      else Pending(before)
  }

  /** The payloads of the events these lines close, in order. */
  function Dispatched(lines: seq<string>): seq<string> {
    if lines == [] then []
    else
      var before, text := lines[..|lines| - 1], Text(lines[|lines| - 1]);
      if text == "" && Pending(before) != [] then Dispatched(before) + [Join(Pending(before))]
      else Dispatched(before)
  }

  /** The open event at the end of the stream, surfaced as if it had been closed. */
  function Flushed(lines: seq<string>): seq<string> {
    if Pending(lines) == [] then [] else [Join(Pending(lines))]
  }

  /** The payloads before the sentinel. */
  function UntilDone(payloads: seq<string>): (kept: seq<string>)
    ensures kept <= payloads && DONE !in kept
    ensures DONE !in payloads ==> kept == payloads
    ensures |kept| < |payloads| ==> payloads[|kept|] == DONE
  {
    if payloads == [] || payloads[0] == DONE then [] else [payloads[0]] + UntilDone(payloads[1..])
  }

  // ----- time --------------------------------------------------------------------

  /** When the reader asked for something and when it came. */
  datatype Tick = Tick(asked: Time, at: Time)

  /** The raw lines, one tick each, and a last tick for the end of the stream. */
  datatype Stream = Stream(lines: seq<string>, ticks: seq<Tick>) {
    predicate Valid() {
      |ticks| == |lines| + 1
    }
  }

  /** Idle time after the last data line among the first `n`, or after the start. */
  function Deadline(s: Stream, start: Time, idle: Time, n: nat): Time
    requires s.Valid() && n <= |s.lines|
  {
    if n == 0 then start + idle
    else if IsData(Text(s.lines[n - 1])) then s.ticks[n - 1].at + idle
    else Deadline(s, start, idle, n - 1)
  }

  predicate Late(s: Stream, start: Time, idle: Time, n: nat)
    requires s.Valid() && n <= |s.lines|
  {
    s.ticks[n].asked >= Deadline(s, start, idle, n) || s.ticks[n].at > Deadline(s, start, idle, n)
  }

  /** How many ticks come in before the first late one. */
  function Heard(s: Stream, start: Time, idle: Time, from: nat := 0): (n: nat)
    requires s.Valid() && from <= |s.ticks|
    ensures from <= n <= |s.ticks|
    ensures forall i :: from <= i < n ==> !Late(s, start, idle, i)
    ensures n < |s.ticks| ==> Late(s, start, idle, n)
    decreases |s.ticks| - from
  {
    if from == |s.ticks| || Late(s, start, idle, from) then from else Heard(s, start, idle, from + 1)
  }

  // ----- the reader --------------------------------------------------------------

  datatype Outcome = Finished | Stalled

  /** What a caller of the stream sees: the payloads and how it ended. */
  function Reading(s: Stream, start: Time, idle: Time): (seq<string>, Outcome)
    requires s.Valid()
  {
    var heard := Heard(s, start, idle);
    if heard == |s.ticks| then (UntilDone(Dispatched(s.lines) + Flushed(s.lines)), Finished)
    else
      var events := Dispatched(s.lines[..heard]);
      (UntilDone(events), if DONE in events then Finished else Stalled)
  }

  method StreamEvents(s: Stream, start: Time, idle: Time) returns (yielded: seq<string>, outcome: Outcome)
    requires s.Valid()
    ensures (yielded, outcome) == Reading(s, start, idle)
  {
    hide Text;
    hide IsData;
    hide IsComment;
    hide Field;
    hide Join;
    hide Pending;
    hide Dispatched;
    hide UntilDone;
    NothingYet();
    yielded := [];
    var dataLines: seq<string> := [];
    var deadline := start + idle;
    var n := 0;
    while true
      invariant n <= |s.lines|
      invariant dataLines == Pending(s.lines[..n])
      invariant yielded == Dispatched(s.lines[..n]) && DONE !in yielded
      invariant deadline == Deadline(s, start, idle, n)
      invariant Heard(s, start, idle) == Heard(s, start, idle, n)
      decreases |s.lines| - n
    {
      if s.ticks[n].asked >= deadline || s.ticks[n].at > deadline {
        return yielded, Stalled;
      }
      if n == |s.lines| {
        break;
      }
      var text := Text(s.lines[n]);
      OneMoreLine(s.lines[..n], s.lines[n]);
      assert s.lines[..n + 1] == s.lines[..n] + [s.lines[n]];
      n := n + 1;
      if IsComment(text) {
        KindsExclude(text);
        continue;
      }
      if IsData(text) {
        KindsExclude(text);
        deadline := s.ticks[n - 1].at + idle;
        dataLines := dataLines + [Field(text)];
        continue;
      }
      if text == "" {
        if dataLines != [] {
          var payload := Join(dataLines);
          dataLines := [];
          if payload == DONE {
            SentinelStops(s, start, idle, n, yielded);
            return yielded, Finished;
          }
          yielded := yielded + [payload];
        }
        continue;
      }
    }
    assert s.lines[..n] == s.lines;
    assert Heard(s, start, idle) == |s.ticks|;
    if dataLines != [] {
      var payload := Join(dataLines);
      if payload != DONE {
        yielded := yielded + [payload];
      } else {
        UntilSentinel(yielded, []);
        assert yielded + [DONE] + [] == yielded + [DONE];
      }
    } else {
      assert yielded + [] == yielded;
    }
    outcome := Finished;
  }

  lemma NothingYet()
    ensures Pending([]) == [] && Dispatched([]) == []
  {
  }

  /** What one more line does to the open event and to the closed ones. */
  lemma OneMoreLine(before: seq<string>, line: string)
    ensures var text := Text(line);
      && Pending(before + [line]) == (
           if IsData(text) then Pending(before) + [Field(text)] else if text == "" then [] else Pending(before))
      && Dispatched(before + [line]) == (
           if text == "" && Pending(before) != [] then Dispatched(before) + [Join(Pending(before))] else Dispatched(before))
  {
    hide Text;
    hide Field;
    hide IsData;
    hide Join;
    assert (before + [line])[..|before|] == before;
  }

  /** Comment, data line and blank exclude each other. */
  lemma KindsExclude(text: string)
    ensures IsComment(text) ==> !IsData(text) && text != ""
    ensures IsData(text) ==> text != ""
  {
    assert IsComment(text) ==> text[0] == ':';
    assert IsData(text) ==> text[0] == DATA[0];
  }

  lemma UntilSentinel(before: seq<string>, after: seq<string>)
    requires DONE !in before
    ensures UntilDone(before + [DONE] + after) == before
  {
    var all := before + [DONE] + after;
    assert all[|before|] == DONE;
    assert before == all[..|before|];
  }

  /** Closed events stay closed: more lines only add events. */
  lemma {:induction false} DispatchedGrows(lines: seq<string>, n: nat)
    requires n <= |lines|
    ensures Dispatched(lines[..n]) <= Dispatched(lines)
    decreases |lines| - n
  {
    hide Pending;
    hide Dispatched;
    hide Text;
    if n == |lines| {
      assert lines[..n] == lines;
    } else {
      DispatchedGrows(lines, n + 1);
      OneMoreLine(lines[..n], lines[n]);
      assert lines[..n + 1] == lines[..n] + [lines[n]];
    }
  }

  /** Once the sentinel is read, what was yielded is the whole reading. */
  lemma SentinelStops(s: Stream, start: Time, idle: Time, n: nat, yielded: seq<string>)
    requires s.Valid() && n <= |s.lines| && n <= Heard(s, start, idle)
    requires DONE !in yielded && Dispatched(s.lines[..n]) == yielded + [DONE]
    ensures Reading(s, start, idle) == (yielded, Finished)
  {
    hide Heard;
    hide Pending;
    hide Dispatched;
    hide UntilDone;
    var heard := Heard(s, start, idle);
    var upto := if heard == |s.ticks| then s.lines else s.lines[..heard];
    assert upto[..n] == s.lines[..n];
    DispatchedGrows(upto, n);
    var events := Dispatched(upto);
    var rest := events[|yielded| + 1..];
    assert events == yielded + [DONE] + rest;
    assert events[|yielded|] == DONE;
    UntilSentinel(yielded, rest);
    UntilSentinel(yielded, rest + Flushed(upto));
    assert events + Flushed(upto) == yielded + [DONE] + (rest + Flushed(upto));
  }
}
