/** Cutting injected documents, largest first (app/memory/fitting.py). */
module Truncating {
  import opened Common
  import opened Canonical
  import opened Measuring

  const CHARS_PER_TOKEN := 4
  const MIN_DOCUMENT_CHARS := 200
  const TRUNCATION_NOTICE: string := "\n[\U{2026} document truncated to fit the context window]"
  const FLOOR := MIN_DOCUMENT_CHARS + |TRUNCATION_NOTICE|

  function Chars(a: Attachment): nat {
    |a.text.GetOr("")|
  }

  /** Only injected documents can be cut, and only while above the minimum. */
  predicate Truncatable(docs: seq<Attachment>, exhausted: set<nat>, i: nat) {
    && i < |docs| && i !in exhausted
    && docs[i].mode.Injected? && docs[i].text.Some?
    && Chars(docs[i]) > MIN_DOCUMENT_CHARS
  }

  /** The longest truncatable document among the first n; the first of equals. */
  function Largest(docs: seq<Attachment>, exhausted: set<nat>, n: nat): (best: Option<nat>)
    requires n <= |docs|
    ensures best.Some? ==> best.value < n && Truncatable(docs, exhausted, best.value)
    ensures forall i :: 0 <= i < n && Truncatable(docs, exhausted, i) ==>
      best.Some? && (Chars(docs[i]) < Chars(docs[best.value])
                     || (Chars(docs[i]) == Chars(docs[best.value]) && best.value <= i))
  {
    if n == 0 then None
    else
      var best := Largest(docs, exhausted, n - 1);
      if Truncatable(docs, exhausted, n - 1) && (best.None? || Chars(docs[n - 1]) > Chars(docs[best.value]))
      then Some(n - 1) else best
  }

  /** `_largest_truncatable`. */
  method LargestTruncatable(docs: seq<Attachment>, exhausted: set<nat>) returns (best: Option<nat>)
    ensures best == Largest(docs, exhausted, |docs|)
  {
    best := None;
    var bestLength := MIN_DOCUMENT_CHARS;
    for index := 0 to |docs|
      invariant best == Largest(docs, exhausted, index)
      invariant bestLength == if best.Some? then Chars(docs[best.value]) else MIN_DOCUMENT_CHARS
    {
      if index in exhausted || !docs[index].mode.Injected? || docs[index].text.None? {
        continue;
      }
      if Chars(docs[index]) > bestLength {
        best, bestLength := Some(index), Chars(docs[index]);
      }
    }
  }

  /** Where the cutting loop stands. */
  datatype Cutting = Cutting(docs: seq<Attachment>, exhausted: set<nat>, truncated: nat, total: int)

  function Indices(n: nat): set<nat> {
    if n == 0 then {} else Indices(n - 1) + {n - 1}
  }

  lemma {:induction false} IndicesContain(n: nat, i: nat)
    requires i < n
    ensures i in Indices(n)
  {
    if i < n - 1 {
      IndicesContain(n - 1, i);
    }
  }

  function TextLength(docs: seq<Attachment>): nat {
    if docs == [] then 0 else TextLength(docs[..|docs| - 1]) + Chars(docs[|docs| - 1])
  }

  lemma {:induction false} TextLengthUpdate(docs: seq<Attachment>, i: nat, a: Attachment)
    requires i < |docs|
    ensures TextLength(docs[i := a]) == TextLength(docs) - Chars(docs[i]) + Chars(a)
  {
    var n := |docs| - 1;
    if i == n {
      assert docs[i := a][..n] == docs[..n];
    } else {
      assert docs[i := a][..n] == docs[..n][i := a];
      TextLengthUpdate(docs[..n], i, a);
    }
  }

  /** How much of a text of the given length one cut keeps. */
  function Keep(length: nat, excess: int): int {
    var wanted := length - (excess * CHARS_PER_TOKEN + |TRUNCATION_NOTICE|);
    if wanted > MIN_DOCUMENT_CHARS then wanted else MIN_DOCUMENT_CHARS
  }

  function Shorten(text: string, excess: int): string
    requires |text| > MIN_DOCUMENT_CHARS && excess > 0
  {
    text[..Keep(|text|, excess)] + TRUNCATION_NOTICE
  }

  /** One round of the loop on the chosen document i: refuse a cut that does not shrink,
      otherwise cut and measure again. */
  function CutOne(ms: seq<Message>, measure: Measure, budget: int, s: Cutting, i: nat): Cutting
    requires s.total > budget && Truncatable(s.docs, s.exhausted, i)
  {
    var text := s.docs[i].text.value;
    var excess := s.total - budget;
    var shortened := Shorten(text, excess);
    if |shortened| >= |text| then s.(exhausted := s.exhausted + {i})
    else
      var docs := s.docs[i := s.docs[i].(text := Some(shortened))];
      Cutting(docs,
              if Keep(|text|, excess) == MIN_DOCUMENT_CHARS then s.exhausted + {i} else s.exhausted,
              s.truncated + 1,
              Total(ms, ByHash(docs), measure))
  }

  /** Every round shortens the texts, or shortens none and exhausts one more document. */
  lemma CutProgress(ms: seq<Message>, measure: Measure, budget: int, s: Cutting, i: nat)
    requires s.total > budget && Truncatable(s.docs, s.exhausted, i)
    ensures var s' := CutOne(ms, measure, budget, s, i);
      && |s'.docs| == |s.docs|
      && (|| TextLength(s'.docs) < TextLength(s.docs)
          || (s'.docs == s.docs && Indices(|s'.docs|) - s'.exhausted < Indices(|s.docs|) - s.exhausted))
  {
    var text := s.docs[i].text.value;
    var shortened := Shorten(text, s.total - budget);
    if |shortened| >= |text| {
      IndicesContain(|s.docs|, i);
    } else {
      TextLengthUpdate(s.docs, i, s.docs[i].(text := Some(shortened)));
    }
  }

  /** What one round does, document by document: the chosen one gives up four characters for
      every token over budget, down to the floor and no further, keeps its head, and is done
      with exactly once it is at the floor; one already there is left alone, as are the others. */
  lemma CutTakesTheExcess(ms: seq<Message>, measure: Measure, budget: int, s: Cutting, i: nat)
    requires s.total > budget && Truncatable(s.docs, s.exhausted, i)
    ensures var s', was := CutOne(ms, measure, budget, s, i), s.docs[i].text.value;
      var length := Max(FLOOR, |was| - 4 * (s.total - budget));
      && |s'.docs| == |s.docs| && (forall j :: 0 <= j < |s.docs| && j != i ==> s'.docs[j] == s.docs[j])
      && (s'.docs[i] ==
          if |was| <= FLOOR then s.docs[i]
          else s.docs[i].(text := Some(was[..length - |TRUNCATION_NOTICE|] + TRUNCATION_NOTICE)))
      && (i in s'.exhausted <==> Chars(s'.docs[i]) <= FLOOR)
      && s'.truncated == s.truncated + (if |was| <= FLOOR then 0 else 1)
      && s'.total == (if |was| <= FLOOR then s.total else Total(ms, ByHash(s'.docs), measure))
  {
  }

  /** The loop, run to its end. */
  function Truncate(ms: seq<Message>, measure: Measure, budget: int, s: Cutting): Cutting
    decreases TextLength(s.docs), Indices(|s.docs|) - s.exhausted
  {
    if s.total <= budget then s
    else
      match Largest(s.docs, s.exhausted, |s.docs|)
      case None => s
      case Some(i) =>
        CutProgress(ms, measure, budget, s, i);
        Truncate(ms, measure, budget, CutOne(ms, measure, budget, s, i))
  }

  /** The body of the loop in `_truncate_documents`, once a document is chosen. */
  method CutDocument(ms: seq<Message>, measure: Measure, budget: int, s: Cutting, i: nat) returns (r: Cutting)
    requires s.total > budget && Truncatable(s.docs, s.exhausted, i)
    ensures r == CutOne(ms, measure, budget, s, i)
  {
    var current, exhausted := s.docs, s.exhausted;
    var attachment := current[i];
    var text := attachment.text.GetOr("");
    var keep := Keep(|text|, s.total - budget);
    var shortened := text[..keep] + TRUNCATION_NOTICE;
    if |shortened| >= |text| {
      exhausted := exhausted + {i};
      return s.(exhausted := exhausted);
    }
    current := current[i := attachment.(text := Some(shortened))];
    if keep == MIN_DOCUMENT_CHARS {
      exhausted := exhausted + {i};
    }
    return Cutting(current, exhausted, s.truncated + 1, Total(ms, ByHash(current), measure));
  }

  /** `_truncate_documents`. */
  method TruncateDocuments(ms: seq<Message>, attachments: seq<Attachment>, measure: Measure, budget: int, startTotal: int)
    returns (current: seq<Attachment>, truncated: nat, total: int)
    ensures var s := Truncate(ms, measure, budget, Cutting(attachments, {}, 0, startTotal));
      current == s.docs && truncated == s.truncated && total == s.total
  {
    var s := Cutting(attachments, {}, 0, startTotal);
    while s.total > budget
      invariant Truncate(ms, measure, budget, s)
             == Truncate(ms, measure, budget, Cutting(attachments, {}, 0, startTotal))
      decreases TextLength(s.docs), Indices(|s.docs|) - s.exhausted
    {
      var index := LargestTruncatable(s.docs, s.exhausted);
      if index.None? {
        break;
      }
      CutProgress(ms, measure, budget, s, index.value);
      s := CutDocument(ms, measure, budget, s, index.value);
    }
    return s.docs, s.truncated, s.total;
  }

  // ----- what cutting keeps ----------------------------------------------------

  /** Untouched, or an original prefix of at least the minimum and exactly one notice. */
  ghost predicate CutOf(original: Attachment, now: Attachment) {
    || now == original
    || (&& original.mode.Injected? && original.text.Some?
        && exists p :: MIN_DOCUMENT_CHARS <= p < |original.text.value|
             && now == original.(text := Some(original.text.value[..p] + TRUNCATION_NOTICE)))
  }

  /** Nothing left to give: an injected text at or below the floor. */
  predicate AtFloor(a: Attachment) {
    a.mode.Injected? ==> Chars(a) <= FLOOR
  }

  ghost predicate Sound(ms: seq<Message>, measure: Measure, original: seq<Attachment>, s: Cutting) {
    && |s.docs| == |original|
    && s.total == Total(ms, ByHash(s.docs), measure)
    && (forall i :: 0 <= i < |original| ==> CutOf(original[i], s.docs[i]))
    && (forall i :: 0 <= i < |s.docs| && i in s.exhausted ==> AtFloor(s.docs[i]))
  }

  /** A second cut still cuts the original: the excess always covers the old notice. */
  lemma CutAgain(original: Attachment, now: Attachment, excess: int)
    requires CutOf(original, now) && now.mode.Injected? && now.text.Some?
    requires Chars(now) > MIN_DOCUMENT_CHARS && excess > 0
    ensures var shortened := Shorten(now.text.value, excess);
      |shortened| < |now.text.value| ==> CutOf(original, now.(text := Some(shortened)))
  {
    var text := now.text.value;
    var keep := Keep(|text|, excess);
    if keep + |TRUNCATION_NOTICE| < |text| && now != original {
      var p :| MIN_DOCUMENT_CHARS <= p < |original.text.value|
        && now == original.(text := Some(original.text.value[..p] + TRUNCATION_NOTICE));
      assert keep <= p;
      assert text[..keep] == original.text.value[..keep];
    }
  }

  lemma CutOneSound(ms: seq<Message>, measure: Measure, budget: int, original: seq<Attachment>, s: Cutting, i: nat)
    requires Sound(ms, measure, original, s)
    requires s.total > budget && Truncatable(s.docs, s.exhausted, i)
    ensures Sound(ms, measure, original, CutOne(ms, measure, budget, s, i))
  {
    CutAgain(original[i], s.docs[i], s.total - budget);
  }

  /** However the loop runs: costs stay true, every document is a cut of its original, and
      if it stops over budget there is no injected document above the floor. */
  lemma {:induction false} TruncateSound(ms: seq<Message>, measure: Measure, budget: int, original: seq<Attachment>, s: Cutting)
    requires Sound(ms, measure, original, s)
    ensures var r := Truncate(ms, measure, budget, s);
      Sound(ms, measure, original, r) &&
      (r.total > budget ==> forall i :: 0 <= i < |r.docs| ==> AtFloor(r.docs[i]))
    decreases TextLength(s.docs), Indices(|s.docs|) - s.exhausted
  {
    if s.total > budget {
      match Largest(s.docs, s.exhausted, |s.docs|)
      case None =>
        forall i | 0 <= i < |s.docs| ensures AtFloor(s.docs[i]) {
          assert !Truncatable(s.docs, s.exhausted, i);
        }
      case Some(i) =>
        CutProgress(ms, measure, budget, s, i);
        CutOneSound(ms, measure, budget, original, s, i);
        TruncateSound(ms, measure, budget, original, CutOne(ms, measure, budget, s, i));
    }
  }
}
