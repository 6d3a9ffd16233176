/** `fit`: make a history fit a budget, or say why it cannot (app/memory/fitting.py). */
module Fitting {
  import opened Common
  import opened Canonical
  import opened Selecting
  import opened Measuring
  import opened Dropping
  import opened DroppingTheorems
  import opened Truncating

  datatype FitOutcome =
    | Fitted(messages: seq<Message>, attachments: seq<Attachment>, messagesDropped: nat,
             documentsTruncated: nat, inputTokens: int)
    | ContextTooLong(limitTokens: int)

  /** What the history is trimmed to before any document is cut. */
  function Kept(ms: seq<Message>, docs: seq<Attachment>, budget: int, measure: Measure): seq<Message> {
    Trimmed(ms, ByHash(docs), measure, TurnsDropped(ms, ByHash(docs), measure, budget))
  }

  /** Where cutting documents ends, with that history. */
  function CutAll(ms: seq<Message>, docs: seq<Attachment>, budget: int, measure: Measure): Cutting {
    var survivors := Kept(ms, docs, budget, measure);
    Truncate(survivors, measure, budget, Cutting(docs, {}, 0, Total(survivors, ByHash(docs), measure)))
  }

  /** The whole pipeline as a function of its inputs. */
  function FitSpec(ms: seq<Message>, docs: seq<Attachment>, budget: int, measure: Measure): FitOutcome {
    var attached := ByHash(docs);
    if Total(ms, attached, measure) <= budget then Fitted(ms, docs, 0, 0, Total(ms, attached, measure))
    else
      var k := TurnsDropped(ms, attached, measure, budget);
      var survivors, dropped := Trimmed(ms, attached, measure, k), DroppedBy(ms, k);
      var total := Total(survivors, attached, measure);
      if total <= budget then Fitted(survivors, docs, dropped, 0, total)
      else
        var s := CutAll(ms, docs, budget, measure);
        if s.total > budget then ContextTooLong(budget)
        else Fitted(survivors, s.docs, dropped, s.truncated, s.total)
  }

  method Fit(ms: seq<Message>, docs: seq<Attachment>, budget: int, measure: Measure) returns (r: FitOutcome)
    ensures r == FitSpec(ms, docs, budget, measure)
  {
    var attached := ByHash(docs);
    var costs := Costs(ms, attached, measure);
    var total := SumOf(costs);
    if total <= budget {
      return Fitted(ms, docs, 0, 0, total);
    }
    var survivors, survivorCosts, dropped := DropOldestTurns(ms, costs, attached, measure, budget);
    total := SumOf(survivorCosts);
    if total <= budget {
      return Fitted(survivors, docs, dropped, 0, total);
    }
    var current, truncated, cutTotal := TruncateDocuments(survivors, docs, measure, budget, total);
    if cutTotal > budget {
      return ContextTooLong(budget);
    }
    return Fitted(survivors, current, dropped, truncated, cutTotal);
  }

  ghost predicate CutsOf(original: seq<Attachment>, now: seq<Attachment>) {
    |now| == |original| && forall i :: 0 <= i < |original| ==> CutOf(original[i], now[i])
  }

  /** A fitted history really fits: the reported tokens are the cost recomputed from scratch
      over what is returned, and every document is a cut of the one handed in. */
  lemma FittedIsMeasured(ms: seq<Message>, docs: seq<Attachment>, budget: int, measure: Measure)
    ensures var r := FitSpec(ms, docs, budget, measure);
      r.Fitted? ==>
        && r.inputTokens == Total(r.messages, ByHash(r.attachments), measure) <= budget
        && CutsOf(docs, r.attachments)
        && (r.documentsTruncated == 0 ==> r.attachments == docs)
  {
    hide Trimmed;
    hide TurnsDropped;
    hide Truncate;
    var attached := ByHash(docs);
    var survivors := Trimmed(ms, attached, measure, TurnsDropped(ms, attached, measure, budget));
    var s := Cutting(docs, {}, 0, Total(survivors, attached, measure));
    TruncateSound(survivors, measure, budget, docs, s);
    UncutUnchanged(survivors, measure, budget, s);
  }

  lemma {:induction false} UncutUnchanged(ms: seq<Message>, measure: Measure, budget: int, s: Cutting)
    ensures Truncate(ms, measure, budget, s).truncated >= s.truncated
    ensures Truncate(ms, measure, budget, s).truncated == s.truncated ==> Truncate(ms, measure, budget, s).docs == s.docs
    decreases TextLength(s.docs), Indices(|s.docs|) - s.exhausted
  {
    if s.total > budget {
      match Largest(s.docs, s.exhausted, |s.docs|)
      case None =>
      case Some(i) =>
        CutProgress(ms, measure, budget, s, i);
        UncutUnchanged(ms, measure, budget, CutOne(ms, measure, budget, s, i));
    }
  }

  /** Fitting gives up exactly when the history as it came is over budget and so is what is
      left after dropping and cutting. By then every turn is gone, every document the cutting
      ended with is a cut of its original, and none that is injected is longer than the
      minimum plus the notice. */
  lemma GivesUpLast(ms: seq<Message>, docs: seq<Attachment>, budget: int, measure: Measure)
    ensures var k := TurnsDropped(ms, ByHash(docs), measure, budget);
      var end := CutAll(ms, docs, budget, measure);
      && (FitSpec(ms, docs, budget, measure).ContextTooLong? <==>
          && Total(ms, ByHash(docs), measure) > budget
          && Total(Kept(ms, docs, budget, measure), ByHash(end.docs), measure) > budget)
      && (FitSpec(ms, docs, budget, measure).ContextTooLong? ==>
          && k == |Groups(ms)| && DroppedBy(ms, k) == |All(ms)|
          && CutsOf(docs, end.docs)
          && forall i :: 0 <= i < |end.docs| ==> AtFloor(end.docs[i]))
  {
    hide Total;
    hide Kept;
    hide CutAll;
    hide TurnsDropped;
    CutAllEnds(ms, docs, budget, measure);
    KeptOverBudget(ms, docs, budget, measure);
    FitUnfolds(ms, docs, budget, measure);
  }

  lemma FitUnfolds(ms: seq<Message>, docs: seq<Attachment>, budget: int, measure: Measure)
    ensures FitSpec(ms, docs, budget, measure).ContextTooLong? <==>
      && Total(ms, ByHash(docs), measure) > budget
      && Total(Kept(ms, docs, budget, measure), ByHash(docs), measure) > budget
      && CutAll(ms, docs, budget, measure).total > budget
  {
    hide Total;
    hide CutAll;
    hide TurnsDropped;
    hide Trimmed;
  }

  /** Where the cutting ends: measured, made of cuts, and at the floor if still over. */
  lemma CutAllEnds(ms: seq<Message>, docs: seq<Attachment>, budget: int, measure: Measure)
    ensures var end := CutAll(ms, docs, budget, measure);
      && end.total == Total(Kept(ms, docs, budget, measure), ByHash(end.docs), measure)
      && CutsOf(docs, end.docs)
      && (end.total > budget ==> forall i :: 0 <= i < |end.docs| ==> AtFloor(end.docs[i]))
      && (Total(Kept(ms, docs, budget, measure), ByHash(docs), measure) <= budget ==> end.total <= budget)
  {
    hide Total;
    hide Kept;
    var survivors := Kept(ms, docs, budget, measure);
    var s := Cutting(docs, {}, 0, Total(survivors, ByHash(docs), measure));
    assert s.total <= budget ==> Truncate(survivors, measure, budget, s) == s;
    hide Truncate;
    TruncateSound(survivors, measure, budget, docs, s);
  }

  /** Over budget with every document whole means that every turn has gone. */
  lemma KeptOverBudget(ms: seq<Message>, docs: seq<Attachment>, budget: int, measure: Measure)
    ensures var k := TurnsDropped(ms, ByHash(docs), measure, budget);
      Total(Kept(ms, docs, budget, measure), ByHash(docs), measure) > budget ==>
        k == |Groups(ms)| && DroppedBy(ms, k) == |All(ms)|
  {
    hide Trimmed;
    hide TurnsDropped;
    hide Total;
    ShortestPrefix(ms, ByHash(docs), measure, budget);
  }

  /** Fitting what was fitted, at the same budget, changes nothing. */
  lemma RefitUnchanged(ms: seq<Message>, docs: seq<Attachment>, budget: int, measure: Measure)
    requires FitSpec(ms, docs, budget, measure).Fitted?
    ensures var r := FitSpec(ms, docs, budget, measure);
      FitSpec(r.messages, r.attachments, budget, measure)
        == Fitted(r.messages, r.attachments, 0, 0, r.inputTokens)
  {
    FittedIsMeasured(ms, docs, budget, measure);
  }

  /** In which order fitting gives things up: nothing while the history fits as it is, and no
      document before every turn is gone and that was not enough. */
  lemma FitGivesUpInOrder(ms: seq<Message>, docs: seq<Attachment>, budget: int, measure: Measure)
    ensures var r, total := FitSpec(ms, docs, budget, measure), Total(ms, ByHash(docs), measure);
      && (total <= budget ==> r == Fitted(ms, docs, 0, 0, total))
      && (r.Fitted? && (r.documentsTruncated > 0 || r.attachments != docs) ==>
          && total > budget && r.messagesDropped == |All(ms)|
          && Total(r.messages, ByHash(docs), measure) > budget)
  {
    KeptOverBudget(ms, docs, budget, measure);
    hide Total;
    hide CutAll;
    hide TurnsDropped;
    hide Trimmed;
    hide DroppedBy;
    hide All;
    hide Groups;
  }

  /** How many turns fitting drops. */
  function TurnsGone(ms: seq<Message>, docs: seq<Attachment>, budget: int, measure: Measure): (k: nat)
    ensures k <= |Groups(ms)|
  {
    if Total(ms, ByHash(docs), measure) <= budget then 0 else TurnsDropped(ms, ByHash(docs), measure, budget)
  }

  lemma NothingTrimmed(ms: seq<Message>, attached: Attached, measure: Measure)
    ensures Trimmed(ms, attached, measure, 0) == ms && DroppedBy(ms, 0) == 0
  {
    AllAlive(ms);
    SelectAll(ms, Alive(ms, 0));
  }

  lemma FittedMessages(ms: seq<Message>, docs: seq<Attachment>, budget: int, measure: Measure)
    ensures var r, k := FitSpec(ms, docs, budget, measure), TurnsGone(ms, docs, budget, measure);
      r.Fitted? ==> r.messages == Trimmed(ms, ByHash(docs), measure, k) && r.messagesDropped == DroppedBy(ms, k)
  {
    NothingTrimmed(ms, ByHash(docs), measure);
    hide Trimmed;
    hide TurnsDropped;
    hide CutAll;
    hide Total;
    hide DroppedBy;
  }

  /** What fitting does to a message it keeps: the same message in its place among the others,
      every block of it that is no omission marker still there and in order; only the message
      that opens the rest reports what was dropped, in its first marker or a new one in front. */
  lemma FitKeepsContent(ms: seq<Message>, docs: seq<Attachment>, budget: int, measure: Measure, i: nat)
    requires FitSpec(ms, docs, budget, measure).Fitted? && i < |ms|
    requires Survives(ms, TurnsGone(ms, docs, budget, measure), i)
    ensures var r, k := FitSpec(ms, docs, budget, measure), TurnsGone(ms, docs, budget, measure);
      && Place(ms, k, i) < |r.messages|
      && var now := r.messages[Place(ms, k, i)];
        && now == ms[i].(content := now.content) && Others(now.content) == Others(ms[i].content)
        && (if r.messagesDropped > 0 && Opens(ms, k, i)
            then MarkerRaised(now.content, ms[i].content, r.messagesDropped + Carried(ms, k))
            else now == ms[i])
        && forall j :: i < j < |ms| ==> Place(ms, k, i) < Place(ms, k, j)
  {
    hide *;
    var k := TurnsGone(ms, docs, budget, measure);
    FittedMessages(ms, docs, budget, measure);
    SurvivorsKeepOrder(ms, ByHash(docs), measure, k, i);
    if DroppedBy(ms, k) > 0 && Opens(ms, k, i) {
      var now := Trimmed(ms, ByHash(docs), measure, k)[Place(ms, k, i)];
      RaisedKeepsOthers(now.content, ms[i].content, DroppedBy(ms, k) + Carried(ms, k));
    }
  }

  /** Whatever is dropped, the question goes out with all its text and files. */
  lemma FitKeepsTheQuestion(ms: seq<Message>, docs: seq<Attachment>, budget: int, measure: Measure, i: nat)
    requires FitSpec(ms, docs, budget, measure).Fitted? && i < |ms|
    requires ms[i].role.User? && forall j :: i < j < |ms| ==> !ms[j].role.User?
    ensures var messages := FitSpec(ms, docs, budget, measure).messages;
      exists p :: (&& 0 <= p < |messages| && messages[p] == ms[i].(content := messages[p].content)
                   && Others(messages[p].content) == Others(ms[i].content))
  {
    hide FitSpec;
    hide TurnsGone;
    LastUserSurvives(ms, TurnsGone(ms, docs, budget, measure), i);
    FitKeepsContent(ms, docs, budget, measure, i);
  }

  /** Nothing dropped is forgotten: the markers grow by exactly the messages dropped, and
      survivors plus dropped make up the original history. */
  lemma FitConservesOmissions(ms: seq<Message>, docs: seq<Attachment>, budget: int, measure: Measure)
    ensures var r := FitSpec(ms, docs, budget, measure);
      r.Fitted? ==>
        && Omitted(r.messages) == Omitted(ms) + r.messagesDropped
        && |r.messages| + r.messagesDropped == |ms|
  {
    var attached := ByHash(docs);
    var k := TurnsDropped(ms, attached, measure, budget);
    OmissionsConserved(ms, attached, measure, k);
    AliveCount(ms, DroppedBy(ms, k));
    hide Total;
    hide CutAll;
    hide TurnsDropped;
    hide Omitted;
  }
}
