/** What a history costs (app/memory/fitting.py, measurement half). The projector and the
    estimator are arbitrary functions handed in by the caller. */
module Measuring {
  import opened Common
  import opened Canonical
  import opened Selecting

  datatype Mode = Native | Injected

  /** A ResolvedAttachment, reduced to what fitting reads. */
  datatype Attachment = Attachment(fileHash: string, mode: Mode, text: Option<string>, tokenCost: int)

  type Attached = map<string, Attachment>

  datatype Measure = Measure(project: (Message, Attached) -> string, estimator: string -> int)

  const PER_MESSAGE_TOKEN_OVERHEAD := 4

  /** `{a.file_hash: a for a in attachments}`: a later attachment replaces an earlier one. */
  function ByHash(docs: seq<Attachment>): Attached {
    if docs == [] then map[]
    else ByHash(docs[..|docs| - 1])[docs[|docs| - 1].fileHash := docs[|docs| - 1]]
  }

  /** A hash stands for the last attachment that carries it. */
  lemma {:induction false} ByHashIsLast(docs: seq<Attachment>, i: nat)
    requires i < |docs| && forall j :: i < j < |docs| ==> docs[j].fileHash != docs[i].fileHash
    ensures docs[i].fileHash in ByHash(docs) && ByHash(docs)[docs[i].fileHash] == docs[i]
  {
    if i < |docs| - 1 {
      ByHashIsLast(docs[..|docs| - 1], i);
    }
  }

  /** Only native attachments cost extra: injected text is already in the projection. */
  function NativeTokens(content: seq<Block>, attached: Attached): int {
    if content == [] then 0
    else
      var rest := NativeTokens(content[..|content| - 1], attached);
      match content[|content| - 1]
      case FileRef(h) => rest + if h in attached && attached[h].mode.Native? then attached[h].tokenCost else 0
      case _ => rest
  }

  function Cost(m: Message, attached: Attached, measure: Measure): int {
    measure.estimator(measure.project(m, attached)) + PER_MESSAGE_TOKEN_OVERHEAD + NativeTokens(m.content, attached)
  }

  /** What one block adds beyond the projected text: the declared size of a native file the
      request carries, and nothing for text, markers, injected or missing files. */
  predicate ChargedNatively(b: Block, attached: Attached) {
    b.FileRef? && b.fileHash in attached && attached[b.fileHash].mode.Native?
  }

  function Charges(content: seq<Block>, attached: Attached): (charges: seq<int>)
    ensures |charges| == |content|
  {
    seq(|content|, i requires 0 <= i < |content| =>
      if ChargedNatively(content[i], attached) then attached[content[i].fileHash].tokenCost else 0)
  }

  /** Every native file is charged once per reference. */
  lemma {:induction false} NativeIsCharged(content: seq<Block>, attached: Attached)
    ensures NativeTokens(content, attached) == SumOf(Charges(content, attached))
  {
    if content != [] {
      var n := |content| - 1;
      NativeIsCharged(content[..n], attached);
      assert Charges(content, attached)[..n] == Charges(content[..n], attached);
    }
  }

  /** A message's cost, part by part: its projection, a fixed overhead, its native files. */
  lemma CostIsCharged(m: Message, attached: Attached, measure: Measure)
    ensures Cost(m, attached, measure)
      == measure.estimator(measure.project(m, attached)) + 4 + SumOf(Charges(m.content, attached))
  {
    NativeIsCharged(m.content, attached);
  }

  /** An injected file is paid for in the text alone: with the same projection, its declared
      size never enters a cost. */
  lemma InjectedIsNotCharged(m: Message, attached: Attached, measure: Measure, h: string, size: int)
    requires h in attached && attached[h].mode.Injected?
    requires measure.project(m, attached[h := attached[h].(tokenCost := size)]) == measure.project(m, attached)
    ensures Cost(m, attached[h := attached[h].(tokenCost := size)], measure) == Cost(m, attached, measure)
  {
    NativeSame(m.content, attached, attached[h := attached[h].(tokenCost := size)]);
  }

  lemma {:induction false} NativeSame(content: seq<Block>, a: Attached, b: Attached)
    requires a.Keys == b.Keys
    requires forall h :: h in a && (a[h].mode.Native? || b[h].mode.Native?) ==> a[h] == b[h]
    ensures NativeTokens(content, a) == NativeTokens(content, b)
  {
    if content != [] {
      NativeSame(content[..|content| - 1], a, b);
    }
  }

  function Costs(ms: seq<Message>, attached: Attached, measure: Measure): (r: seq<int>)
    ensures |r| == |ms|
  {
    seq(|ms|, i requires 0 <= i < |ms| => Cost(ms[i], attached, measure))
  }

  function Total(ms: seq<Message>, attached: Attached, measure: Measure): int {
    SumOf(Costs(ms, attached, measure))
  }

  /** Filtering cached costs agrees with recomputing them for the filtered history. */
  lemma {:induction false} SelectedCosts(ms: seq<Message>, alive: seq<bool>, attached: Attached, measure: Measure)
    requires |ms| == |alive|
    ensures Select(Costs(ms, attached, measure), alive) == Costs(Select(ms, alive), attached, measure)
  {
    if ms != [] {
      var n := |ms| - 1;
      SelectedCosts(ms[..n], alive[..n], attached, measure);
      assert Costs(ms, attached, measure)[..n] == Costs(ms[..n], attached, measure);
    }
  }


}
