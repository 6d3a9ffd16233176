/** The canonical conversation schema (app/memory/canonical.py): messages made of
    typed blocks, and the history invariants the renderer asserts. */
module Canonical {
  import opened Common

  datatype Role = System | User | Assistant

  datatype Block =
    | Text(text: string)
    | FileRef(fileHash: string)
    | OmissionMarker(omittedCount: int)

  /** `provider` is `meta.provider_used`; the rest of the metadata plays no part here. */
  datatype Message = Message(id: string, role: Role, content: seq<Block>, provider: Option<string>, seqNo: int)

  /** An InvariantViolation, carrying the number of the invariant it broke. */
  datatype Violation = Violation(broken: nat)

  /** The rules one message can break on its own: invariants 4, 1 and 5, in that order. */
  function ValidateMessage(m: Message): Option<Violation> {
    if m.content == [] then Some(Violation(4))
    else if m.role.System? && m.seqNo != 0 then Some(Violation(1))
    else if m.role.Assistant? && m.provider.None? then Some(Violation(5))
    else if m.role.User? && m.provider.Some? then Some(Violation(5))
    else None
  }

  /** The ordering rules, checked against only the preceding message. */
  function ValidateAppend(previous: Option<Message>, m: Message): Option<Violation> {
    match previous
    case None => if m.seqNo != 0 then Some(Violation(2)) else None
    case Some(p) =>
      if m.seqNo != p.seqNo + 1 then Some(Violation(2))
      else if m.role.System? then Some(Violation(1))
      else if m.role.Assistant? && p.role.Assistant? then Some(Violation(3))
      else None
  }

  function Tail(ms: seq<Message>): Option<Message> {
    if ms == [] then None else Some(ms[|ms| - 1])
  }

  /** What one checked append to a stored conversation demands. */
  predicate AppendAccepts(ms: seq<Message>, m: Message) {
    ValidateMessage(m).None? && ValidateAppend(Tail(ms), m).None?
  }

  predicate ProvenanceMatchesRole(m: Message) {
    match m.role
    case System => true
    case User => m.provider.None?
    case Assistant => m.provider.Some?
  }

  /** The declarative reading of the invariants, position by position. */
  predicate CanonicalAt(ms: seq<Message>, i: nat)
    requires i < |ms|
  {
    && ms[i].seqNo == i
    && (ms[i].role.System? ==> i == 0)
    && (i > 0 && ms[i].role.Assistant? ==> !ms[i - 1].role.Assistant?)
    && ms[i].content != []
    && ProvenanceMatchesRole(ms[i])
  }

  ghost predicate CanonicalHistory(ms: seq<Message>) {
    forall i :: 0 <= i < |ms| ==> CanonicalAt(ms, i)
  }

  /** Reachable from the empty conversation by checked appends. */
  ghost predicate BuiltByAppends(ms: seq<Message>) {
    ms == [] || (BuiltByAppends(ms[..|ms| - 1]) && AppendAccepts(ms[..|ms| - 1], ms[|ms| - 1]))
  }

  lemma CanonicalPrefix(ms: seq<Message>, n: nat, k: nat)
    requires k <= n <= |ms| && CanonicalHistory(ms[..n])
    ensures CanonicalHistory(ms[..k])
  {
    forall i | 0 <= i < k ensures CanonicalAt(ms[..k], i) {
      assert CanonicalAt(ms[..n], i);
    }
  }

  /** A canonical prefix extends by one message exactly when the append checks pass. */
  lemma CanonicalExtends(ms: seq<Message>, k: nat)
    requires k < |ms| && CanonicalHistory(ms[..k])
    ensures CanonicalHistory(ms[..k + 1]) <==> AppendAccepts(ms[..k], ms[k])
  {
    var pre, ext := ms[..k], ms[..k + 1];
    if k > 0 {
      assert CanonicalAt(pre, k - 1);
      assert Tail(pre) == Some(ms[k - 1]);
    }
    assert CanonicalAt(ext, k) <==> AppendAccepts(pre, ms[k]);
    if AppendAccepts(pre, ms[k]) {
      forall i | 0 <= i < k + 1 ensures CanonicalAt(ext, i) {
        if i < k {
          assert CanonicalAt(pre, i);
        }
      }
    }
  }

  /** Both directions: a history is canonical exactly when checked appends can build it. */
  lemma {:induction false} CanonicalIffBuiltByAppends(ms: seq<Message>)
    ensures CanonicalHistory(ms) <==> BuiltByAppends(ms)
  {
    if ms != [] {
      var n := |ms| - 1;
      CanonicalIffBuiltByAppends(ms[..n]);
      assert ms[..n + 1] == ms;
      if CanonicalHistory(ms) {
        CanonicalPrefix(ms, |ms|, n);
      }
      if CanonicalHistory(ms[..n]) {
        CanonicalExtends(ms, n);
      }
    }
  }

  /** Everything before message k is canonical, and with it nothing is. */
  ghost predicate FirstOffender(ms: seq<Message>, k: nat) {
    k < |ms| && CanonicalHistory(ms[..k]) && !CanonicalHistory(ms[..k + 1])
  }

  /** The invariant the first offender is reported for: a number that is taken, out of order
      or no start; then the message's own faults; then a gap; then a second answer. */
  function Complaint(m: Message, k: nat): nat {
    if m.seqNo < k || (k == 0 && m.seqNo != 0) then 2
    else if m.content == [] then 4
    else if m.role.System? && m.seqNo != 0 then 1
    else if !ProvenanceMatchesRole(m) then 5
    else if m.seqNo != k then 2
    else 3
  }

  /** There is at most one first offender. */
  lemma OffenderIsUnique(ms: seq<Message>, j: nat, k: nat)
    requires FirstOffender(ms, j) && FirstOffender(ms, k)
    ensures j == k
  {
    if j < k {
      CanonicalPrefix(ms, k, j + 1);
    } else if k < j {
      CanonicalPrefix(ms, j, k + 1);
    }
  }

  /** `validate`. Acceptance is exactly CanonicalHistory: the duplicate and ordering checks
      reject nothing the remaining checks would let through. A rejection is the complaint
      about the first offender; the check for a second system message never raises it. */
  method Validate(ms: seq<Message>) returns (v: Option<Violation>)
    ensures v.None? <==> CanonicalHistory(ms)
    ensures v.Some? ==> exists k: nat :: FirstOffender(ms, k) && v.value == Violation(Complaint(ms[k], k))
  {
    var seenSeqs: set<int> := {};
    var previous: Option<Message> := None;
    var index := 0;
    while index < |ms|
      invariant 0 <= index <= |ms|
      invariant CanonicalHistory(ms[..index])
      invariant forall s :: s in seenSeqs <==> 0 <= s < index
      invariant previous == Tail(ms[..index])
    {
      var m := ms[index];
      CanonicalExtends(ms, index);
      if index > 0 {
        assert CanonicalAt(ms[..index], index - 1);
      }
      v := None;
      if m.seqNo in seenSeqs {
        v := Some(Violation(2));
      } else if previous.Some? && m.seqNo <= previous.value.seqNo {
        v := Some(Violation(2));
      } else if index == 0 && m.seqNo != 0 {
        v := Some(Violation(2));
      } else if ValidateMessage(m).Some? {
        v := ValidateMessage(m);
      } else {
        v := ValidateAppend(previous, m);
      }
      if v.Some? {
        assert FirstOffender(ms, index);
        assert v.value == Violation(Complaint(m, index));
        if CanonicalHistory(ms) {
          assert ms[..|ms|] == ms;
          CanonicalPrefix(ms, |ms|, index + 1);
        }
        return;
      }
      seenSeqs := seenSeqs + {m.seqNo};
      previous := Some(m);
      index := index + 1;
      assert ms[..index][index - 1] == m;
    }
    assert ms[..index] == ms;
    v := None;
  }
}
