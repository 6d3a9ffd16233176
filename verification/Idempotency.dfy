/** The idempotency store: claim a key, replay an answer, release a failure
    (app/cache/idempotency.py). Redis answers; a slot is the pair (user, client key). */
module Idempotency {
  import opened Common

  const IDEMPOTENCY_TTL_S := 86400.0

  // ----- the envelope ----------------------------------------------------------

  /** Parsed JSON; the text encoding itself is foreign code. */
  datatype Json =
    | JNull
    | JBool(b: bool)
    | JNumber(n: int)
    | JString(s: string)
    | JArray(items: seq<Json>)
    | JObject(fields: map<string, Json>)

  datatype EnvelopeState = InFlightState | DoneState

  datatype Envelope = Envelope(
    state: EnvelopeState, fingerprint: string, requestId: string, stream: bool,
    response: Option<map<string, Json>>, cacheStatus: Option<string>)

  function ToJson(e: Envelope): Json {
    JObject(map[
      "state" := JString(if e.state.DoneState? then "done" else "in_flight"),
      "fingerprint" := JString(e.fingerprint),
      "request_id" := JString(e.requestId),
      "stream" := JBool(e.stream),
      "response" := if e.response.Some? then JObject(e.response.value) else JNull,
      "cache_status" := if e.cacheStatus.Some? then JString(e.cacheStatus.value) else JNull
    ])
  }

  /** `data.get(key)`. */
  function Field(fields: map<string, Json>, key: string): Json {
    if key in fields then fields[key] else JNull
  }

  /** `from_json`; None stands for the ValueError it raises. */
  function FromJson(j: Json): Option<Envelope> {
    if !j.JObject? then None
    else
      var state := Field(j.fields, "state");
      var fingerprint := Field(j.fields, "fingerprint");
      var requestId := Field(j.fields, "request_id");
      var stream := if "stream" in j.fields then j.fields["stream"] else JBool(false);
      var response := Field(j.fields, "response");
      var cacheStatus := Field(j.fields, "cache_status");
      if state != JString("in_flight") && state != JString("done") then None
      else if !fingerprint.JString? || !requestId.JString? || !stream.JBool? then None
      else if !response.JNull? && !response.JObject? then None
      else if !cacheStatus.JNull? && !cacheStatus.JString? then None
      else Some(Envelope(
        if state == JString("done") then DoneState else InFlightState,
        fingerprint.s, requestId.s, stream.b,
        if response.JObject? then Some(response.fields) else None,
        if cacheStatus.JString? then Some(cacheStatus.s) else None))
  }

  const KNOWN_FIELDS: set<string> := {"state", "fingerprint", "request_id", "stream", "response", "cache_status"}

  /** Reading back what was written gives the envelope, also when a newer version added
      fields this one does not know. */
  lemma EnvelopeRoundTrip(e: Envelope, extra: map<string, Json>)
    requires extra.Keys !! KNOWN_FIELDS
    ensures FromJson(JObject(ToJson(e).fields + extra)) == Some(e)
    ensures FromJson(ToJson(e)) == Some(e)
  {
    var fields := ToJson(e).fields + extra;
    assert "state" in KNOWN_FIELDS && "fingerprint" in KNOWN_FIELDS && "request_id" in KNOWN_FIELDS;
    assert "stream" in KNOWN_FIELDS && "response" in KNOWN_FIELDS && "cache_status" in KNOWN_FIELDS;
    assert "done" != "in_flight" by {
      assert |"done"| != |"in_flight"|;
    }
  }

  /** A known field as it is read: a missing stream is false, anything else missing is null. */
  function ReadField(fields: map<string, Json>, key: string): Json {
    if key in fields then fields[key] else if key == "stream" then JBool(false) else JNull
  }

  /** Reading succeeds with an envelope exactly when the stored object says, field by field,
      what writing that envelope says. Anything else, a wrong type included, is refused. */
  lemma ReadsExactly(j: Json, e: Envelope)
    ensures FromJson(j) == Some(e) <==>
      j.JObject? && forall key :: key in KNOWN_FIELDS ==> ReadField(j.fields, key) == ToJson(e).fields[key]
  {
    assert "done" != "in_flight" by {
      assert |"done"| != |"in_flight"|;
    }
    assert |"stream"| == 6 && |"state"| == 5 && |"fingerprint"| == 11 && |"request_id"| == 10;
    assert |"response"| == 8 && |"cache_status"| == 12;
    if j.JObject? {
      assert (forall key :: key in KNOWN_FIELDS ==> ReadField(j.fields, key) == ToJson(e).fields[key]) <==> (
        && ReadField(j.fields, "state") == ToJson(e).fields["state"]
        && ReadField(j.fields, "fingerprint") == ToJson(e).fields["fingerprint"]
        && ReadField(j.fields, "request_id") == ToJson(e).fields["request_id"]
        && ReadField(j.fields, "stream") == ToJson(e).fields["stream"]
        && ReadField(j.fields, "response") == ToJson(e).fields["response"]
        && ReadField(j.fields, "cache_status") == ToJson(e).fields["cache_status"]);
    }
  }

  // ----- the store -------------------------------------------------------------

  datatype Slot = Slot(user: string, key: string)

  datatype Entry = Entry(value: Json, expiresAt: real)

  type Entries = map<Slot, Entry>

  function Written(e: Envelope, now: real): Entry {
    Entry(ToJson(e), now + IDEMPOTENCY_TTL_S)
  }

  predicate Present(entries: Entries, slot: Slot, now: real) {
    slot in entries && now < entries[slot].expiresAt
  }

  datatype ClaimResult =
    | Claimed
    | Replay(envelope: Envelope)
    | InFlight(envelope: Envelope)
    | FingerprintMismatch(envelope: Envelope)

  /** What a claim that lost the NX makes of its GET. */
  function Judge(entries: Entries, slot: Slot, fingerprint: string, now: real): ClaimResult {
    if !Present(entries, slot, now) then Claimed
    else
      match FromJson(entries[slot].value)
      case None => Claimed
      case Some(stored) =>
        if stored.fingerprint != fingerprint then FingerprintMismatch(stored)
        else if stored.state.DoneState? then Replay(stored)
        else InFlight(stored)
  }

  class IdempotencyStore {
    var entries: Entries

    constructor ()
      ensures entries == map[]
    {
      entries := map[];
    }

    /** SET NX EX. */
    method SetNx(slot: Slot, now: real, fingerprint: string, requestId: string, stream: bool) returns (claimed: bool)
      modifies this
      ensures claimed <==> !old(Present(entries, slot, now))
      ensures entries == Apply(old(entries), Step.SetNx(slot, now, fingerprint, requestId, stream))
    {
      claimed := !(slot in entries && now < entries[slot].expiresAt);
      if claimed {
        var envelope := Envelope(InFlightState, fingerprint, requestId, stream, None, None);
        entries := entries[slot := Entry(ToJson(envelope), now + IDEMPOTENCY_TTL_S)];
      }
    }

    /** `claim` with nobody in between its SET and its GET: the two steps of the runs below. */
    method Claim(slot: Slot, fingerprint: string, requestId: string, stream: bool, now: real, later: real)
      returns (r: ClaimResult)
      requires now <= later
      modifies this
      ensures entries == Apply(old(entries), Step.SetNx(slot, now, fingerprint, requestId, stream))
      ensures r == if old(Present(entries, slot, now)) then Judge(entries, slot, fingerprint, later) else Claimed
    {
      var claimed := SetNx(slot, now, fingerprint, requestId, stream);
      if claimed {
        return Claimed;
      }
      if !(slot in entries && later < entries[slot].expiresAt) {
        return Claimed;
      }
      var stored := FromJson(entries[slot].value);
      if stored.None? {
        return Claimed;
      }
      if stored.value.fingerprint != fingerprint {
        return FingerprintMismatch(stored.value);
      }
      if stored.value.state.DoneState? {
        return Replay(stored.value);
      }
      return InFlight(stored.value);
    }

    /** `complete`: an unconditional SET with a fresh TTL. */
    method Complete(slot: Slot, e: Envelope, now: real)
      modifies this
      ensures entries == Apply(old(entries), Step.Complete(slot, now, e))
    {
      entries := entries[slot := Entry(ToJson(e), now + IDEMPOTENCY_TTL_S)];
    }

    /** `release`: an unconditional DEL. */
    method Release(slot: Slot, now: real)
      modifies this
      ensures entries == Apply(old(entries), Step.Release(slot, now))
    {
      entries := entries - {slot};
    }
  }

  // ----- every interleaving ----------------------------------------------------

  /** One Redis command of some request. The GET of a claim may come at any later point. */
  datatype Step =
    | SetNx(slot: Slot, now: real, fingerprint: string, requestId: string, stream: bool)
    | Get(slot: Slot, now: real, fingerprint: string)
    | Complete(slot: Slot, now: real, envelope: Envelope)
    | Release(slot: Slot, now: real)
  {
    /** What a winning claim or a completion leaves in the slot. */
    function Stores(): Envelope
      requires SetNx? || Complete?
    {
      if SetNx? then Envelope(InFlightState, fingerprint, requestId, stream, None, None)
      else envelope
    }
  }

  /** A completion always writes a done envelope with a body, as `complete` builds it. */
  predicate WellFormed(run: seq<Step>) {
    forall i :: 0 <= i < |run| && run[i].Complete? ==> run[i].envelope.state.DoneState? && run[i].envelope.response.Some?
  }

  function Apply(entries: Entries, step: Step): Entries {
    match step
    case SetNx(slot, now, _, _, _) =>
      if Present(entries, slot, now) then entries else entries[slot := Written(step.Stores(), now)]
    case Get(_, _, _) => entries
    case Complete(slot, now, e) => entries[slot := Written(e, now)]
    case Release(slot, _) => entries - {slot}
  }

  function After(run: seq<Step>): Entries {
    if run == [] then map[] else Apply(After(run[..|run| - 1]), run[|run| - 1])
  }

  /** The NX of step i won its slot. */
  predicate Wins(run: seq<Step>, i: nat) {
    i < |run| && run[i].SetNx? && !Present(After(run[..i]), run[i].slot, run[i].now)
  }

  /** Step i put its envelope into the slot. */
  predicate Writes(run: seq<Step>, i: nat, slot: Slot) {
    i < |run| && run[i].slot == slot && (Wins(run, i) || run[i].Complete?)
  }

  predicate Deletes(run: seq<Step>, i: nat, slot: Slot) {
    i < |run| && run[i].slot == slot && run[i].Release?
  }

  /** Step i is the last one before n to write or delete the slot. */
  predicate LastTouch(run: seq<Step>, i: nat, n: nat, slot: Slot) {
    i < n <= |run| && forall m: nat :: i < m < n ==> !Writes(run, m, slot) && !Deletes(run, m, slot)
  }

  ghost predicate StoredBy(run: seq<Step>, n: nat, slot: Slot, i: nat)
    requires n <= |run|
  {
    && slot in After(run[..n])
    && Writes(run, i, slot) && LastTouch(run, i, n, slot)
    && After(run[..n])[slot] == Written(run[i].Stores(), run[i].now)
  }

  /** Whatever a slot holds was put there by the last step that touched it. */
  lemma {:induction false} LastWriteStands(run: seq<Step>, n: nat, slot: Slot)
    requires n <= |run| && slot in After(run[..n])
    ensures exists i: nat :: StoredBy(run, n, slot, i)
  {
    var k := n - 1;
    assert run[..n][..k] == run[..k];
    if Writes(run, k, slot) {
      assert StoredBy(run, n, slot, k);
    } else {
      LastWriteStands(run, k, slot);
      var i: nat :| StoredBy(run, k, slot, i);
      assert StoredBy(run, n, slot, i);
    }
  }

  /** For every interleaving, a replay carries exactly the envelope of an earlier completion
      of the same user and key for the same fingerprint, not yet expired, and nothing has
      written or deleted that slot since. */
  lemma ReplayIsFaithful(run: seq<Step>, j: nat)
    requires WellFormed(run) && j < |run| && run[j].Get?
    requires Judge(After(run[..j]), run[j].slot, run[j].fingerprint, run[j].now).Replay?
    ensures exists i: nat ::
      && i < j && run[i].Complete? && run[i].slot == run[j].slot
      && LastTouch(run, i, j, run[j].slot)
      && Judge(After(run[..j]), run[j].slot, run[j].fingerprint, run[j].now) == Replay(run[i].envelope)
      && run[i].envelope.fingerprint == run[j].fingerprint && run[i].envelope.response.Some?
      && run[j].now < run[i].now + IDEMPOTENCY_TTL_S
  {
    LastWriteStands(run, j, run[j].slot);
    var i: nat :| StoredBy(run, j, run[j].slot, i);
    EnvelopeRoundTrip(run[i].Stores(), map[]);
  }

  /** A slot that was written stays occupied until a release. */
  lemma {:induction false} StaysUntilReleased(run: seq<Step>, i: nat, n: nat, slot: Slot)
    requires i < n <= |run| && Writes(run, i, slot)
    requires forall m: nat :: i < m < n ==> !Deletes(run, m, slot)
    ensures slot in After(run[..n])
  {
    var k := n - 1;
    assert run[..n][..k] == run[..k];
    if i < k {
      StaysUntilReleased(run, i, k, slot);
      assert !Deletes(run, k, slot);
    }
  }

  /** Between two claims that won the NX on one slot there is a release, or the last write
      in between had expired. */
  lemma ClaimsExclude(run: seq<Step>, i: nat, j: nat)
    requires i < j && Wins(run, i) && Wins(run, j) && run[i].slot == run[j].slot
    ensures || (exists m: nat :: i < m < j && Deletes(run, m, run[i].slot))
            || (exists m: nat :: i <= m < j && Writes(run, m, run[i].slot) && run[m].now + IDEMPOTENCY_TTL_S <= run[j].now)
  {
    var slot := run[i].slot;
    if forall m: nat :: i < m < j ==> !Deletes(run, m, slot) {
      StaysUntilReleased(run, i, j, slot);
      LastWriteStands(run, j, slot);
      var m: nat :| StoredBy(run, j, slot, m);
      assert Writes(run, i, slot);
      assert i <= m;
    }
  }

  /** The promise to a retrying client: while a completed answer stands, claims lose the NX,
      the same request replays it and a different one is refused. */
  lemma CompletedIsReplayed(run: seq<Step>, i: nat, n: nat, now: real, fingerprint: string)
    requires i < n <= |run| && WellFormed(run) && run[i].Complete? && LastTouch(run, i, n, run[i].slot)
    requires now < run[i].now + IDEMPOTENCY_TTL_S
    ensures Present(After(run[..n]), run[i].slot, now)
    ensures Judge(After(run[..n]), run[i].slot, fingerprint, now) ==
      if fingerprint == run[i].envelope.fingerprint then Replay(run[i].envelope)
      else FingerprintMismatch(run[i].envelope)
  {
    StandingWrite(run, i, n, run[i].slot);
    EnvelopeRoundTrip(run[i].envelope, map[]);
  }

  /** A winning claim that still stands: while the work runs, a repeat of the request is told
      so, and a different request under the same key is refused. */
  lemma RunningIsInFlight(run: seq<Step>, i: nat, n: nat, now: real, fingerprint: string)
    requires i < n <= |run| && Wins(run, i) && LastTouch(run, i, n, run[i].slot)
    requires now < run[i].now + IDEMPOTENCY_TTL_S
    ensures Present(After(run[..n]), run[i].slot, now)
    ensures Judge(After(run[..n]), run[i].slot, fingerprint, now) ==
      if fingerprint == run[i].fingerprint then InFlight(run[i].Stores()) else FingerprintMismatch(run[i].Stores())
  {
    StandingWrite(run, i, n, run[i].slot);
    EnvelopeRoundTrip(run[i].Stores(), map[]);
  }

  lemma StandingWrite(run: seq<Step>, i: nat, n: nat, slot: Slot)
    requires i < n <= |run| && Writes(run, i, slot) && LastTouch(run, i, n, slot)
    ensures StoredBy(run, n, slot, i)
  {
    StaysUntilReleased(run, i, n, slot);
    LastWriteStands(run, n, slot);
    var m: nat :| StoredBy(run, n, slot, m);
    assert m == i;
  }

  /** A claim that lost the NX goes ahead all the same exactly when, at its GET, the slot is
      gone, expired or unreadable. */
  lemma LoserGoesAheadIff(entries: Entries, slot: Slot, fingerprint: string, now: real)
    ensures Judge(entries, slot, fingerprint, now) == Claimed <==>
      slot !in entries || now >= entries[slot].expiresAt || FromJson(entries[slot].value).None?
  {
  }

  /** And in a run of these commands alone nothing is unreadable: a loser's GET goes ahead
      exactly when the last step to touch the slot was a release, when there was none, or when
      what it wrote has expired; otherwise its answer is what that step wrote. */
  lemma LoserIsAnswered(run: seq<Step>, j: nat)
    requires j < |run| && run[j].Get?
    ensures var answer := Judge(After(run[..j]), run[j].slot, run[j].fingerprint, run[j].now);
      && (answer == Claimed <==>
          !exists i: nat :: (i < j && Writes(run, i, run[j].slot) && LastTouch(run, i, j, run[j].slot)
                             && run[j].now < run[i].now + IDEMPOTENCY_TTL_S))
      && forall i: nat :: (i < j && Writes(run, i, run[j].slot) && LastTouch(run, i, j, run[j].slot)
                           && run[j].now < run[i].now + IDEMPOTENCY_TTL_S) ==>
           answer == if run[i].Stores().fingerprint != run[j].fingerprint then FingerprintMismatch(run[i].Stores())
                     else if run[i].Stores().state.DoneState? then Replay(run[i].Stores())
                     else InFlight(run[i].Stores())
  {
    var slot := run[j].slot;
    forall i: nat | i < j && Writes(run, i, slot) && LastTouch(run, i, j, slot) ensures StoredBy(run, j, slot, i) {
      StandingWrite(run, i, j, slot);
    }
    forall i: nat | i < j && Writes(run, i, slot) ensures FromJson(ToJson(run[i].Stores())) == Some(run[i].Stores()) {
      EnvelopeRoundTrip(run[i].Stores(), map[]);
    }
    if Present(After(run[..j]), slot, run[j].now) {
      LastWriteStands(run, j, slot);
      var i: nat :| StoredBy(run, j, slot, i);
    }
  }
}
