/** The perception lane's walk down its candidates (app/perception/extractors.py): which calls,
    reservations, settlements and breaker reports happen, in which order. What the breaker, the
    quota and the provider answer is arbitrary. */
module ExtractionWalk {
  import opened Common
  import opened ProviderErrors

  /** A tracker may be absent, refuse, or grant with or without something to settle. */
  datatype QuotaAnswer = Untracked | Denied | Granted(reserved: bool)

  datatype Reply =
    | Completed(tokensIn: int, tokensOut: int)
    | Failed(error: ProviderError)
    | Raised

  /** Everything the walk would learn about one candidate if it got that far. */
  datatype Candidate = Candidate(tooBig: bool, admitted: bool, quota: QuotaAnswer, reply: Reply, privateKey: bool) {
    predicate Called() {
      !tooBig && admitted && !quota.Denied?
    }

    predicate Holds() {
      Called() && quota == Granted(true)
    }

    /** The walk goes on to the next candidate. */
    predicate Passed() {
      Called() ==> reply.Failed? && reply.error.FailoverEligible()
    }
  }

  datatype Kind =
    | Ask
    | Reserve
    | Call
    | Commit(tokens: int)
    | Release
    | Succeed
    | Fail(error: ProviderError)
    | MarkKey
    | Persist
  {
    predicate Settles() {
      Commit? || Release?
    }

    predicate Reports() {
      Succeed? || Fail?
    }
  }

  /** One thing done for the candidate at an index. */
  datatype Act = Act(who: nat, kind: Kind)

  datatype Outcome = Extracted(who: nat) | GaveUp | Propagated

  // ----- the walk ----------------------------------------------------------------

  /** `_walk_candidates`. */
  method WalkCandidates(chain: seq<Candidate>) returns (trace: seq<Act>, outcome: Outcome)
    ensures trace == Trace(chain, Reached(chain)) && outcome == Ending(chain)
  {
    hide Tagged;
    hide Kinds;
    trace := [];
    for i := 0 to |chain|
      invariant trace == Trace(chain, i)
      invariant forall j :: 0 <= j < i ==> chain[j].Passed()
    {
      var c := chain[i];
      ReachedAt(chain, i);
      var done := Attempt(c);
      trace := trace + Tagged(done, i);
      if !c.Called() {
        continue;
      }
      match c.reply {
        case Failed(error) =>
          if error.FailoverEligible() {
            continue;
          }
          return trace, GaveUp;
        case Raised =>
          return trace, Propagated;
        case Completed(_, _) =>
          return trace, Extracted(i);
      }
    }
    assert FirstStop(chain).None?;
    outcome := GaveUp;
  }

  /** One turn of the loop up to where it decides whether to go on. */
  method Attempt(c: Candidate) returns (done: seq<Kind>)
    ensures done == Kinds(c)
  {
    done := [];
    if c.tooBig {
      return;
    }
    done := done + [Ask];
    if !c.admitted {
      return;
    }
    if c.quota.Denied? {
      return;
    }
    var holding := c.quota.Granted? && c.quota.reserved;
    if holding {
      done := done + [Reserve];
    }
    done := done + [Call];
    var after := After(c, holding);
    done := done + after;
  }

  /** What the two handlers and the success path do once the call is over. */
  method After(c: Candidate, holding: bool) returns (done: seq<Kind>)
    requires c.Called() && holding == c.Holds()
    ensures done == Aftermath(c)
  {
    done := [];
    match c.reply {
      case Failed(error) =>
        if holding {
          done := done + [Commit(0)];
        }
        done := done + [Fail(error)];
        if error.AuthFailed? && c.privateKey {
          done := done + [MarkKey];
        }
      case Raised =>
        if holding {
          done := done + [Release];
        }
      case Completed(tokensIn, tokensOut) =>
        if holding {
          done := done + [Commit(tokensIn + tokensOut)];
        }
        done := done + [Succeed] + [Persist];
    }
  }

  // ----- what the walk should do ---------------------------------------------------

  /** What follows a call. */
  function Aftermath(c: Candidate): seq<Kind> {
    match c.reply
    case Completed(i, o) => (if c.Holds() then [Commit(i + o)] else []) + [Succeed, Persist]
    case Failed(e) => (if c.Holds() then [Commit(0)] else []) + [Fail(e)] + (if e.AuthFailed? && c.privateKey then [MarkKey] else [])
    case Raised => if c.Holds() then [Release] else []
  }

  function Kinds(c: Candidate): seq<Kind> {
    if c.tooBig then []
    else if !c.Called() then [Ask]
    else [Ask] + (if c.Holds() then [Reserve] else []) + [Call] + Aftermath(c)
  }

  function Tagged(kinds: seq<Kind>, who: nat): seq<Act> {
    seq(|kinds|, k requires 0 <= k < |kinds| => Act(who, kinds[k]))
  }

  function Trace(chain: seq<Candidate>, n: nat): seq<Act>
    requires n <= |chain|
  {
    if n == 0 then [] else Trace(chain, n - 1) + Tagged(Kinds(chain[n - 1]), n - 1)
  }

  /** The first candidate the walk stops at, if any. */
  function FirstStop(chain: seq<Candidate>, from: nat := 0): (r: Option<nat>)
    requires from <= |chain|
    ensures r.None? ==> forall j :: from <= j < |chain| ==> chain[j].Passed()
    ensures r.Some? ==> from <= r.value < |chain| && !chain[r.value].Passed()
    ensures r.Some? ==> forall j :: from <= j < r.value ==> chain[j].Passed()
    decreases |chain| - from
  {
    if from == |chain| then None
    else if !chain[from].Passed() then Some(from)
    else FirstStop(chain, from + 1)
  }

  /** How many candidates the walk looks at. */
  function Reached(chain: seq<Candidate>): (n: nat)
    ensures n <= |chain|
  {
    if FirstStop(chain).None? then |chain| else FirstStop(chain).value + 1
  }

  function Ending(chain: seq<Candidate>): Outcome {
    var stop := FirstStop(chain);
    if stop.None? then GaveUp
    else match chain[stop.value].reply
      case Completed(_, _) => Extracted(stop.value)
      case Failed(_) => GaveUp
      case Raised => Propagated
  }

  lemma ReachedAt(chain: seq<Candidate>, i: nat)
    requires i < |chain| && forall j :: 0 <= j < i ==> chain[j].Passed()
    ensures !chain[i].Passed() ==> FirstStop(chain) == Some(i) && Reached(chain) == i + 1
  {
  }


  // ----- what holds of every walk ----------------------------------------------------

  /** How often something was done for one candidate. */
  function Times(trace: seq<Act>, who: nat, what: Kind -> bool): nat {
    if trace == [] then 0
    else
      var last := trace[|trace| - 1];
      Times(trace[..|trace| - 1], who, what) + if last.who == who && what(last.kind) then 1 else 0
  }

  lemma {:induction false} TimesConcat(a: seq<Act>, b: seq<Act>, who: nat, what: Kind -> bool)
    ensures Times(a + b, who, what) == Times(a, who, what) + Times(b, who, what)
  {
    if b == [] {
      assert a + b == a;
    } else {
      assert (a + b)[..|a + b| - 1] == a + b[..|b| - 1];
      TimesConcat(a, b[..|b| - 1], who, what);
    }
  }

  lemma {:induction false} TimesOther(acts: seq<Act>, who: nat, what: Kind -> bool)
    requires forall k :: 0 <= k < |acts| ==> acts[k].who != who
    ensures Times(acts, who, what) == 0
  {
    if acts != [] {
      TimesOther(acts[..|acts| - 1], who, what);
    }
  }

  /** The same over one candidate's own list. */
  function Among(kinds: seq<Kind>, what: Kind -> bool): nat {
    if kinds == [] then 0
    else Among(kinds[..|kinds| - 1], what) + if what(kinds[|kinds| - 1]) then 1 else 0
  }

  lemma {:induction false} TimesAmong(kinds: seq<Kind>, acts: seq<Act>, who: nat, what: Kind -> bool)
    requires |acts| == |kinds| && forall k :: 0 <= k < |acts| ==> acts[k] == Act(who, kinds[k])
    ensures Times(acts, who, what) == Among(kinds, what)
  {
    if acts != [] {
      var n := |acts| - 1;
      TimesAmong(kinds[..n], acts[..n], who, what);
    }
  }

  lemma {:induction false} AmongConcat(a: seq<Kind>, b: seq<Kind>, what: Kind -> bool)
    ensures Among(a + b, what) == Among(a, what) + Among(b, what)
  {
    if b == [] {
      assert a + b == a;
    } else {
      assert (a + b)[..|a + b| - 1] == a + b[..|b| - 1];
      AmongConcat(a, b[..|b| - 1], what);
    }
  }

  /** A candidate's acts happen in its own turn, if it gets one, and nowhere else. */
  lemma {:induction false} TimesInTrace(chain: seq<Candidate>, n: nat, who: nat, what: Kind -> bool)
    requires n <= |chain|
    ensures Times(Trace(chain, n), who, what) == if who < n then Among(Kinds(chain[who]), what) else 0
  {
    hide Kinds;
    if n > 0 {
      var acts := Tagged(Kinds(chain[n - 1]), n - 1);
      TimesInTrace(chain, n - 1, who, what);
      TimesConcat(Trace(chain, n - 1), acts, who, what);
      if who == n - 1 {
        TimesAmong(Kinds(chain[who]), acts, who, what);
      } else {
        TimesOther(acts, who, what);
      }
    }
  }

  lemma AmongOne(kind: Kind, what: Kind -> bool)
    ensures Among([], what) == 0 && Among([kind], what) == if what(kind) then 1 else 0
  {
    assert [kind][..0] == [];
  }

  /** Counting in one candidate's turn, part by part. */
  lemma AmongKinds(c: Candidate, what: Kind -> bool)
    requires c.Called()
    ensures Among(Kinds(c), what) ==
      Among([Ask], what) + Among(if c.Holds() then [Reserve] else [], what) + Among([Call], what) + Among(Aftermath(c), what)
  {
    hide Among;
    var reserve := if c.Holds() then [Reserve] else [];
    AmongConcat([Ask], reserve, what);
    AmongConcat([Ask] + reserve, [Call], what);
    AmongConcat([Ask] + reserve + [Call], Aftermath(c), what);
  }

  lemma AmongAftermath(c: Candidate, what: Kind -> bool)
    requires c.Called()
    ensures Among(Aftermath(c), what) == TallyAfter(c, what)
  {
    hide Among;
    match c.reply
    case Completed(i, o) =>
      AmongOne(Commit(i + o), what);
      AmongConcat(if c.Holds() then [Commit(i + o)] else [], [Succeed, Persist], what);
      assert [Succeed, Persist] == [Succeed] + [Persist];
      AmongConcat([Succeed], [Persist], what);
      AmongOne(Succeed, what);
      AmongOne(Persist, what);
    case Failed(e) =>
      var first, last := if c.Holds() then [Commit(0)] else [], if e.AuthFailed? && c.privateKey then [MarkKey] else [];
      AmongOne(Commit(0), what);
      AmongOne(Fail(e), what);
      AmongOne(MarkKey, what);
      AmongConcat(first, [Fail(e)], what);
      AmongConcat(first + [Fail(e)], last, what);
    case Raised =>
      AmongOne(Release, what);
  }

  function One(b: bool): nat {
    if b then 1 else 0
  }

  /** How many such acts one candidate's turn has. */
  function Tally(c: Candidate, what: Kind -> bool): nat {
    One(!c.tooBig && what(Ask)) +
    if !c.Called() then 0
    else One(c.Holds() && what(Reserve)) + One(what(Call)) + TallyAfter(c, what)
  }

  function TallyAfter(c: Candidate, what: Kind -> bool): nat {
    match c.reply
    case Completed(i, o) => One(c.Holds() && what(Commit(i + o))) + One(what(Succeed)) + One(what(Persist))
    case Failed(e) => One(c.Holds() && what(Commit(0))) + One(what(Fail(e))) + One(e.AuthFailed? && c.privateKey && what(MarkKey))
    case Raised => One(c.Holds() && what(Release))
  }

  /** Counting in the whole trace is counting in the candidate's turn. */
  lemma TimesOf(chain: seq<Candidate>, who: nat, what: Kind -> bool)
    ensures Times(Trace(chain, Reached(chain)), who, what) == if who < Reached(chain) then Tally(chain[who], what) else 0
  {
    hide Among;
    hide Aftermath;
    hide TallyAfter;
    hide Reached;
    TimesInTrace(chain, Reached(chain), who, what);
    AmongOne(Ask, what);
    AmongOne(Reserve, what);
    AmongOne(Call, what);
    if who < Reached(chain) && chain[who].Called() {
      AmongKinds(chain[who], what);
      AmongAftermath(chain[who], what);
    }
  }

  /** Who is called: exactly a candidate the file fits, the breaker admits and the quota does
      not refuse, once every one before it was skipped or failed in a way worth failing over. */
  lemma CalledExactly(chain: seq<Candidate>, who: nat)
    requires who < |chain|
    ensures Times(Trace(chain, Reached(chain)), who, (k: Kind) => k.Call?) == One(
      && !chain[who].tooBig && chain[who].admitted && !chain[who].quota.Denied?
      && forall j :: 0 <= j < who ==>
           || chain[j].tooBig || !chain[j].admitted || chain[j].quota.Denied?
           || (chain[j].reply.Failed? && chain[j].reply.error.FailoverEligible()))
  {
    TimesOf(chain, who, (k: Kind) => k.Call?);
    hide Times;
    hide Trace;
    if forall j :: 0 <= j < who ==> chain[j].Passed() {
      ReachedAt(chain, who);
    }
  }

  /** Whatever the breaker, the quota and the providers answer: a candidate is called and
      reserved for at most once; a reservation is settled exactly once, released exactly when
      the call raised something that is no provider error, and otherwise committed. */
  lemma SettledExactlyOnce(chain: seq<Candidate>, who: nat)
    ensures var trace := Trace(chain, Reached(chain));
      var held := Times(trace, who, (k: Kind) => k.Reserve?);
      && held <= Times(trace, who, (k: Kind) => k.Call?) <= 1
      && Times(trace, who, (k: Kind) => k.Settles()) == held
      && Times(trace, who, (k: Kind) => k.Release?) == if who < |chain| && chain[who].reply.Raised? then held else 0
  {
    hide Times;
    hide Trace;
    hide Reached;
    TimesOf(chain, who, (k: Kind) => k.Reserve?);
    TimesOf(chain, who, (k: Kind) => k.Call?);
    TimesOf(chain, who, (k: Kind) => k.Settles());
    TimesOf(chain, who, (k: Kind) => k.Release?);
  }

  /** What a commit charges: the actual tokens after a completion, none after a failure. */
  lemma CommitsTheActual(chain: seq<Candidate>, who: nat, tokens: int)
    ensures Times(Trace(chain, Reached(chain)), who, (k: Kind) => k == Commit(tokens)) ==
      if who < Reached(chain) && chain[who].Holds() && (
           match chain[who].reply
           case Completed(i, o) => tokens == i + o
           case Failed(_) => tokens == 0
           case Raised => false)
      then 1 else 0
  {
    hide Times;
    hide Trace;
    hide Reached;
    TimesOf(chain, who, (k: Kind) => k == Commit(tokens));
  }

  /** The breaker hears of a call exactly once, and not at all of one that raised. */
  lemma ReportedOnce(chain: seq<Candidate>, who: nat)
    ensures var trace := Trace(chain, Reached(chain));
      Times(trace, who, (k: Kind) => k.Reports()) ==
      if who < |chain| && chain[who].reply.Raised? then 0 else Times(trace, who, (k: Kind) => k.Call?)
  {
    hide Times;
    hide Trace;
    hide Reached;
    TimesOf(chain, who, (k: Kind) => k.Reports());
    TimesOf(chain, who, (k: Kind) => k.Call?);
  }

  /** What is reported is what happened: a success exactly for a completion, which is also what
      is persisted, and a failure with the very error exactly for a provider error; the key is
      marked exactly when a private one failed to authenticate. */
  lemma ReportsTheOutcome(chain: seq<Candidate>, who: nat, e: ProviderError)
    requires who < |chain|
    ensures var trace, c := Trace(chain, Reached(chain)), chain[who];
      var called := who < Reached(chain) && c.Called();
      && Times(trace, who, (k: Kind) => k.Succeed?) == One(called && c.reply.Completed?)
      && Times(trace, who, (k: Kind) => k.Persist?) == One(called && c.reply.Completed?)
      && Times(trace, who, (k: Kind) => k == Fail(e)) == One(called && c.reply == Failed(e))
      && Times(trace, who, (k: Kind) => k.MarkKey?) == One(called && c.reply == Failed(AuthFailed) && c.privateKey)
  {
    hide Times;
    hide Trace;
    hide Reached;
    TimesOf(chain, who, (k: Kind) => k.Succeed?);
    TimesOf(chain, who, (k: Kind) => k.Persist?);
    TimesOf(chain, who, (k: Kind) => k == Fail(e));
    TimesOf(chain, who, (k: Kind) => k.MarkKey?);
  }

  /** An ask the breaker admitted is reported back exactly when the call was made and did not
      raise: a quota refusal or a raise leaves a granted probe to its lease. */
  lemma AdmittedAskReportedIff(chain: seq<Candidate>, who: nat)
    requires who < |chain|
    ensures var trace, c := Trace(chain, Reached(chain)), chain[who];
      && Times(trace, who, (k: Kind) => k.Ask?) == One(who < Reached(chain) && !c.tooBig)
      && (Times(trace, who, (k: Kind) => k.Ask?) == 1 && c.admitted ==>
          Times(trace, who, (k: Kind) => k.Reports()) == One(!c.quota.Denied? && !c.reply.Raised?))
  {
    hide Times;
    hide Trace;
    hide Reached;
    TimesOf(chain, who, (k: Kind) => k.Ask?);
    TimesOf(chain, who, (k: Kind) => k.Reports());
  }

  // ----- order -------------------------------------------------------------------------

  /** One candidate is finished with before the next is looked at, so no two reservations are
      ever open together. */
  lemma {:induction false} OneAtATime(chain: seq<Candidate>, n: nat, p: nat, q: nat)
    requires n <= |chain| && p < q < |Trace(chain, n)|
    ensures Trace(chain, n)[p].who <= Trace(chain, n)[q].who < n
  {
    hide Kinds;
    var before := Trace(chain, n - 1);
    if q < |before| {
      OneAtATime(chain, n - 1, p, q);
    } else if p < |before| {
      InRange(chain, n - 1, p);
    }
  }

  lemma {:induction false} InRange(chain: seq<Candidate>, n: nat, p: nat)
    requires n <= |chain| && p < |Trace(chain, n)|
    ensures var act := Trace(chain, n)[p]; act.who < n && act.kind in Kinds(chain[act.who])
  {
    hide Kinds;
    var before := Trace(chain, n - 1);
    if p < |before| {
      InRange(chain, n - 1, p);
    } else {
      assert Trace(chain, n)[p] == Tagged(Kinds(chain[n - 1]), n - 1)[p - |before|];
    }
  }

  /** In a candidate's turn the reservation is made just before the call and settled just
      after it, before the breaker or the caller hears of the result. */
  lemma TurnInOrder(c: Candidate, r: nat, s: nat)
    requires r < |Kinds(c)| && Kinds(c)[r].Reserve? && s < |Kinds(c)| && Kinds(c)[s].Settles()
    ensures s == r + 2 && Kinds(c)[r + 1].Call?
    ensures forall k :: 0 <= k < |Kinds(c)| && Kinds(c)[k].Reports() ==> s < k
  {
    assert [Ask] + [Reserve] + [Call] == [Ask, Reserve, Call];
    assert c.Holds() ==> Kinds(c) == [Ask, Reserve, Call] + Aftermath(c);
  }

  /** After a call that did not end in a failure worth failing over for, nothing is done for
      any other candidate, called ones included. */
  lemma NothingAfterStop(chain: seq<Candidate>, p: nat, q: nat)
    requires p < q < |Trace(chain, Reached(chain))| && Trace(chain, Reached(chain))[p].kind == Call
    ensures var trace := Trace(chain, Reached(chain));
      && trace[p].who < |chain|
      && var reply := chain[trace[p].who].reply;
        trace[q].who != trace[p].who ==> reply.Failed? && reply.error.FailoverEligible()
  {
    var n := Reached(chain);
    var i := Trace(chain, n)[p].who;
    InRange(chain, n, p);
    assert Call in Kinds(chain[i]) ==> chain[i].Called();
    OneAtATime(chain, n, p, q);
  }

  /** The walk extracts with a candidate exactly when that one is called and completes, and
      every one before it was skipped or failed in a way worth failing over for. */
  lemma ExtractsIff(chain: seq<Candidate>, who: nat)
    ensures Ending(chain) == Extracted(who) <==>
      && who < |chain| && chain[who].Called() && chain[who].reply.Completed?
      && forall j :: 0 <= j < who && chain[j].Called() ==> chain[j].reply.Failed? && chain[j].reply.error.FailoverEligible()
  {
    if who < |chain| && chain[who].Called() && chain[who].reply.Completed?
       && forall j :: 0 <= j < who && chain[j].Called() ==> chain[j].reply.Failed? && chain[j].reply.error.FailoverEligible()
    {
      ReachedAt(chain, who);
    }
  }
}
