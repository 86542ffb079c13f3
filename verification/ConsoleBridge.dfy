/**
 * The host side of the plugin console bridge. Each method of the class is one step of the event loop:
 * a message arrives up to the point where the handler waits, a waiting call settles, or the host
 * revokes the bridge. The state also keeps the history that the properties speak about.
 */
module ConsoleBridge {
  import opened Sequences

  const MAX_REQUEST_BYTES := 1 * 1024 * 1024
  const MAX_RESPONSE_BYTES := 8 * 1024 * 1024
  const MAX_CONCURRENT_CALLS := 4

  /** The length of a value as UTF-8 JSON, infinite when it cannot be encoded. */
  datatype Length = Infinite | Bytes(count: nat)

  predicate Exceeds(length: Length, limit: nat) {
    length.Infinite? || length.count > limit
  }

  /** What the host's revalidation does: it may also throw, which ends the handler. */
  datatype Revalidation = Passes | Refuses(reason: string) | Throws

  /** `failsAtOnce`: the tool call throws before it returns a promise. */
  datatype Message =
    | NotAnObject
    | OtherType
    | Failed
    | Invoke(id: string, toolId: string, payload: Length, revalidation: Revalidation, failsAtOnce: bool)

  datatype Settlement = Fulfilled(result: Length) | Rejected

  datatype ErrorCode = RevalidationFailed | ToolDenied | PayloadTooLarge | ConcurrencyLimit

  datatype Outcome = Success(result: Length) | Error(code: ErrorCode)

  datatype Post = Reply(call: nat, id: string, outcome: Outcome) | RevokeNotice(reason: string)

  /** What became of the call with a given message number. */
  datatype Fate = Ignored | InFlight | Answered(taken: bool, outcome: Outcome) | Dropped

  /** `replyTaken` and `noticeTaken` say whether the port accepts the post; a refusal is swallowed. */
  datatype Event =
    | Receive(message: Message, replyTaken: bool, noticeTaken: bool)
    | Settle(call: nat, settlement: Settlement, replyTaken: bool)
    | Revoke(reason: string, noticeTaken: bool)

  /** The tools of the surface, and whether the host supplied a way to invoke them. */
  datatype Surface = Surface(toolIds: seq<string>, invokable: bool)

  /**
   * The bridge: the first six fields are the closure's own (the controllers are named by the number of
   * their call, and `waiting` holds the suspended handlers); the rest is history.
   */
  datatype State = State(
    revoked: bool,
    portOpen: bool,
    inFlight: int,
    controllers: seq<nat>,
    aborted: set<nat>,
    waiting: map<nat, string>,
    received: seq<Message>,
    fates: seq<Fate>,
    posted: seq<Post>,
    revokedAt: Option<nat>)

  const INITIAL := State(false, true, 0, [], {}, map[], [], [], [], None)

  predicate IsAlphanumeric(c: char) {
    'a' <= c <= 'z' || 'A' <= c <= 'Z' || '0' <= c <= '9'
  }

  /** `^[A-Za-z0-9._-]{1,128}$` */
  predicate IsInvokeId(s: string) {
    1 <= |s| <= 128 && forall c | c in s :: IsAlphanumeric(c) || c in "._-"
  }

  /** `^[a-z][a-zA-Z0-9._-]*$` */
  predicate IsToolId(s: string) {
    s != "" && 'a' <= s[0] <= 'z' && forall c | c in s[1..] :: IsAlphanumeric(c) || c in "._-"
  }

  /** The bridge owes an answer to such a message unless it was revoked first. */
  predicate WellFormed(m: Message) {
    m.Invoke? && IsInvokeId(m.id) && !m.revalidation.Throws?
  }

  /** The message passes every check that does not depend on the load. */
  predicate Admissible(surface: Surface, m: Message) {
    WellFormed(m) && m.revalidation.Passes? && m.toolId in surface.toolIds && IsToolId(m.toolId) &&
    !Exceeds(m.payload, MAX_REQUEST_BYTES) && surface.invokable
  }

  function Refusal(surface: Surface, inFlight: int, m: Message): Option<ErrorCode>
    requires m.Invoke?
  {
    if m.toolId !in surface.toolIds || !IsToolId(m.toolId) then Some(ToolDenied)
    else if Exceeds(m.payload, MAX_REQUEST_BYTES) then Some(PayloadTooLarge)
    else if inFlight >= MAX_CONCURRENT_CALLS then Some(ConcurrencyLimit)
    else if !surface.invokable then Some(ToolDenied)
    else None
  }

  function OutcomeOf(settlement: Settlement): Outcome {
    match settlement
    case Rejected => Error(ToolDenied)
    case Fulfilled(result) =>
      if Exceeds(result, MAX_RESPONSE_BYTES) then Error(PayloadTooLarge) else Success(result)
  }

  function Posting(s: State, post: Post, taken: bool): seq<Post> {
    if taken then s.posted + [post] else s.posted
  }

  function ReplyStep(s: State, call: nat, id: string, outcome: Outcome, taken: bool): State
    requires call < |s.fates|
  {
    if s.revoked then s.(fates := s.fates[call := Dropped])
    else s.(posted := Posting(s, Reply(call, id, outcome), taken), fates := s.fates[call := Answered(taken, outcome)])
  }

  function RevokeStep(s: State, reason: string, taken: bool): State {
    if s.revoked then s
    else s.(revoked := true, portOpen := false, aborted := s.aborted + ToSet(s.controllers), controllers := [],
            posted := Posting(s, RevokeNotice(if reason == "" then "plugin_console_revoked" else reason), taken),
            revokedAt := Some(|s.received|))
  }

  /** The message is counted before anything else happens. */
  function Arrive(s: State, m: Message): State {
    s.(received := s.received + [m], fates := s.fates + [Ignored])
  }

  function AcceptStep(s: State, call: nat, id: string): State
    requires call < |s.fates|
  {
    s.(inFlight := s.inFlight + 1, controllers := s.controllers + [call],
       waiting := s.waiting[call := id], fates := s.fates[call := InFlight])
  }

  function InvokeStep(surface: Surface, s: State, m: Message, replyTaken: bool, noticeTaken: bool): State
    requires m.Invoke? && |s.fates| > 0
  {
    var call := |s.fates| - 1;
    if s.revoked || !IsInvokeId(m.id) then s
    else
      match m.revalidation
      case Throws => s
      case Refuses(reason) =>
        RevokeStep(ReplyStep(s, call, m.id, Error(RevalidationFailed), replyTaken),
                   if reason == "" then "plugin_console_revalidation_failed" else reason, noticeTaken)
      case Passes =>
        match Refusal(surface, s.inFlight, m)
        case Some(code) => ReplyStep(s, call, m.id, Error(code), replyTaken)
        case None =>
          if m.failsAtOnce then ReplyStep(s, call, m.id, Error(ToolDenied), replyTaken)
          else AcceptStep(s, call, m.id)
  }

  function Without(s: seq<nat>, x: nat): seq<nat> {
    var i := IndexOf(s, x);
    if i < 0 then s else s[..i] + s[i + 1..]
  }

  function SettleStep(s: State, call: nat, settlement: Settlement, taken: bool): State
    requires call in s.waiting && call < |s.fates|
  {
    var replied := ReplyStep(s, call, s.waiting[call], OutcomeOf(settlement), taken);
    replied.(inFlight := if s.inFlight - 1 < 0 then 0 else s.inFlight - 1,
             controllers := Without(s.controllers, call),
             waiting := s.waiting - {call})
  }

  /** A step; a call that does not wait cannot settle. */
  function Step(surface: Surface, s: State, e: Event): State {
    match e
    case Revoke(reason, taken) => RevokeStep(s, reason, taken)
    case Settle(call, settlement, taken) =>
      if call in s.waiting && call < |s.fates| then SettleStep(s, call, settlement, taken) else s
    case Receive(m, replyTaken, noticeTaken) =>
      var arrived := Arrive(s, m);
      match m
      case Invoke(_, _, _, _, _) => InvokeStep(surface, arrived, m, replyTaken, noticeTaken)
      case Failed => RevokeStep(arrived, "plugin_console_failed", noticeTaken)
      case _ => arrived
  }

  /** The state after any sequence of events. */
  function Run(surface: Surface, events: seq<Event>): State {
    if events == [] then INITIAL
    else Step(surface, Run(surface, events[..|events| - 1]), events[|events| - 1])
  }

  // ----- the invariant

  ghost predicate CallsAccounted(surface: Surface, s: State) {
    |s.fates| == |s.received| && s.inFlight == |s.waiting| <= MAX_CONCURRENT_CALLS &&
    (forall c: nat :: c in s.waiting <==> c < |s.fates| && s.fates[c] == InFlight) &&
    forall c | c in s.waiting ::
      c < |s.received| && Admissible(surface, s.received[c]) && s.waiting[c] == s.received[c].id
  }

  ghost predicate ControllersAccounted(s: State) {
    s.portOpen == !s.revoked &&
    if s.revoked then s.controllers == [] && s.waiting.Keys <= s.aborted
    else Distinct(s.controllers) && ToSet(s.controllers) == s.waiting.Keys && s.aborted == {}
  }

  ghost predicate NoticeIsLast(s: State) {
    forall i | 0 <= i < |s.posted| && s.posted[i].RevokeNotice? :: s.revoked && i == |s.posted| - 1
  }

  ghost predicate RepliesAccounted(s: State) {
    |s.fates| == |s.received| &&
    (forall i | 0 <= i < |s.posted| && s.posted[i].Reply? ::
       var r := s.posted[i];
       r.call < |s.fates| && s.fates[r.call] == Answered(true, r.outcome) &&
       s.received[r.call].Invoke? && r.id == s.received[r.call].id) &&
    (forall i, j | 0 <= i < j < |s.posted| && s.posted[i].Reply? && s.posted[j].Reply? ::
       s.posted[i].call != s.posted[j].call) &&
    forall c | 0 <= c < |s.fates| && s.fates[c].Answered? && s.fates[c].taken ::
      s.received[c].Invoke? && Reply(c, s.received[c].id, s.fates[c].outcome) in s.posted
  }

  ghost predicate FatesAccounted(surface: Surface, s: State) {
    |s.fates| == |s.received| && (s.revoked <==> s.revokedAt.Some?) &&
    forall c | 0 <= c < |s.fates| ::
      (s.fates[c].Dropped? ==> s.revoked) &&
      (!s.fates[c].Ignored? ==> WellFormed(s.received[c])) &&
      (s.fates[c].Answered? && s.fates[c].outcome.Success? ==>
         Admissible(surface, s.received[c]) && !Exceeds(s.fates[c].outcome.result, MAX_RESPONSE_BYTES)) &&
      (WellFormed(s.received[c]) ==>
         (s.fates[c].Ignored? <==> s.revokedAt.Some? && c >= s.revokedAt.value))
  }

  ghost predicate Inv(surface: Surface, s: State) {
    CallsAccounted(surface, s) && ControllersAccounted(s) && NoticeIsLast(s) && RepliesAccounted(s) &&
    FatesAccounted(surface, s) && (s.revokedAt.Some? ==> s.revokedAt.value <= |s.received|)
  }

  lemma ReplyKeepsReplies(s: State, call: nat, id: string, outcome: Outcome, taken: bool)
    requires RepliesAccounted(s) && call < |s.fates| && !s.fates[call].Answered?
    requires s.received[call].Invoke? && id == s.received[call].id
    ensures RepliesAccounted(ReplyStep(s, call, id, outcome, taken))
  {
    var t := ReplyStep(s, call, id, outcome, taken);
    if !s.revoked && taken { assert t.posted[|s.posted|] == Reply(call, id, outcome); }
    forall c | 0 <= c < |t.fates| && t.fates[c].Answered? && t.fates[c].taken
      ensures s.received[c].Invoke? && Reply(c, s.received[c].id, t.fates[c].outcome) in t.posted
    {
      if c != call { assert Reply(c, s.received[c].id, s.fates[c].outcome) in s.posted; }
    }
  }

  lemma RevokeKeepsInv(surface: Surface, s: State, reason: string, taken: bool)
    requires Inv(surface, s)
    ensures Inv(surface, RevokeStep(s, reason, taken))
  {
    var t := RevokeStep(s, reason, taken);
    forall c | 0 <= c < |t.fates| && t.fates[c].Answered? && t.fates[c].taken
      ensures Reply(c, s.received[c].id, t.fates[c].outcome) in t.posted
    {
      assert Reply(c, s.received[c].id, s.fates[c].outcome) in s.posted;
    }
  }

  lemma ArriveKeepsReplies(s: State, m: Message)
    requires RepliesAccounted(s)
    ensures RepliesAccounted(Arrive(s, m))
  {
    var t := Arrive(s, m);
    forall c | 0 <= c < |t.fates| && t.fates[c].Answered? && t.fates[c].taken
      ensures t.received[c].Invoke? && Reply(c, t.received[c].id, t.fates[c].outcome) in t.posted
    {
      assert Reply(c, s.received[c].id, s.fates[c].outcome) in s.posted;
    }
  }

  /** An arrived message is the one exception to the accounting: it has no fate yet. */
  ghost predicate Fresh(surface: Surface, s: State) {
    |s.received| > 0 && |s.fates| == |s.received| && s.fates[|s.fates| - 1].Ignored? &&
    CallsAccounted(surface, s) && ControllersAccounted(s) && NoticeIsLast(s) && RepliesAccounted(s) &&
    (s.revoked <==> s.revokedAt.Some?) && (s.revokedAt.Some? ==> s.revokedAt.value < |s.received|) &&
    var before := s.(received := s.received[..|s.received| - 1], fates := s.fates[..|s.fates| - 1]);
    FatesAccounted(surface, before)
  }

  lemma ArriveIsFresh(surface: Surface, s: State, m: Message)
    requires Inv(surface, s)
    ensures Fresh(surface, Arrive(s, m))
    ensures s.revoked || !WellFormed(m) ==> Inv(surface, Arrive(s, m))
  {
    var t := Arrive(s, m);
    ArriveKeepsReplies(s, m);
    assert t.(received := t.received[..|t.received| - 1], fates := t.fates[..|t.fates| - 1]) == s;
  }

  lemma AnswerKeepsInv(surface: Surface, s: State, outcome: Outcome, taken: bool)
    requires Fresh(surface, s) && !s.revoked && WellFormed(s.received[|s.received| - 1]) && outcome.Error?
    ensures var call := |s.fates| - 1;
            Inv(surface, ReplyStep(s, call, s.received[call].id, outcome, taken))
  {
    var call := |s.fates| - 1;
    ReplyKeepsReplies(s, call, s.received[call].id, outcome, taken);
    var before := s.(received := s.received[..call], fates := s.fates[..call]);
    assert forall c | 0 <= c < call :: before.received[c] == s.received[c] && before.fates[c] == s.fates[c];
  }

  /** Replies do not care which unanswered fate a call has. */
  lemma UnansweredKeepsReplies(s: State, t: State, call: nat)
    requires RepliesAccounted(s) && call < |s.fates| && !s.fates[call].Answered?
    requires t.received == s.received && t.posted == s.posted
    requires |t.fates| == |s.fates| && !t.fates[call].Answered? && t.fates == s.fates[call := t.fates[call]]
    ensures RepliesAccounted(t)
  {
    forall c | 0 <= c < |t.fates| && t.fates[c].Answered? && t.fates[c].taken
      ensures t.received[c].Invoke? && Reply(c, t.received[c].id, t.fates[c].outcome) in t.posted
    {
      assert c != call && t.fates[c] == s.fates[c];
    }
  }

  lemma AcceptKeepsCalls(surface: Surface, s: State)
    requires Fresh(surface, s) && !s.revoked && Admissible(surface, s.received[|s.received| - 1])
    requires s.inFlight < MAX_CONCURRENT_CALLS
    ensures var call := |s.fates| - 1;
            CallsAccounted(surface, AcceptStep(s, call, s.received[call].id))
  {
    var call := |s.fates| - 1;
    var t := AcceptStep(s, call, s.received[call].id);
    assert call !in s.waiting && |t.waiting| == |s.waiting| + 1;
  }

  lemma AcceptKeepsControllers(surface: Surface, s: State)
    requires Fresh(surface, s) && !s.revoked && Admissible(surface, s.received[|s.received| - 1])
    ensures var call := |s.fates| - 1; ControllersAccounted(AcceptStep(s, call, s.received[call].id))
  {
    var call := |s.fates| - 1;
    var t := AcceptStep(s, call, s.received[call].id);
    assert call !in ToSet(s.controllers) && ToSet(t.controllers) == ToSet(s.controllers) + {call};
  }

  lemma AcceptKeepsFates(surface: Surface, s: State)
    requires Fresh(surface, s) && !s.revoked && Admissible(surface, s.received[|s.received| - 1])
    ensures var call := |s.fates| - 1; FatesAccounted(surface, AcceptStep(s, call, s.received[call].id))
  {
    var call := |s.fates| - 1;
    var before := s.(received := s.received[..call], fates := s.fates[..call]);
    assert forall c | 0 <= c < call :: before.received[c] == s.received[c] && before.fates[c] == s.fates[c];
  }

  lemma AcceptKeepsInv(surface: Surface, s: State)
    requires Fresh(surface, s) && !s.revoked && Admissible(surface, s.received[|s.received| - 1])
    requires s.inFlight < MAX_CONCURRENT_CALLS
    ensures var call := |s.fates| - 1; Inv(surface, AcceptStep(s, call, s.received[call].id))
  {
    var call := |s.fates| - 1;
    AcceptKeepsCalls(surface, s);
    AcceptKeepsControllers(surface, s);
    AcceptKeepsFates(surface, s);
    UnansweredKeepsReplies(s, AcceptStep(s, call, s.received[call].id), call);
  }

  lemma WithoutExact(s: seq<nat>, x: nat)
    requires Distinct(s)
    ensures Distinct(Without(s, x)) && ToSet(Without(s, x)) == ToSet(s) - {x}
  {
    var i := IndexOf(s, x);
    if i >= 0 {
      CutOutDistinct(s[..i], x, s[i + 1..]);
      assert s == s[..i] + [x] + s[i + 1..];
    }
  }

  lemma CutOutDistinct(a: seq<nat>, x: nat, b: seq<nat>)
    requires Distinct(a + [x] + b)
    ensures Distinct(a + b) && ToSet(a + b) == ToSet(a + [x] + b) - {x}
  {
    var s, t := a + [x] + b, a + b;
    forall i | 0 <= i < |t| ensures t[i] == s[if i < |a| then i else i + 1] && t[i] != x {
      assert s[|a|] == x;
    }
    forall y ensures y in t <==> y in s && y != x {
      if y in s && y != x { assert y in a || y in b; }
    }
  }

  lemma WithoutLast(s: seq<nat>, x: nat)
    requires x !in s
    ensures Without(s + [x], x) == s
  {
    assert (s + [x])[|s|] == x;
    assert forall i | 0 <= i < |s| :: (s + [x])[i] in s;
  }

  lemma SettleKeepsCalls(surface: Surface, s: State, call: nat, settlement: Settlement, taken: bool)
    requires Inv(surface, s) && call in s.waiting
    ensures var t := SettleStep(s, call, settlement, taken);
            CallsAccounted(surface, t) && ControllersAccounted(t) && t.inFlight == s.inFlight - 1
  {
    SettleKeepsWaiting(surface, s, call, settlement, taken);
    SettleKeepsControllers(s, call, settlement, taken);
  }

  lemma SettleKeepsWaiting(surface: Surface, s: State, call: nat, settlement: Settlement, taken: bool)
    requires CallsAccounted(surface, s) && call in s.waiting
    ensures var t := SettleStep(s, call, settlement, taken); CallsAccounted(surface, t) && t.inFlight == s.inFlight - 1
  {
    var t := SettleStep(s, call, settlement, taken);
    assert t.waiting.Keys == s.waiting.Keys - {call};
    assert |t.waiting| == |s.waiting| - 1;
  }

  lemma SettleKeepsControllers(s: State, call: nat, settlement: Settlement, taken: bool)
    requires ControllersAccounted(s) && call in s.waiting && call < |s.fates|
    ensures ControllersAccounted(SettleStep(s, call, settlement, taken))
  {
    var t := SettleStep(s, call, settlement, taken);
    assert t.waiting.Keys == s.waiting.Keys - {call};
    if !s.revoked { WithoutExact(s.controllers, call); }
  }

  lemma SettleKeepsFates(surface: Surface, s: State, call: nat, settlement: Settlement, taken: bool)
    requires Inv(surface, s) && call in s.waiting
    ensures FatesAccounted(surface, SettleStep(s, call, settlement, taken))
    ensures NoticeIsLast(SettleStep(s, call, settlement, taken))
  {
  }

  lemma SettleKeepsReplies(surface: Surface, s: State, call: nat, settlement: Settlement, taken: bool)
    requires Inv(surface, s) && call in s.waiting
    ensures RepliesAccounted(SettleStep(s, call, settlement, taken))
  {
    var replied := ReplyStep(s, call, s.waiting[call], OutcomeOf(settlement), taken);
    ReplyKeepsReplies(s, call, s.waiting[call], OutcomeOf(settlement), taken);
    assert RepliesAccounted(replied);
  }

  lemma SettleKeepsInv(surface: Surface, s: State, call: nat, settlement: Settlement, taken: bool)
    requires Inv(surface, s) && call in s.waiting
    ensures Inv(surface, SettleStep(s, call, settlement, taken))
  {
    SettleKeepsCalls(surface, s, call, settlement, taken);
    SettleKeepsReplies(surface, s, call, settlement, taken);
    SettleKeepsFates(surface, s, call, settlement, taken);
  }

  lemma InvokeKeepsInv(surface: Surface, s: State, m: Message, replyTaken: bool, noticeTaken: bool)
    requires m.Invoke? && Fresh(surface, s) && s.received[|s.received| - 1] == m
    requires s.revoked || !WellFormed(m) ==> Inv(surface, s)
    ensures Inv(surface, InvokeStep(surface, s, m, replyTaken, noticeTaken))
  {
    if !s.revoked && WellFormed(m) {
      if m.revalidation.Refuses? {
        RefusedKeepsInv(surface, s, m, replyTaken, noticeTaken);
      } else {
        PassedKeepsInv(surface, s, m, replyTaken, noticeTaken);
      }
    }
  }

  lemma RefusedKeepsInv(surface: Surface, s: State, m: Message, replyTaken: bool, noticeTaken: bool)
    requires m.Invoke? && Fresh(surface, s) && s.received[|s.received| - 1] == m
    requires !s.revoked && WellFormed(m) && m.revalidation.Refuses?
    ensures Inv(surface, InvokeStep(surface, s, m, replyTaken, noticeTaken))
  {
    var call, reason := |s.fates| - 1, m.revalidation.reason;
    AnswerKeepsInv(surface, s, Error(RevalidationFailed), replyTaken);
    RevokeKeepsInv(surface, ReplyStep(s, call, m.id, Error(RevalidationFailed), replyTaken),
                   if reason == "" then "plugin_console_revalidation_failed" else reason, noticeTaken);
  }

  lemma PassedKeepsInv(surface: Surface, s: State, m: Message, replyTaken: bool, noticeTaken: bool)
    requires m.Invoke? && Fresh(surface, s) && s.received[|s.received| - 1] == m
    requires !s.revoked && WellFormed(m) && m.revalidation.Passes?
    ensures Inv(surface, InvokeStep(surface, s, m, replyTaken, noticeTaken))
  {
    var refusal := Refusal(surface, s.inFlight, m);
    if refusal.Some? {
      AnswerKeepsInv(surface, s, Error(refusal.value), replyTaken);
    } else if m.failsAtOnce {
      AnswerKeepsInv(surface, s, Error(ToolDenied), replyTaken);
    } else {
      AcceptKeepsInv(surface, s);
    }
  }

  lemma ReceiveKeepsInv(surface: Surface, s: State, m: Message, replyTaken: bool, noticeTaken: bool)
    requires Inv(surface, s)
    ensures Inv(surface, Step(surface, s, Receive(m, replyTaken, noticeTaken)))
  {
    ArriveIsFresh(surface, s, m);
    if m.Invoke? {
      InvokeKeepsInv(surface, Arrive(s, m), m, replyTaken, noticeTaken);
    } else if m.Failed? {
      RevokeKeepsInv(surface, Arrive(s, m), "plugin_console_failed", noticeTaken);
    }
  }

  lemma SettlementKeepsInv(surface: Surface, s: State, call: nat, settlement: Settlement, taken: bool)
    requires Inv(surface, s)
    ensures Inv(surface, Step(surface, s, Settle(call, settlement, taken)))
  {
    if call in s.waiting && call < |s.fates| { SettleKeepsInv(surface, s, call, settlement, taken); }
  }

  lemma StepKeepsInv(surface: Surface, s: State, e: Event)
    requires Inv(surface, s)
    ensures Inv(surface, Step(surface, s, e))
  {
    match e
    case Revoke(reason, taken) => RevokeKeepsInv(surface, s, reason, taken);
    case Settle(call, settlement, taken) => SettlementKeepsInv(surface, s, call, settlement, taken);
    case Receive(m, replyTaken, noticeTaken) => ReceiveKeepsInv(surface, s, m, replyTaken, noticeTaken);
  }

  // ----- what every interleaving guarantees

  lemma {:induction false} RunKeepsInv(surface: Surface, events: seq<Event>)
    ensures Inv(surface, Run(surface, events))
  {
    if events != [] {
      RunKeepsInv(surface, events[..|events| - 1]);
      StepKeepsInv(surface, Run(surface, events[..|events| - 1]), events[|events| - 1]);
    }
  }

  function IsReplyTo(call: nat): Post -> bool {
    (p: Post) => p.Reply? && p.call == call
  }

  /** After any run a call has one reply if it was answered through an accepting port, else none. */
  lemma RepliesExact(surface: Surface, events: seq<Event>, call: nat)
    requires call < |Run(surface, events).received|
    ensures var s := Run(surface, events);
            call < |s.fates| &&
            |Filter(s.posted, IsReplyTo(call))| == (if s.fates[call].Answered? && s.fates[call].taken then 1 else 0)
  {
    var s := Run(surface, events);
    RunKeepsInv(surface, events);
    FilterAtMostOne(s.posted, IsReplyTo(call));
    var replies := Filter(s.posted, IsReplyTo(call));
    if s.fates[call].Answered? && s.fates[call].taken {
      FilterMembers(s.posted, IsReplyTo(call), Reply(call, s.received[call].id, s.fates[call].outcome));
    } else if replies != [] {
      FilterMembers(s.posted, IsReplyTo(call), replies[0]);
    }
  }

  /**
   * While the bridge is not revoked every well-formed invocation is in flight or answered; once it is
   * revoked only the invocations that arrived afterwards are ignored.
   */
  lemma FatesExact(surface: Surface, events: seq<Event>, call: nat)
    requires call < |Run(surface, events).received| && WellFormed(Run(surface, events).received[call])
    ensures var s := Run(surface, events);
            call < |s.fates| &&
            (!s.revoked ==> s.fates[call].InFlight? || s.fates[call].Answered?) &&
            (s.fates[call].Ignored? <==> s.revokedAt.Some? && call >= s.revokedAt.value)
  {
    RunKeepsInv(surface, events);
  }

  /** A successful reply belongs to a listed tool, a passed revalidation and sizes within both limits. */
  lemma SuccessIsEarned(surface: Surface, events: seq<Event>, i: nat)
    requires i < |Run(surface, events).posted|
    requires Run(surface, events).posted[i].Reply? && Run(surface, events).posted[i].outcome.Success?
    ensures var s := Run(surface, events);
            var r := s.posted[i];
            r.call < |s.received| && s.received[r.call].Invoke? &&
            var m := s.received[r.call];
            r.id == m.id && m.toolId in surface.toolIds && m.revalidation.Passes? &&
            m.payload.Bytes? && m.payload.count <= MAX_REQUEST_BYTES &&
            r.outcome.result.Bytes? && r.outcome.result.count <= MAX_RESPONSE_BYTES
  {
    RunKeepsInv(surface, events);
  }

  /** The number of calls in flight is that of the suspended handlers and never exceeds the limit. */
  lemma LoadIsBounded(surface: Surface, events: seq<Event>)
    ensures var s := Run(surface, events);
            s.inFlight == |s.waiting| <= MAX_CONCURRENT_CALLS &&
            (!s.revoked ==> ToSet(s.controllers) == s.waiting.Keys && |s.controllers| == s.inFlight) &&
            (s.revoked ==> s.controllers == [] && s.waiting.Keys <= s.aborted)
  {
    RunKeepsInv(surface, events);
    DistinctSize(Run(surface, events).controllers);
    assert |Run(surface, events).waiting.Keys| == |Run(surface, events).waiting|;
  }

  lemma RevokeAborts(s: State, reason: string, taken: bool)
    requires ControllersAccounted(s) && !s.revoked
    ensures var t := RevokeStep(s, reason, taken); t.aborted == s.waiting.Keys && t.waiting == s.waiting
  {
  }

  /** Whatever revokes the bridge aborts exactly the calls in flight at that moment. */
  lemma RevocationAbortsExactly(surface: Surface, s: State, e: Event)
    requires Inv(surface, s) && !s.revoked && Step(surface, s, e).revoked
    ensures Step(surface, s, e).aborted == s.waiting.Keys && Step(surface, s, e).waiting == s.waiting
  {
    match e
    case Revoke(reason, taken) => RevokeAborts(s, reason, taken);
    case Settle(call, settlement, taken) =>
    case Receive(m, replyTaken, noticeTaken) =>
      if m.Invoke? {
        InvokeRevokes(surface, Arrive(s, m), m, replyTaken, noticeTaken);
      } else {
        RevokeAborts(Arrive(s, m), "plugin_console_failed", noticeTaken);
      }
  }

  lemma InvokeRevokes(surface: Surface, s: State, m: Message, replyTaken: bool, noticeTaken: bool)
    requires m.Invoke? && |s.fates| > 0 && ControllersAccounted(s) && !s.revoked
    requires InvokeStep(surface, s, m, replyTaken, noticeTaken).revoked
    ensures var t := InvokeStep(surface, s, m, replyTaken, noticeTaken);
            t.aborted == s.waiting.Keys && t.waiting == s.waiting
  {
  }

  lemma RevokedIsFinal(surface: Surface, s: State, e: Event)
    requires s.revoked && s.controllers == []
    ensures var t := Step(surface, s, e);
            t.revoked && t.posted == s.posted && t.waiting.Keys <= s.waiting.Keys && t.controllers == []
  {
  }

  /** After revocation nothing is posted and no call is accepted, whatever happens. */
  lemma {:induction false} NothingAfterRevocation(surface: Surface, events: seq<Event>, k: nat)
    requires k <= |events| && Run(surface, events[..k]).revoked
    ensures var s, t := Run(surface, events[..k]), Run(surface, events);
            t.revoked && t.posted == s.posted && t.waiting.Keys <= s.waiting.Keys && t.controllers == []
    decreases |events|
  {
    if k == |events| {
      assert events[..k] == events;
      RunKeepsInv(surface, events);
    } else {
      var before := events[..|events| - 1];
      assert before[..k] == events[..k];
      NothingAfterRevocation(surface, before, k);
      RevokedIsFinal(surface, Run(surface, before), events[|events| - 1]);
    }
  }

  /** A result goes through up to the limit; a larger one, or one without a length, does not; a rejection is denied. */
  ghost predicate AnswersSettlement(settlement: Settlement, outcome: Outcome) {
    (forall result ::
       outcome == Success(result) <==>
       settlement == Fulfilled(result) && result.Bytes? && result.count <= MAX_RESPONSE_BYTES) &&
    (outcome == Error(PayloadTooLarge) <==>
     settlement.Fulfilled? && (settlement.result.Infinite? || settlement.result.count > MAX_RESPONSE_BYTES)) &&
    (outcome == Error(ToolDenied) <==> settlement.Rejected?)
  }

  lemma OutcomeAnswers(settlement: Settlement)
    ensures AnswersSettlement(settlement, OutcomeOf(settlement))
  {
  }

  /** A call that settles before revocation is answered according to its settlement. */
  lemma SettlingAnswers(surface: Surface, s: State, call: nat, settlement: Settlement, taken: bool)
    requires Inv(surface, s) && !s.revoked && call in s.waiting
    ensures var t := Step(surface, s, Settle(call, settlement, taken));
            call < |s.fates| && |t.fates| == |s.fates| && t.fates[call].Answered? &&
            var outcome := t.fates[call].outcome;
            AnswersSettlement(settlement, outcome) && t.fates == s.fates[call := Answered(taken, outcome)] &&
            t.posted == (if taken then s.posted + [Reply(call, s.received[call].id, outcome)] else s.posted) &&
            t.inFlight == s.inFlight - 1 && call !in t.controllers
  {
    OutcomeAnswers(settlement);
    assert call < |s.fates| && s.waiting[call] == s.received[call].id;
    SettlingReplies(s, call, settlement, taken);
  }

  lemma SettlingReplies(s: State, call: nat, settlement: Settlement, taken: bool)
    requires !s.revoked && call in s.waiting && call < |s.fates| && Distinct(s.controllers) && s.inFlight >= 1
    ensures var t := SettleStep(s, call, settlement, taken);
            t.fates == s.fates[call := Answered(taken, OutcomeOf(settlement))] &&
            t.posted == Posting(s, Reply(call, s.waiting[call], OutcomeOf(settlement)), taken) &&
            t.inFlight == s.inFlight - 1 && call !in t.controllers
  {
    WithoutExact(s.controllers, call);
    assert call !in ToSet(Without(s.controllers, call));
  }

  lemma InvokeDecidesLast(surface: Surface, s: State, m: Message, replyTaken: bool, noticeTaken: bool)
    requires m.Invoke? && |s.fates| > 0 && s.fates[|s.fates| - 1].Ignored?
    ensures var t, last := InvokeStep(surface, s, m, replyTaken, noticeTaken), |s.fates| - 1;
            |t.fates| == |s.fates| && t.fates[..last] == s.fates[..last] && !t.fates[last].Dropped? &&
            (s.revoked ==> t == s)
  {
  }

  /** A message decides its own fate and no other. */
  lemma ReceiveDecidesOwn(surface: Surface, s: State, m: Message, replyTaken: bool, noticeTaken: bool)
    ensures var t, call := Step(surface, s, Receive(m, replyTaken, noticeTaken)), |s.fates|;
            |t.fates| == call + 1 && t.fates[..call] == s.fates && !t.fates[call].Dropped? &&
            (s.revoked ==> t == Arrive(s, m))
  {
    if m.Invoke? { InvokeDecidesLast(surface, Arrive(s, m), m, replyTaken, noticeTaken); }
  }

  /** A fate, once an answer or dropped, never changes. */
  lemma FinalFatesStay(surface: Surface, s: State, e: Event, call: nat)
    requires CallsAccounted(surface, s) && call < |s.fates|
    ensures call < |Step(surface, s, e).fates|
    ensures s.fates[call].Answered? || s.fates[call].Dropped? ==> Step(surface, s, e).fates[call] == s.fates[call]
  {
    if e.Receive? {
      ReceiveDecidesOwn(surface, s, e.message, e.replyTaken, e.noticeTaken);
      assert Step(surface, s, e).fates[..|s.fates|][call] == s.fates[call];
    }
  }

  lemma {:induction false} AnswerStays(surface: Surface, events: seq<Event>, k: nat, call: nat)
    requires k <= |events| && call < |Run(surface, events[..k]).fates| &&
      Run(surface, events[..k]).fates[call].Answered?
    ensures call < |Run(surface, events).fates|
    ensures Run(surface, events).fates[call] == Run(surface, events[..k]).fates[call]
    decreases |events|
  {
    if k == |events| {
      assert events[..k] == events;
    } else {
      var before := events[..|events| - 1];
      assert before[..k] == events[..k];
      AnswerStays(surface, before, k, call);
      RunKeepsInv(surface, before);
      FinalFatesStay(surface, Run(surface, before), events[|events| - 1], call);
    }
  }

  /** Whatever happens later, an answered call has the one reply of its answer, if the port took it. */
  lemma AnsweredOnce(surface: Surface, events: seq<Event>, k: nat, call: nat)
    requires k <= |events| && call < |Run(surface, events[..k]).fates| &&
      Run(surface, events[..k]).fates[call].Answered?
    ensures var s, answer := Run(surface, events), Run(surface, events[..k]).fates[call];
            call < |s.fates| && s.fates[call] == answer &&
            |Filter(s.posted, IsReplyTo(call))| == (if answer.taken then 1 else 0)
  {
    AnswerStays(surface, events, k, call);
    RunKeepsInv(surface, events);
    RepliesExact(surface, events, call);
  }

  /**
   * Over every interleaving a call that settles before revocation has exactly one reply, the answer to its
   * settlement under the id of the call (none if the port refused it), whatever happens before and after.
   */
  lemma SettledOnce(surface: Surface, events: seq<Event>, k: nat, call: nat, settlement: Settlement, taken: bool)
    requires k < |events| && events[k] == Settle(call, settlement, taken)
    requires !Run(surface, events[..k]).revoked && call in Run(surface, events[..k]).waiting
    ensures var s := Run(surface, events);
            call < |s.fates| && call < |s.received| && s.received[call].Invoke? && s.fates[call].Answered? &&
            s.fates[call].taken == taken && AnswersSettlement(settlement, s.fates[call].outcome) &&
            |Filter(s.posted, IsReplyTo(call))| == (if taken then 1 else 0) &&
            (taken ==> Reply(call, s.received[call].id, s.fates[call].outcome) in s.posted)
  {
    assert events[..k + 1] == events[..k] + [events[k]];
    SettledLast(surface, events[..k], call, settlement, taken);
    AnsweredOnce(surface, events, k + 1, call);
    RunKeepsInv(surface, events);
  }

  lemma SettledLast(surface: Surface, before: seq<Event>, call: nat, settlement: Settlement, taken: bool)
    requires !Run(surface, before).revoked && call in Run(surface, before).waiting
    ensures var s := Run(surface, before + [Settle(call, settlement, taken)]);
            call < |s.fates| && s.fates[call].Answered? && s.fates[call].taken == taken &&
            AnswersSettlement(settlement, s.fates[call].outcome)
  {
    var events := before + [Settle(call, settlement, taken)];
    assert events[..|events| - 1] == before;
    RunKeepsInv(surface, before);
    SettlingAnswers(surface, Run(surface, before), call, settlement, taken);
  }

  /** The calls dropped so far are among those in flight at the revocation, and no longer wait. */
  ghost predicate DroppedAre(s: State, inFlight: set<nat>) {
    forall c: nat :: c < |s.fates| && s.fates[c].Dropped? <==> c in inFlight && c !in s.waiting
  }

  lemma RevokingDropsNone(surface: Surface, s: State, e: Event)
    requires Inv(surface, s) && !s.revoked && Step(surface, s, e).revoked
    ensures DroppedAre(Step(surface, s, e), s.waiting.Keys) && Step(surface, s, e).waiting == s.waiting
    ensures |s.fates| <= |Step(surface, s, e).fates|
  {
    var t := Step(surface, s, e);
    RevocationAbortsExactly(surface, s, e);
    RevokingFates(surface, s, e);
    assert forall c: nat | c < |s.fates| :: !s.fates[c].Dropped?;
    NoneDropped(s, t);
  }

  lemma NoneDropped(s: State, t: State)
    requires |s.fates| <= |t.fates| <= |s.fates| + 1 && t.fates[..|s.fates|] == s.fates && t.waiting == s.waiting
    requires |t.fates| > |s.fates| ==> !t.fates[|s.fates|].Dropped?
    requires forall c: nat | c < |s.fates| :: !s.fates[c].Dropped?
    ensures DroppedAre(t, s.waiting.Keys)
  {
    forall c: nat | c < |s.fates| ensures !t.fates[c].Dropped? { assert t.fates[..|s.fates|][c] == s.fates[c]; }
  }

  lemma RevokingFates(surface: Surface, s: State, e: Event)
    requires !s.revoked && Step(surface, s, e).revoked
    ensures var t := Step(surface, s, e);
            |s.fates| <= |t.fates| <= |s.fates| + 1 && t.fates[..|s.fates|] == s.fates &&
            (|t.fates| > |s.fates| ==> !t.fates[|s.fates|].Dropped?)
  {
    if e.Receive? { ReceiveDecidesOwn(surface, s, e.message, e.replyTaken, e.noticeTaken); }
  }

  lemma DroppingStep(surface: Surface, s: State, e: Event, inFlight: set<nat>)
    requires CallsAccounted(surface, s) && s.revoked && s.waiting.Keys <= inFlight && DroppedAre(s, inFlight)
    requires forall c | c in inFlight :: c < |s.fates|
    ensures DroppedAre(Step(surface, s, e), inFlight) && Step(surface, s, e).waiting.Keys <= inFlight
    ensures |s.fates| <= |Step(surface, s, e).fates|
  {
    if e.Receive? { ReceiveDecidesOwn(surface, s, e.message, e.replyTaken, e.noticeTaken); }
  }

  /** The calls in flight at a revocation, and what has become of them. */
  ghost predicate DroppedSince(s: State, inFlight: set<nat>) {
    s.revoked && DroppedAre(s, inFlight) && s.waiting.Keys <= inFlight && forall c | c in inFlight :: c < |s.fates|
  }

  lemma DroppedStart(surface: Surface, s: State, e: Event)
    requires Inv(surface, s) && !s.revoked && Step(surface, s, e).revoked
    ensures DroppedSince(Step(surface, s, e), s.waiting.Keys)
  {
    RevokingDropsNone(surface, s, e);
    assert forall c | c in s.waiting :: c < |s.fates|;
  }

  /** After the revocation a call is dropped exactly when it was in flight at that moment and has settled since. */
  lemma DroppedExact(surface: Surface, events: seq<Event>, k: nat)
    requires k < |events| && !Run(surface, events[..k]).revoked && Run(surface, events[..k + 1]).revoked
    ensures DroppedSince(Run(surface, events), Run(surface, events[..k]).waiting.Keys)
  {
    var start, inFlight := events[..k + 1], Run(surface, events[..k]).waiting.Keys;
    assert start[..|start| - 1] == events[..k];
    DroppedFirst(surface, start);
    DroppedLater(surface, start, events[k + 1..], inFlight);
    assert start + events[k + 1..] == events;
  }

  lemma {:induction false} DroppedLater(surface: Surface, start: seq<Event>, later: seq<Event>, inFlight: set<nat>)
    requires DroppedSince(Run(surface, start), inFlight)
    ensures DroppedSince(Run(surface, start + later), inFlight)
  {
    if later == [] {
      assert start + later == start;
    } else {
      DroppedLater(surface, start, later[..|later| - 1], inFlight);
      assert (start + later)[..|start + later| - 1] == start + later[..|later| - 1];
      DroppedNext(surface, start + later, inFlight);
    }
  }

  lemma DroppedFirst(surface: Surface, events: seq<Event>)
    requires events != [] && !Run(surface, events[..|events| - 1]).revoked && Run(surface, events).revoked
    ensures DroppedSince(Run(surface, events), Run(surface, events[..|events| - 1]).waiting.Keys)
  {
    RunKeepsInv(surface, events[..|events| - 1]);
    DroppedStart(surface, Run(surface, events[..|events| - 1]), events[|events| - 1]);
  }

  lemma DroppedNext(surface: Surface, events: seq<Event>, inFlight: set<nat>)
    requires events != [] && DroppedSince(Run(surface, events[..|events| - 1]), inFlight)
    ensures DroppedSince(Run(surface, events), inFlight)
  {
    var s, e := Run(surface, events[..|events| - 1]), events[|events| - 1];
    RunKeepsInv(surface, events[..|events| - 1]);
    RevokedIsFinal(surface, s, e);
    DroppingStep(surface, s, e, inFlight);
  }

  /** When an answered invocation may carry an error code: the earlier checks passed and this one did not. */
  predicate Reason(surface: Surface, inFlight: int, m: Message, code: ErrorCode)
    requires m.Invoke?
  {
    var listed := m.toolId in surface.toolIds && IsToolId(m.toolId);
    var small := m.payload.Bytes? && m.payload.count <= MAX_REQUEST_BYTES;
    match code
    case RevalidationFailed => !m.revalidation.Passes?
    case PayloadTooLarge => m.revalidation.Passes? && listed && !small
    case ConcurrencyLimit => m.revalidation.Passes? && listed && small && inFlight >= MAX_CONCURRENT_CALLS
    case ToolDenied =>
      m.revalidation.Passes? &&
      (!listed || (small && inFlight < MAX_CONCURRENT_CALLS && (!surface.invokable || m.failsAtOnce)))
  }

  /** Every check passes, there is room for one more call and the tool starts. */
  predicate Accepts(surface: Surface, inFlight: int, m: Message)
    requires m.Invoke?
  {
    m.revalidation.Passes? && m.toolId in surface.toolIds && IsToolId(m.toolId) &&
    m.payload.Bytes? && m.payload.count <= MAX_REQUEST_BYTES && inFlight < MAX_CONCURRENT_CALLS &&
    surface.invokable && !m.failsAtOnce
  }

  /** A well-formed invocation is accepted exactly when it is admissible, there is room and the tool starts. */
  lemma ArrivalExact(surface: Surface, s: State, m: Message, replyTaken: bool, noticeTaken: bool)
    requires Inv(surface, s) && !s.revoked && WellFormed(m)
    ensures var t, call := Step(surface, s, Receive(m, replyTaken, noticeTaken)), |s.fates|;
            |t.fates| == call + 1 && t.received == s.received + [m] &&
            (t.fates[call].InFlight? <==> Accepts(surface, s.inFlight, m)) &&
            (!t.fates[call].InFlight? ==> t.fates[call].Answered? && t.fates[call].taken == replyTaken &&
                                          t.fates[call].outcome.Error? &&
                                          Reason(surface, s.inFlight, m, t.fates[call].outcome.code)) &&
            (t.revoked <==> m.revalidation.Refuses?)
  {
    InvokeExact(surface, Arrive(s, m), m, replyTaken, noticeTaken);
  }

  lemma InvokeExact(surface: Surface, s: State, m: Message, replyTaken: bool, noticeTaken: bool)
    requires |s.fates| > 0 && !s.revoked && WellFormed(m)
    ensures var t, call := InvokeStep(surface, s, m, replyTaken, noticeTaken), |s.fates| - 1;
            |t.fates| == |s.fates| && t.received == s.received &&
            (t.fates[call].InFlight? <==> Accepts(surface, s.inFlight, m)) &&
            (!t.fates[call].InFlight? ==> t.fates[call].Answered? && t.fates[call].taken == replyTaken &&
                                          t.fates[call].outcome.Error? &&
                                          Reason(surface, s.inFlight, m, t.fates[call].outcome.code)) &&
            (t.revoked <==> m.revalidation.Refuses?)
  {
  }

  /** The events that revoke a bridge, and the reason that the notice gives. */
  predicate RevokesFor(e: Event, reason: string) {
    match e
    case Revoke(given, _) => reason == (if given == "" then "plugin_console_revoked" else given)
    case Settle(_, _, _) => false
    case Receive(m, _, _) =>
      match m
      case Failed => reason == "plugin_console_failed"
      case Invoke(id, _, _, revalidation, _) =>
        IsInvokeId(id) && revalidation.Refuses? &&
        reason == (if revalidation.reason == "" then "plugin_console_revalidation_failed" else revalidation.reason)
      case _ => false
  }

  /** Whether the port takes the notice of a revocation by this event. */
  predicate TakesNotice(e: Event) {
    match e
    case Revoke(_, taken) => taken
    case Settle(_, _, _) => false
    case Receive(_, _, taken) => taken
  }

  /** A bridge is revoked exactly by these events, and the notice of it, if the port takes it, is the last post. */
  lemma RevocationExact(surface: Surface, s: State, e: Event, reason: string)
    requires !s.revoked && |s.fates| == |s.received|
    ensures Step(surface, s, e).revoked <==> exists r :: RevokesFor(e, r)
    ensures RevokesFor(e, reason) && TakesNotice(e) ==>
      var posted := Step(surface, s, e).posted;
      posted != [] && posted[|posted| - 1] == RevokeNotice(reason)
  {
    if Step(surface, s, e).revoked {
      RevokingReason(e, surface, s);
    }
  }

  lemma RevokingReason(e: Event, surface: Surface, s: State)
    requires !s.revoked && |s.fates| == |s.received| && Step(surface, s, e).revoked
    ensures exists r :: RevokesFor(e, r)
  {
    match e
    case Revoke(given, _) => assert RevokesFor(e, if given == "" then "plugin_console_revoked" else given);
    case Settle(_, _, _) =>
    case Receive(m, _, _) =>
      match m
      case Failed => assert RevokesFor(e, "plugin_console_failed");
      case Invoke(_, _, _, revalidation, _) =>
        assert revalidation.Refuses?;
        assert RevokesFor(e, if revalidation.reason == "" then "plugin_console_revalidation_failed"
                             else revalidation.reason);
      case _ =>
  }

  /** A message that asks for nothing, or comes too late, is counted and otherwise ignored. */
  lemma IgnoredExact(surface: Surface, s: State, m: Message, replyTaken: bool, noticeTaken: bool)
    requires Inv(surface, s)
    ensures var t := Step(surface, s, Receive(m, replyTaken, noticeTaken));
            t == s.(received := s.received + [m], fates := s.fates + [Ignored]) <==>
            s.revoked || (!m.Failed? && !(m.Invoke? && IsInvokeId(m.id) && !m.revalidation.Throws?))
  {
    if !s.revoked && WellFormed(m) { InvokeExact(surface, Arrive(s, m), m, replyTaken, noticeTaken); }
  }

  // ----- the closure itself

  class PluginConsoleHostBridge {
    const surface: Surface
    var revoked: bool
    var portOpen: bool
    var inFlight: int
    var controllers: seq<nat>
    var aborted: set<nat>
    var waiting: map<nat, string>
    ghost var received: seq<Message>
    ghost var fates: seq<Fate>
    ghost var posted: seq<Post>
    ghost var revokedAt: Option<nat>

    ghost function Value(): State
      reads this
    {
      State(revoked, portOpen, inFlight, controllers, aborted, waiting, received, fates, posted, revokedAt)
    }

    constructor (surface: Surface)
      ensures Value() == INITIAL && this.surface == surface
    {
      this.surface := surface;
      revoked, portOpen, inFlight, controllers, aborted, waiting := false, true, 0, [], {}, map[];
      received, fates, posted, revokedAt := [], [], [], None;
    }

    method Revoke(reason: string, taken: bool)
      modifies this
      ensures Value() == RevokeStep(old(Value()), reason, taken)
    {
      if revoked { return; }
      revoked := true;
      aborted := aborted + ToSet(controllers);
      controllers := [];
      if taken {
        posted := posted + [RevokeNotice(if reason == "" then "plugin_console_revoked" else reason)];
      }
      portOpen := false;
      revokedAt := Some(|received|);
    }

    method SendReply(ghost call: nat, id: string, outcome: Outcome, taken: bool)
      requires call < |fates|
      modifies this`posted, this`fates
      ensures Value() == ReplyStep(old(Value()), call, id, outcome, taken)
    {
      if revoked {
        fates := fates[call := Dropped];
        return;
      }
      if taken { posted := posted + [Reply(call, id, outcome)]; }
      fates := fates[call := Answered(taken, outcome)];
    }

    /** The `finally` block of a call. */
    method Release(call: nat)
      modifies this`inFlight, this`controllers
      ensures inFlight == if old(inFlight) - 1 < 0 then 0 else old(inFlight) - 1
      ensures controllers == Without(old(controllers), call)
    {
      inFlight := if inFlight - 1 < 0 then 0 else inFlight - 1;
      var index := IndexOf(controllers, call);
      if index >= 0 { controllers := controllers[..index] + controllers[index + 1..]; }
    }

    /** The tool call is started; a call that fails at once never waits. */
    method Start(call: nat, m: Message, replyTaken: bool)
      requires call < |fates| && m.Invoke? && inFlight >= 0 && call !in controllers
      modifies this
      ensures Value() == if m.failsAtOnce then ReplyStep(old(Value()), call, m.id, Error(ToolDenied), replyTaken)
                         else AcceptStep(old(Value()), call, m.id)
    {
      inFlight := inFlight + 1;
      controllers := controllers + [call];
      if m.failsAtOnce {
        SendReply(call, m.id, Error(ToolDenied), replyTaken);
        Release(call);
        WithoutLast(old(controllers), call);
        return;
      }
      waiting := waiting[call := m.id];
      fates := fates[call := InFlight];
    }

    method OnInvoke(call: nat, m: Message, replyTaken: bool, noticeTaken: bool)
      requires call == |fates| - 1 && m.Invoke? && inFlight >= 0 && call !in controllers
      modifies this
      ensures Value() == InvokeStep(surface, old(Value()), m, replyTaken, noticeTaken)
    {
      if revoked || !IsInvokeId(m.id) { return; }
      if m.revalidation.Throws? { return; }
      if m.revalidation.Refuses? {
        SendReply(call, m.id, Error(RevalidationFailed), replyTaken);
        Revoke(if m.revalidation.reason == "" then "plugin_console_revalidation_failed"
          else m.revalidation.reason, noticeTaken);
        return;
      }
      if m.toolId !in surface.toolIds || !IsToolId(m.toolId) {
        SendReply(call, m.id, Error(ToolDenied), replyTaken);
        return;
      }
      if Exceeds(m.payload, MAX_REQUEST_BYTES) {
        SendReply(call, m.id, Error(PayloadTooLarge), replyTaken);
        return;
      }
      if inFlight >= MAX_CONCURRENT_CALLS {
        SendReply(call, m.id, Error(ConcurrencyLimit), replyTaken);
        return;
      }
      if !surface.invokable {
        SendReply(call, m.id, Error(ToolDenied), replyTaken);
        return;
      }
      Start(call, m, replyTaken);
    }

    /** The message handler up to the point where it waits for the tool; `call` names its controller. */
    method OnMessage(call: nat, m: Message, replyTaken: bool, noticeTaken: bool)
      requires call == |fates| && inFlight >= 0 && call !in controllers
      modifies this
      ensures Value() == Step(surface, old(Value()), Receive(m, replyTaken, noticeTaken))
    {
      received, fates := received + [m], fates + [Ignored];
      if m.NotAnObject? { return; }
      if m.Failed? {
        Revoke("plugin_console_failed", noticeTaken);
        return;
      }
      if !m.Invoke? { return; }
      OnInvoke(call, m, replyTaken, noticeTaken);
    }

    /** The reply to a settled call: its result, unless that is too large or the call was rejected. */
    method ReplySettlement(ghost call: nat, id: string, settlement: Settlement, taken: bool)
      requires call < |fates|
      modifies this`posted, this`fates
      ensures Value() == ReplyStep(old(Value()), call, id, OutcomeOf(settlement), taken)
    {
      if settlement.Rejected? {
        SendReply(call, id, Error(ToolDenied), taken);
      } else if Exceeds(settlement.result, MAX_RESPONSE_BYTES) {
        SendReply(call, id, Error(PayloadTooLarge), taken);
      } else {
        SendReply(call, id, Success(settlement.result), taken);
      }
    }

    /** The handler resumes: the awaited tool call has settled. */
    method OnSettled(call: nat, settlement: Settlement, taken: bool)
      requires call in waiting && call < |fates|
      modifies this
      ensures Value() == Step(surface, old(Value()), Settle(call, settlement, taken))
    {
      ReplySettlement(call, waiting[call], settlement, taken);
      Release(call);
      waiting := waiting - {call};
    }
  }

  /** In every state that keeps the invariant the handlers may run: the next call number is unused. */
  lemma NextCallIsFresh(surface: Surface, s: State)
    requires Inv(surface, s)
    ensures |s.fates| !in s.controllers && s.inFlight >= 0
    ensures forall call | call in s.waiting :: call < |s.fates|
  {
    assert |s.fates| !in s.waiting;
    assert |s.fates| !in ToSet(s.controllers);
  }
}
