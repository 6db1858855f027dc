/** The app-mention handler: clean the mention text, acknowledge, ask the
    drafter for an email, and post what it returns to the same channel.
    Every observable effect (a message posted through `say`, a request to the
    drafter) is recorded, in order, in the session's trace. */
module MentionHandler {
  import opened PyStr
  import opened Mention

  /** The fixed acknowledgement posted before drafting starts. */
  const Acknowledgement: string := "Sure, I'll get right on that!"

  /** What the drafter does with one instruction: it returns an email, or it
      raises (service error, timeout, malformed response). */
  datatype DraftOutcome = Drafted(email: string) | DraftFailed

  /** One observable effect of the handler. */
  datatype Effect = Said(message: string) | DraftRequested(instruction: string)

  /** The field of the event body that the handler reads (`body["event"]["text"]`). */
  datatype AppMention = AppMention(text: string)

  /** How the handler call ends: it returns, or the drafter's exception
      propagates out of it to the event framework. */
  datatype HandlerOutcome = Returned | Raised

  /** The messages posted to the channel, in the order they were posted. */
  function Sent(trace: seq<Effect>): seq<string>
  {
    if trace == [] then []
    else (match trace[0]
          case Said(m) => [m]
          case DraftRequested(_) => []) + Sent(trace[1..])
  }

  /** The instructions handed to the drafter, in order. */
  function DraftRequests(trace: seq<Effect>): seq<string>
  {
    if trace == [] then []
    else (match trace[0]
          case Said(_) => []
          case DraftRequested(i) => [i]) + DraftRequests(trace[1..])
  }

  /** Posting is observed piecewise: the messages of two consecutive stretches
      of effects are those of the first, then those of the second. */
  lemma {:induction false} SentConcat(a: seq<Effect>, b: seq<Effect>)
    ensures Sent(a + b) == Sent(a) + Sent(b)
    decreases |a|
  {
    if a == [] {
      assert a + b == b;
    } else {
      assert (a + b)[0] == a[0];
      assert (a + b)[1..] == a[1..] + b;
      SentConcat(a[1..], b);
    }
  }

  /** The same for the requests made to the drafter. */
  lemma {:induction false} DraftRequestsConcat(a: seq<Effect>, b: seq<Effect>)
    ensures DraftRequests(a + b) == DraftRequests(a) + DraftRequests(b)
    decreases |a|
  {
    if a == [] {
      assert a + b == b;
    } else {
      assert (a + b)[0] == a[0];
      assert (a + b)[1..] == a[1..] + b;
      DraftRequestsConcat(a[1..], b);
    }
  }

  /** The effects of one call of the handler, for bot id `botUserId`, mention
      text `text` and drafter `draft`: the acknowledgement, one request with
      the cleaned instruction, then the drafted email if there is one. */
  function HandlerEffects(botUserId: string, text: string, draft: string -> DraftOutcome): seq<Effect>
  {
    var instruction := Clean(botUserId, text);
    [Said(Acknowledgement), DraftRequested(instruction)] +
    match draft(instruction)
    case Drafted(email) => [Said(email)]
    case DraftFailed => []
  }

  /** When the drafter succeeds, exactly two messages are posted: the
      acknowledgement, then the drafter's email. */
  lemma HandlerSendsAckThenDraft(botUserId: string, text: string, draft: string -> DraftOutcome, email: string)
    requires draft(Clean(botUserId, text)) == Drafted(email)
    ensures Sent(HandlerEffects(botUserId, text, draft)) == [Acknowledgement, email]
  {
    var instruction := Clean(botUserId, text);
    SentConcat([Said(Acknowledgement), DraftRequested(instruction)], [Said(email)]);
  }

  /** When the drafter raises, only the acknowledgement is posted. */
  lemma HandlerSendsOnlyAckOnFailure(botUserId: string, text: string, draft: string -> DraftOutcome)
    requires draft(Clean(botUserId, text)) == DraftFailed
    ensures Sent(HandlerEffects(botUserId, text, draft)) == [Acknowledgement]
  {
    var instruction := Clean(botUserId, text);
    assert HandlerEffects(botUserId, text, draft) == [Said(Acknowledgement), DraftRequested(instruction)];
    SentConcat([Said(Acknowledgement)], [DraftRequested(instruction)]);
  }

  /** The drafter is asked exactly once, with the cleaned instruction, and the
      acknowledgement is the one message posted before that request. */
  lemma HandlerDraftsOnceAfterAck(botUserId: string, text: string, draft: string -> DraftOutcome)
    ensures var effects := HandlerEffects(botUserId, text, draft);
            DraftRequests(effects) == [Clean(botUserId, text)] &&
            effects[1] == DraftRequested(Clean(botUserId, text)) &&
            Sent(effects[..1]) == [Acknowledgement]
  {
    var instruction := Clean(botUserId, text);
    var effects := HandlerEffects(botUserId, text, draft);
    var tail := match draft(instruction) case Drafted(email) => [Said(email)] case DraftFailed => [];
    DraftRequestsConcat([Said(Acknowledgement), DraftRequested(instruction)], tail);
    assert DraftRequests(tail) == [];
    assert effects[..1] == [Said(Acknowledgement)];
  }

  /** A message made of the mention, one space and an instruction that does
      not mention the bot and has no outer whitespace: the drafter receives
      exactly that instruction, and a successful draft is posted after the
      acknowledgement. */
  lemma HandlerOnLeadingMention(botUserId: string, s: string, draft: string -> DraftOutcome, email: string)
    requires !Occurs(s, MentionToken(botUserId))
    requires s == [] || (!IsWs(s[0]) && !IsWs(s[|s| - 1]))
    requires draft(s) == Drafted(email)
    ensures var effects := HandlerEffects(botUserId, MentionToken(botUserId) + " " + s, draft);
            DraftRequests(effects) == [s] && Sent(effects) == [Acknowledgement, email]
  {
    var text := MentionToken(botUserId) + " " + s;
    CleanLeadingMention(botUserId, s);
    HandlerSendsAckThenDraft(botUserId, text, draft, email);
    HandlerDraftsOnceAfterAck(botUserId, text, draft);
  }

  /** An end-to-end example: mention text `"<@U123> draft a thank-you note"`
      for bot `U123`; the drafter receives `"draft a thank-you note"`, and the
      channel sees the acknowledgement, then the drafter's email. */
  lemma HandlerExample(draft: string -> DraftOutcome, email: string)
    requires draft("draft a thank-you note") == Drafted(email)
    ensures var effects := HandlerEffects("U123", "<@U123> draft a thank-you note", draft);
            DraftRequests(effects) == ["draft a thank-you note"] &&
            Sent(effects) == [Acknowledgement, email]
  {
    var text := "<@U123> draft a thank-you note";
    CleanExample();
    HandlerSendsAckThenDraft("U123", text, draft, email);
    HandlerDraftsOnceAfterAck("U123", text, draft);
  }

  /** One Slack app with its configured bot id, its drafter and the record
      of everything it has posted and asked for so far. */
  class MentionSession {
    /** The bot's own user id, read once from the configuration. */
    const botUserId: string
    /** The email drafter (an external completion service). */
    const draftEmail: string -> DraftOutcome
    /** Every effect so far, oldest first. */
    var trace: seq<Effect>

    constructor (botUserId: string, draftEmail: string -> DraftOutcome)
      ensures this.botUserId == botUserId && this.draftEmail == draftEmail
      ensures trace == []
    {
      this.botUserId := botUserId;
      this.draftEmail := draftEmail;
      trace := [];
    }

    /** The `say` capability: post one message to the originating channel. */
    method Say(message: string)
      modifies this
      ensures trace == old(trace) + [Said(message)]
    {
      trace := trace + [Said(message)];
    }

    /** One call of the drafter with `instruction`. */
    method DraftEmail(instruction: string) returns (outcome: DraftOutcome)
      modifies this
      ensures trace == old(trace) + [DraftRequested(instruction)]
      ensures outcome == draftEmail(instruction)
    {
      trace := trace + [DraftRequested(instruction)];
      outcome := draftEmail(instruction);
    }

    /** The app-mention handler. It returns `Raised` exactly when the drafter
        raised, after the acknowledgement and before any second message. */
    method HandleMentions(body: AppMention) returns (outcome: HandlerOutcome)
      modifies this
      ensures trace == old(trace) + HandlerEffects(botUserId, body.text, draftEmail)
      ensures outcome == Raised <==> draftEmail(Clean(botUserId, body.text)) == DraftFailed
    {
      var text := body.text;
      var mention := MentionToken(botUserId);
      text := Strip(ReplaceAll(text, mention, ""));
      Say(Acknowledgement);
      var response := DraftEmail(text);
      match response {
        case DraftFailed =>
          outcome := Raised;
        case Drafted(email) =>
          Say(email);
          outcome := Returned;
      }
    }
  }
}
