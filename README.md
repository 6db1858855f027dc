# AISlackBot mention handler, modelled in Dafny

AISlackBot is a Slack app. When someone mentions the bot in a channel, Slack
sends an `app_mention` event. The handler `handle_mentions` (`app.py`) then:

1. takes the message text from the event body;
2. builds the bot's mention token `<@BOT_USER_ID>` from the configured bot id;
3. removes the token with `text.replace(mention, "")`, then trims the result
   with `.strip()`;
4. posts the fixed acknowledgement `"Sure, I'll get right on that!"`;
5. hands the cleaned instruction to the email drafter `draft_email`;
6. posts what the drafter returns.

The project has three modules:

- `PyStr` (`pystr.dfy`) models the two Python string builtins the handler
  uses:
  - `str.strip()` with no argument removes the characters of Python's
    `str.isspace()` set at both ends.
  - `str.replace(old, new)` makes one left-to-right scan. It replaces every
    non-overlapping occurrence and never looks again at text it has just
    produced.
- `Mention` (`mention.dfy`) models the mention token and the cleaning of
  the text.
- `MentionHandler` (`handler.dfy`) models the handler as a class:
  - `MentionSession` holds the configured bot id and the drafter. The
    drafter is a function from instructions to outcomes: a drafted email or
    a raised exception.
  - The session's `trace` records every observable effect, in order: a
    message posted with `say`, or a request to the drafter.
  - The pure function `HandlerEffects` gives the effects of one handler call.
    `HandleMentions` is proved to append exactly those effects.

The code removes every occurrence of the token, not only the first: it calls
`str.replace` without a count. The model follows the code. So a text with two
mentions of the bot loses both. A single scan can also join the halves around
a removed token into a new token. For bot `U1`, `"<@<@U1>U1>"` cleans to
`"<@U1>"`, so the instruction the drafter receives is not guaranteed to be
free of the token.

## Model

| member | source | states |
|---|---|---|
| `Mention.MentionToken` | app.py:50 | the token is `<@`, the bot id, then `>`: it is non-empty (three characters longer than the id), starts with `<` and ends with `>` |
| `Mention.MentionTokenInjective` | app.py:50 | distinct bot ids give distinct tokens |
| `PyStr.IsWs` | app.py:51 | no contract of its own; the characters for which Python's `str.isspace()` holds, which is the set `strip()` removes |
| `PyStr.Strip` | app.py:51 | `strip()` never lengthens the text, and its result is empty or has no whitespace at either end |
| `PyStr.StripIsStrippedSlice` | app.py:51 | when everything outside `s[i..j]` is whitespace and `s[i..j]` has none at its ends, `strip()` returns exactly that slice, so there is only one such slice |
| `PyStr.StripSlice` | app.py:51 | such a slice always exists: the result of `strip()` is a slice of the input with only whitespace outside it |
| `PyStr.StripIdempotent` | app.py:51 | stripping twice is the same as stripping once |
| `PyStr.StripNoOuterWs` | app.py:51 | a text with no whitespace at either end is left unchanged |
| `PyStr.StripLeadingWs` | app.py:51 | a whitespace character added at the front makes no difference to the strip |
| `PyStr.FindFrom` | app.py:51 | the search finds the leftmost occurrence at or after a position; it finds nothing only when there is no occurrence there |
| `PyStr.ReplaceAll` | app.py:51 | no contract of its own; `text.replace(mention, "")` as one left-to-right scan, equal to the find-and-resume reference `ReplaceByFind` (see `ReplaceAllIsLeftmostNonOverlapping`) |
| `PyStr.ReplaceAllIsLeftmostNonOverlapping` | app.py:51 | `replace` is the same as repeatedly replacing the leftmost remaining occurrence and resuming the search after it |
| `PyStr.ReplaceAllNoOccurrence` | app.py:51 | text that does not contain the pattern comes back unchanged |
| `PyStr.ReplaceAllOnlyAt` | app.py:51 | when the pattern occurs at only one position, `replace` substitutes exactly that occurrence |
| `PyStr.ReplaceAllOnce` | app.py:51 | when the pattern occurs only between `a` and `b` in `a + pat + b`, `replace` gives `a + rep + b` |
| `PyStr.ReplaceAllAround` | app.py:51 | when the first occurrence in `a + pat + b` lies between `a` and `b`, and `b` is shorter than the pattern, only that occurrence is replaced, even if it overlaps later candidates |
| `PyStr.ReplaceAllLength` | app.py:51 | the result is `k*|pat|` characters shorter and `k*|rep|` characters longer, where `k` counts the occurrences the scan replaced |
| `PyStr.CountReplacedPositiveIff` | app.py:51 | the scan replaces at least one occurrence exactly when the pattern occurs in the text |
| `PyStr.RemoveAllKeepsOrder` | app.py:51 | removing the pattern (`rep == ""`) leaves a subsequence of the input: kept characters stay in order |
| `Mention.StripMentionToken` | app.py:50-51 | `strip()` leaves the token unchanged |
| `Mention.Clean` | app.py:49-51 | the instruction is empty or has no whitespace at either end |
| `Mention.CleanRemovesWholeTokens` | app.py:50-51 | before the strip, the removed characters are exactly the occurrences of the token found by taking the leftmost one and resuming after it; the text is `k*|token|` characters shorter (`k` counts those occurrences) and the remaining characters keep their order; `k` is positive exactly when the text mentions the bot |
| `Mention.CleanWithoutMention` | app.py:50-51 | a text that does not contain the token is only stripped |
| `Mention.CleanSingleMention` | app.py:50-51 | a text containing the token exactly once, between `before` and `after`, cleans to `strip(before + after)` |
| `Mention.RemoveLeadingMention` | app.py:50-51 | replacing the token in `token + " " + s`, where `s` does not contain it, leaves `" " + s` |
| `Mention.CleanLeadingMention` | app.py:50-51 | `token + " " + s` cleans to `s` when `s` does not contain the token and has no whitespace at either end |
| `Mention.CleanExample` | app.py:50-51 | for bot `U123`, `"<@U123> draft a thank-you note"` cleans to `"draft a thank-you note"` |
| `Mention.RemoveNestedMention` | app.py:51 | when the id does not start with `<`, removing the token from `"<@" + token + id + ">"` joins the two halves into a new token |
| `Mention.CleanMayLeaveMention` | app.py:50-51 | when the id does not start with `<`, cleaning `"<@" + token + id + ">"` gives the token itself, so the instruction can still mention the bot |
| `Mention.CleanMayLeaveMentionU1` | app.py:50-51 | for bot `U1`, `"<@<@U1>U1>"` cleans to `"<@U1>"`, which starts with the token |
| `MentionHandler.HandlerEffects` | app.py:49-55 | no contract of its own; the effects of one call: the acknowledgement `Acknowledgement` (the literal on app.py:53), one drafter request with the cleaned text, then the email if one was drafted |
| `MentionHandler.HandlerSendsAckThenDraft` | app.py:53-55 | when the drafter succeeds, exactly two messages are posted: the acknowledgement, then the drafter's email |
| `MentionHandler.HandlerSendsOnlyAckOnFailure` | app.py:53-55 | when the drafter raises, the acknowledgement is the only message posted |
| `MentionHandler.HandlerDraftsOnceAfterAck` | app.py:51-54 | the drafter is called exactly once, with the cleaned text, after the acknowledgement and with nothing posted in between |
| `MentionHandler.HandlerOnLeadingMention` | app.py:49-55 | for `token + " " + s`, the drafter receives `s`, and the channel sees the acknowledgement and then the email |
| `MentionHandler.HandlerExample` | app.py:49-55 | for the example mention of `U123`, the drafter receives `"draft a thank-you note"`, and the channel sees the acknowledgement and then the email |
| `MentionHandler.MentionSession.constructor` | app.py:16 | a session starts with the configured bot id and drafter, and no effects yet |
| `MentionHandler.MentionSession.Say` | app.py:53 | posting appends exactly one message to the trace |
| `MentionHandler.MentionSession.DraftEmail` | app.py:54 | a drafter call appends one request to the trace and returns the drafter's outcome for that instruction |
| `MentionHandler.MentionSession.HandleMentions` | app.py:39-55 | one handler call appends exactly the acknowledgement, one drafter request with the cleaned text and, if the drafter succeeds, its email; it ends in `Raised` exactly when the drafter raised |

## Left out

- Loading `.env` and reading the three environment variables (app.py:10-16): the bot id is a constructor parameter of `MentionSession`. The bot token and signing secret are not modelled.
- `get_bot_user_id` (app.py:25-37): it calls the Slack Web API, and the handler never uses it.
- The Bolt and Flask wiring, the `/slack/events` route and request signature verification (app.py:18-23, 57-66): framework code outside the handler.
- Starting the Flask server (app.py:68-70): process start-up.
- What `draft_email` does inside (`functions.py`): it calls an external completion service. It is modelled as an arbitrary function from instruction to outcome, and `functions.py` is not part of this model.
- The drafter is deterministic within a session: `draftEmail` is one fixed function, so two handler calls with the same instruction get the same outcome. A real completion service can answer differently each time. No lemma depends on this.
- The event body as a nested dictionary: the model reads only `body["event"]["text"]`, as the `AppMention` datatype. A body without that key (a `KeyError` in Python) is not modelled.
- A failure of `say` itself (a Slack API error): `Say` always succeeds.
- Concurrent handler invocations: the trace of one session records the calls one after another.
- `MentionHandler.MentionSession.HandleMentions`: a raised exception is represented by the outcome `Raised`, not by stopping execution. The effects up to the raise are the same.
- `PyStr.ReplaceAll`: only a non-empty pattern is modelled. Python's special case for an empty pattern never arises, because the token always has at least three characters.
- `PyStr.IsWs`: lists the code points for which Python's `str.isspace()` holds. Text encodings and surrogate handling are not modelled, and strings are sequences of Dafny `char`.
