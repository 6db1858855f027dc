/** Cleaning of an app-mention's text: the bot's own mention token is removed
    wherever the one-pass replacement finds it, and the rest is stripped of
    outer whitespace before it becomes the instruction for the drafter. */
module Mention {
  import opened PyStr

  /** Slack's markup for a mention of the bot: `<@` + bot user id + `>`. */
  function MentionToken(botUserId: string): (t: string)
    ensures |t| == |botUserId| + 3
    ensures t[0] == '<' && t[1] == '@' && t[|t| - 1] == '>'
    ensures t[2..|t| - 1] == botUserId
  {
    "<@" + botUserId + ">"
  }

  /** Distinct bot ids give distinct tokens: the token names one bot. */
  lemma MentionTokenInjective(a: string, b: string)
    requires MentionToken(a) == MentionToken(b)
    ensures a == b
  {
    var t := MentionToken(a);
    assert a == t[2..|t| - 1];
  }

  /** The token starts with `<` and ends with `>`, so stripping leaves it as
      it is. */
  lemma StripMentionToken(botUserId: string)
    ensures Strip(MentionToken(botUserId)) == MentionToken(botUserId)
  {
    var tok := MentionToken(botUserId);
    assert !IsWs(tok[0]) && !IsWs(tok[|tok| - 1]);
    StripNoOuterWs(tok);
  }

  /** `text.replace(mention, "").strip()`: the instruction handed to the
      drafter. */
  function Clean(botUserId: string, text: string): (instruction: string)
    ensures instruction == [] || (!IsWs(instruction[0]) && !IsWs(instruction[|instruction| - 1]))
  {
    Strip(ReplaceAll(text, MentionToken(botUserId), ""))
  }

  /** Before the strip, the text has lost exactly `k` whole tokens, where `k`
      is the number of occurrences the left-to-right scan removed: the removed
      characters are the occurrences found by searching for the leftmost
      token and resuming after it, and the characters left keep their order. */
  lemma CleanRemovesWholeTokens(botUserId: string, text: string)
    ensures var tok := MentionToken(botUserId);
            ReplaceAll(text, tok, "") == ReplaceByFind(text, tok, "", 0)
    ensures var tok := MentionToken(botUserId);
            |ReplaceAll(text, tok, "")| == |text| - CountReplaced(text, tok) * |tok|
    ensures IsSubsequence(ReplaceAll(text, MentionToken(botUserId), ""), text)
    ensures var tok := MentionToken(botUserId);
            CountReplaced(text, tok) > 0 <==> Occurs(text, tok)
  {
    var tok := MentionToken(botUserId);
    ReplaceAllIsLeftmostNonOverlapping(text, tok, "");
    ReplaceAllLength(text, tok, "");
    RemoveAllKeepsOrder(text, tok);
    CountReplacedPositiveIff(text, tok);
  }

  /** A text that mentions the bot exactly once, between `before` and
      `after`, loses just that mention, and the rest is stripped. */
  lemma CleanSingleMention(botUserId: string, before: string, after: string)
    requires var tok := MentionToken(botUserId);
             forall j :: j != |before| ==> !OccursAt(before + tok + after, tok, j)
    ensures Clean(botUserId, before + MentionToken(botUserId) + after) == Strip(before + after)
  {
    ReplaceAllOnce(before, MentionToken(botUserId), after, "");
    assert before + "" + after == before + after;
  }

  /** A text that does not mention the bot is only stripped. */
  lemma CleanWithoutMention(botUserId: string, text: string)
    requires !Occurs(text, MentionToken(botUserId))
    ensures Clean(botUserId, text) == Strip(text)
  {
    ReplaceAllNoOccurrence(text, MentionToken(botUserId), "");
  }

  /** A pattern whose first character is absent from `s` does not occur in it. */
  lemma NoOccurrenceWithoutFirstChar(s: string, pat: string)
    requires pat != []
    requires forall k :: 0 <= k < |s| ==> s[k] != pat[0]
    ensures !Occurs(s, pat)
  {
    forall i | 0 <= i && i + |pat| <= |s| ensures !OccursAt(s, pat, i) {
      assert s[i..i + |pat|][0] == s[i];
    }
  }

  /** Nothing after a leading mention and a space is an occurrence when the
      rest does not mention the bot. */
  lemma NoMentionAfterLeading(botUserId: string, s: string, j: nat)
    requires !Occurs(s, MentionToken(botUserId))
    requires |MentionToken(botUserId)| <= j
    ensures !OccursAt(MentionToken(botUserId) + " " + s, MentionToken(botUserId), j)
  {
    var tok := MentionToken(botUserId);
    var text := tok + " " + s;
    var n := |tok|;
    if j == n {
      assert text[n] == ' ' != tok[0];
      NotOccursAtMismatch(text, tok, n, 0);
    } else if j <= |text| {
      assert text[n + 1..] == s;
      OccursAtShift(text, tok, n + 1, j - (n + 1));
    }
  }

  /** Removing the mention from the mention, a space and a text that does not
      mention the bot leaves the space and that text. */
  lemma RemoveLeadingMention(botUserId: string, s: string)
    requires !Occurs(s, MentionToken(botUserId))
    ensures ReplaceAll(MentionToken(botUserId) + " " + s, MentionToken(botUserId), "") == [' '] + s
  {
    var tok := MentionToken(botUserId);
    var text := tok + " " + s;
    var n := |tok|;
    assert text[0..n] == tok;
    ReplaceFromAtNext(text, tok, "", 0, 0);
    forall j | n <= j ensures !OccursAt(text, tok, j) {
      NoMentionAfterLeading(botUserId, s, j);
    }
    ReplaceFromNoOccurrence(text, tok, "", n);
    assert text[n..] == [' '] + s;
  }

  /** The usual message: the mention, one space, then an instruction that does
      not mention the bot and has no outer whitespace. The drafter receives
      exactly that instruction. */
  lemma CleanLeadingMention(botUserId: string, s: string)
    requires !Occurs(s, MentionToken(botUserId))
    requires s == [] || (!IsWs(s[0]) && !IsWs(s[|s| - 1]))
    ensures Clean(botUserId, MentionToken(botUserId) + " " + s) == s
  {
    RemoveLeadingMention(botUserId, s);
    StripLeadingWs(' ', s);
    StripNoOuterWs(s);
  }

  /** The example message: `"<@U123> draft a thank-you note"` with bot id
      `U123` becomes `"draft a thank-you note"`. */
  lemma CleanExample()
    ensures Clean("U123", "<@U123> draft a thank-you note") == "draft a thank-you note"
  {
    var s := "draft a thank-you note";
    assert MentionToken("U123") + " " + s == "<@U123> draft a thank-you note";
    NoOccurrenceWithoutFirstChar(s, MentionToken("U123"));
    CleanLeadingMention("U123", s);
  }

  /** Removing the token from `"<@" + token + id + ">"` joins the two halves
      around it into a new token. */
  lemma RemoveNestedMention(botUserId: string)
    requires botUserId == [] || botUserId[0] != '<'
    ensures var tok := MentionToken(botUserId);
            ReplaceAll("<@" + tok + botUserId + ">", tok, "") == tok
  {
    var tok := MentionToken(botUserId);
    var s := "<@" + tok + (botUserId + ">");
    assert "<@" + tok + botUserId + ">" == s;
    forall j | 0 <= j < 2 ensures !OccursAt(s, tok, j) {
      if j == 0 {
        // the third characters differ
        assert s[2] == '<' && tok[2] != '<';
        NotOccursAtMismatch(s, tok, 0, 2);
      } else {
        // `@` is not `<`
        NotOccursAtMismatch(s, tok, 1, 0);
      }
    }
    ReplaceAllAround("<@", tok, botUserId + ">", "");
  }

  /** The scan does not look again at what it has just joined together, so a
      cleaned instruction can still hold the bot's mention token: for bot
      `U1`, `"<@<@U1>U1>"` cleans to `"<@U1>"`. */
  lemma CleanMayLeaveMention(botUserId: string)
    requires botUserId == [] || botUserId[0] != '<'
    ensures var tok := MentionToken(botUserId);
            Clean(botUserId, "<@" + tok + botUserId + ">") == tok
  {
    RemoveNestedMention(botUserId);
    StripMentionToken(botUserId);
  }

  /** The instance above for bot `U1`: the cleaned instruction still mentions
      the bot. */
  lemma CleanMayLeaveMentionU1()
    ensures Clean("U1", "<@<@U1>U1>") == "<@U1>"
    ensures OccursAt(Clean("U1", "<@<@U1>U1>"), MentionToken("U1"), 0)
  {
    CleanMayLeaveMention("U1");
    assert MentionToken("U1") == "<@U1>";
    assert "<@" + "<@U1>" + "U1" + ">" == "<@<@U1>U1>";
  }
}
