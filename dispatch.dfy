/** The two ways a match id reaches the bot, as decisions: the `match_info`
    command, and the `Message` branch of the event handler that scans ordinary
    chat. Sending the reply is the chat library's business; these functions
    say what is sent. */
module Dispatch {
  import opened Text
  import opened MatchIds
  import opened Replies

  /** What the command answers: a composed reply (`ctx.send`) or plain text
      (`ctx.say`). */
  datatype CommandReply = Send(reply: CreateReply) | Say(text: string)

  const NoMatchText: string := "No 9-digit match ID found in the input."

  /** The phrase a chat message must contain, in any case, to be scanned. */
  const Trigger: string := "aoe2de"

  /** `match_info`: the reply for the leftmost match id in the argument, or the
      fixed diagnostic text when the argument holds none. */
  function MatchInfo(matchId: string): (r: CommandReply)
    ensures r.Say? <==> forall q :: !MatchesAt(matchId, q)
    ensures r.Say? ==> r.text == NoMatchText
    ensures r.Send? ==>
      exists p :: IsLeftmostMatch(matchId, p) && r.reply == GenerateReply(matchId[p..p + IdLength])
  {
    match ExtractMatchId(matchId)
    case Some(id) => Send(GenerateReply(id))
    case None => Say(NoMatchText)
  }

  /** The `Message` branch: the bot answers only a message by someone else
      whose lower-cased text contains the trigger, and only when the
      lower-cased text holds a match id; the answer is the reply for that id.
      Since lower-casing moves no word boundary, the id is the leftmost match
      in the message as written. A miss after the guards sends nothing. */
  function PassiveReply(content: string, authorId: nat, selfId: nat): (r: Option<CreateReply>)
    ensures authorId == selfId ==> r == None
    ensures !Contains(ToLower(content), Trigger) ==> r == None
    ensures r.Some? <==>
      authorId != selfId && Contains(ToLower(content), Trigger) && exists q :: MatchesAt(content, q)
    ensures r.Some? ==>
      exists p :: IsLeftmostMatch(content, p) && r.value == GenerateReply(content[p..p + IdLength])
  {
    var lower := ToLower(content);
    ExtractIgnoresCase(content);
    if Contains(lower, Trigger) && authorId != selfId then
      match ExtractMatchId(lower)
      case Some(id) => Some(GenerateReply(id))
      case None => None
    else
      None
  }

  /** The gateway events the handler receives. */
  datatype Event =
    | Ready
    | Message(content: string, authorId: nat)
    | Other

  /** `event_handler`: only a chat message can draw an answer, and never one
      the bot wrote itself. */
  function HandleEvent(event: Event, selfId: nat): (r: Option<CreateReply>)
    ensures !event.Message? ==> r == None
    ensures event.Message? ==> r == PassiveReply(event.content, event.authorId, selfId)
    ensures r.Some? ==> event.Message? && event.authorId != selfId
    ensures event.Message? && event.authorId != selfId
      && Contains(ToLower(event.content), Trigger) && MatchesAt(event.content, 0)
      ==> r == Some(GenerateReply(event.content[..IdLength]))
  {
    match event
    case Message(content, authorId) =>
      assert MatchesAt(content, 0) ==> IsLeftmostMatch(content, 0);
      PassiveReply(content, authorId, selfId)
    case _ => None
  }

  /** Command and chat give the same answer: once the guards pass, the chat
      path answers exactly when `match_info` on the same text would send a
      composed reply, and with that very reply. */
  lemma PassiveMatchesCommand(content: string, authorId: nat, selfId: nat)
    requires authorId != selfId && Contains(ToLower(content), Trigger)
    ensures MatchInfo(content).Send? ==> PassiveReply(content, authorId, selfId) == Some(MatchInfo(content).reply)
    ensures MatchInfo(content).Say? ==> PassiveReply(content, authorId, selfId) == None
  {
    ExtractIgnoresCase(content);
  }

  /** A message that names a match id, typed in capitals, draws the same
      reply as the lower-case message. */
  lemma PassiveIgnoresCase(content: string, authorId: nat, selfId: nat)
    ensures PassiveReply(ToLower(content), authorId, selfId) == PassiveReply(content, authorId, selfId)
  {
    ToLowerIdempotent(content);
    ExtractIgnoresCase(content);
    ExtractIgnoresCase(ToLower(content));
  }

  // The worked cases take their texts as parameters fixed by `requires`:
  // with the literals written inline, the verifier would evaluate the scan
  // over them character by character, which is far costlier than applying
  // the general lemmas above to the pieces.

  /** Worked case: an id between spaces is found and composed. */
  lemma MatchInfoIsolatedExample(before: string, id: string, after: string)
    requires before == "check match " && id == "123456789" && after == " please"
    ensures MatchInfo(before + id + after) == Send(GenerateReply("123456789"))
  {
    assert NoDigits(before) && NoDigits(after) && IsMatchId(id);
    SoleDigitRun(before, id, after);
  }

  /** Worked case: an eleven-digit number holds no match id. */
  lemma MatchInfoLongRunExample(before: string, digits: string)
    requires before == "my number is " && digits == "11234567890"
    ensures MatchInfo(before + digits) == Say("No 9-digit match ID found in the input.")
  {
    assert NoDigits(before) && NoDigits([]);
    assert forall k :: 0 <= k < |digits| ==> IsDigit(digits[k]);
    SoleDigitRun(before, digits, []);
    assert before + digits + [] == before + digits;
  }

  /** Worked case: digits glued to letters are no id. */
  lemma MatchInfoGluedExample(letters: string, id: string)
    requires letters == "abc" && id == "123456789"
    ensures MatchInfo(letters + id) == Say(NoMatchText)
  {
    assert NoDigits(letters) && NoDigits([]) && IsMatchId(id);
    SoleDigitRun(letters, id, []);
    assert letters + id + [] == letters + id;
  }

  /** Worked case: digits between slashes are an id. */
  lemma MatchInfoSlashedExample(slash: string, id: string)
    requires slash == "/" && id == "123456789"
    ensures MatchInfo(slash + id + slash) == Send(GenerateReply("123456789"))
  {
    assert NoDigits(slash) && IsMatchId(id);
    SoleDigitRun(slash, id, slash);
  }

  /** Worked case: a game link draws the reply for the id in it, unless the
      bot itself posted it. */
  lemma PassiveLinkExample(link: string, id: string, other: nat, self: nat)
    requires link == "aoe2de://0/" && id == "123456789" && other != self
    ensures PassiveReply(link + id, other, self) == Some(GenerateReply("123456789"))
    ensures PassiveReply(link + id, self, self) == None
  {
    LinkExampleId(link, id);
    LinkExampleTrigger(link + id);
  }

  /** The id of the game link is found: nothing before it matches. */
  lemma LinkExampleId(link: string, id: string)
    requires link == "aoe2de://0/" && id == "123456789"
    ensures ExtractMatchId(ToLower(link + id)) == Some(id)
  {
    // Any nine characters of the link include its `d`, which is no digit.
    assert ExtractMatchId(link) == None by {
      forall q ensures !MatchesAt(link, q) {
        if 0 <= q && q + IdLength <= |link| {
          assert !IsDigit(link[4]);
        }
      }
    }
    assert IsMatchId(id);
    FirstIsolatedToken(link, id, []);
    assert link + id + [] == link + id;
    ExtractIgnoresCase(link + id);
  }

  /** The game link carries the trigger. */
  lemma LinkExampleTrigger(message: string)
    requires message == "aoe2de://0/123456789"
    ensures Contains(ToLower(message), Trigger)
  {
    ToLowerKeepsLower(message);
    assert Trigger <= message;
  }

  /** Worked case: a message with the trigger but no id draws nothing. */
  lemma PassiveNoIdExample(before: string, digit: string, after: string, other: nat, self: nat)
    requires before == "anyone want to play aoe" && digit == "2" && after == "de?"
    ensures PassiveReply(before + digit + after, other, self) == None
  {
    assert NoDigits(before) && NoDigits(after) && IsDigit(digit[0]);
    SoleDigitRun(before, digit, after);
  }
}
