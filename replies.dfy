/** `generate_reply`: the reply both trigger paths send for a match id, a fixed
    body text and one action row of three link buttons. */
module Replies {
  import opened Text
  import opened MatchIds

  /** The button styles of the chat platform that the reply uses. */
  datatype ButtonStyle = Primary | Secondary | Success

  /** A link button: pressing it opens `url`; `caption` is the label shown on it. */
  datatype Button = LinkButton(url: string, caption: string, style: ButtonStyle)

  /** An action row; its buttons are shown in sequence order. */
  datatype ActionRow = Buttons(buttons: seq<Button>)

  /** A reply: body text plus the action rows shown under it. */
  datatype CreateReply = CreateReply(content: string, components: seq<ActionRow>)

  const BodyPrefix: string := "Extracted Match ID: **"
  const BodySuffix: string := "**"

  /** The game's deep link, wrapped in a redirect so that the chat client
      accepts it as a web link; the digit after it selects joining (0) or
      spectating (1). */
  const DeepLinkRedirect: string := "https://httpbin.org/redirect-to?url=aoe2de://"
  const AnalysisPrefix: string := "https://www.aoe2insights.com/match/"

  const JoinLabel: string := "Join lobby in game"
  const SpectateLabel: string := "Spectate match by clicking here"
  const AnalysisLabel: string := "Post-match analysis (on aoe2insights)"

  /** `aoe2de://<role>/<id>` behind the redirect. */
  function DeepLink(role: char, matchId: string): (url: string)
    ensures DeepLinkRedirect <= url
    ensures |url| == |DeepLinkRedirect| + 2 + |matchId|
    ensures url[|DeepLinkRedirect|] == role
    ensures url[|DeepLinkRedirect| + 1] == '/'
    ensures url[|DeepLinkRedirect| + 2..] == matchId
  {
    DeepLinkRedirect + [role] + "/" + matchId
  }

  /** The composed reply. The body names the id between bold markers; the
      single row holds, in this order, the join button (Success), the spectate
      button (Primary) and the analysis button (Secondary). The two deep links
      are the same text except for the role digit, 0 for joining and 1 for
      spectating; the analysis link is the id's match page. */
  function GenerateReply(matchId: string): (r: CreateReply)
    ensures r.content == BodyPrefix + matchId + BodySuffix
    ensures |r.components| == 1 && |r.components[0].buttons| == 3
    ensures var b := r.components[0].buttons;
      && b[0].style == Success && b[0].caption == JoinLabel
      && b[1].style == Primary && b[1].caption == SpectateLabel
      && b[2].style == Secondary && b[2].caption == AnalysisLabel
    ensures var b := r.components[0].buttons;
      && |DeepLinkRedirect| < |b[0].url| == |b[1].url|
      && b[0].url[|DeepLinkRedirect|] == '0' && b[1].url[|DeepLinkRedirect|] == '1'
      && forall k :: 0 <= k < |b[0].url| && k != |DeepLinkRedirect| ==> b[0].url[k] == b[1].url[k]
    ensures r.components[0].buttons[0].url == DeepLink('0', matchId)
    ensures r.components[0].buttons[1].url == DeepLink('1', matchId)
    ensures r.components[0].buttons[2].url == AnalysisPrefix + matchId + "/"
  {
    var join := DeepLink('0', matchId);
    var spectate := DeepLink('1', matchId);
    assert forall k :: 0 <= k < |join| && k != |DeepLinkRedirect| ==> join[k] == spectate[k];
    CreateReply(
      BodyPrefix + matchId + BodySuffix,
      [Buttons([
        LinkButton(join, JoinLabel, Success),
        LinkButton(spectate, SpectateLabel, Primary),
        LinkButton(AnalysisPrefix + matchId + "/", AnalysisLabel, Secondary)
      ])])
  }

  /** Reads the id back out of a reply body, if the body has the reply's shape. */
  function BodyMatchId(content: string): (r: Option<string>)
    ensures r.Some? ==> content == BodyPrefix + r.value + BodySuffix
    ensures r.None? ==> forall id :: content != BodyPrefix + id + BodySuffix
  {
    if |content| >= |BodyPrefix| + |BodySuffix|
      && content[..|BodyPrefix|] == BodyPrefix
      && content[|content| - |BodySuffix|..] == BodySuffix
    then
      var id := content[|BodyPrefix|..|content| - |BodySuffix|];
      assert content == content[..|BodyPrefix|] + id + content[|content| - |BodySuffix|..];
      Some(id)
    else
      assert forall id :: (BodyPrefix + id + BodySuffix)[..|BodyPrefix|] == BodyPrefix;
      assert forall id :: var c := BodyPrefix + id + BodySuffix; c[|c| - |BodySuffix|..] == BodySuffix;
      None
  }

  /** The body gives the id back: composing loses nothing. */
  lemma BodyRoundTrip(matchId: string)
    ensures BodyMatchId(GenerateReply(matchId).content) == Some(matchId)
  {
    var c := GenerateReply(matchId).content;
    assert c[|BodyPrefix|..|c| - |BodySuffix|] == matchId;
  }

  /** Different ids never get the same reply. */
  lemma GenerateReplyInjective(a: string, b: string)
    requires GenerateReply(a) == GenerateReply(b)
    ensures a == b
  {
    BodyRoundTrip(a);
    BodyRoundTrip(b);
  }

  /** Searching the reply's own body for a match id finds the id it was built
      from: the id sits between `*` characters and the fixed text has no
      digits. */
  lemma ReplyBodyReExtracts(matchId: string)
    requires IsMatchId(matchId)
    ensures ExtractMatchId(GenerateReply(matchId).content) == Some(matchId)
  {
    assert NoDigits(BodyPrefix) by {
      forall k | 0 <= k < |BodyPrefix| ensures !IsDigit(BodyPrefix[k]) {
      }
    }
    SoleDigitRun(BodyPrefix, matchId, BodySuffix);
  }
}
