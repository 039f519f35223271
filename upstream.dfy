/** The statistics commands `rank`, `team_rank` and `leaderboard`: the URLs
    they fetch, and the post-processing of the leaderboard text. The fetch
    itself is network I/O and is not modelled; the fetched body is an input. */
module Upstream {
  import opened Text

  /** `PLAYER_IDS`: the roster shown by the leaderboard, in declaration order. */
  const PlayerIds: seq<string> :=
    ["9997875", "6903668", "1489563", "15625569", "2543215", "1228227"]

  const NightbotApiUrl: string := "https://data.aoe2companion.com/api/nightbot/rank"

  /** The query before and after the player name, for a ladder. */
  function RankQueryHead(leaderboardId: char): string {
    NightbotApiUrl + "?leaderboard_id=" + [leaderboardId] + "&search="
  }
  const RankQueryTail: string := "&profile_id=12348548&flag=true"

  /** The ladder digit sits right after this many characters. */
  const LadderIndex: nat := |NightbotApiUrl + "?leaderboard_id="|

  /** `rank`: the 1v1 random-map ladder (leaderboard 3). The URL is the rank
      query for ladder 3 with the player name, verbatim and without
      percent-encoding, between the search head and the fixed tail. */
  function RankUrl(playerName: string): (url: string)
    ensures |url| == |RankQueryHead('3')| + |playerName| + |RankQueryTail|
    ensures url[..|RankQueryHead('3')|] == RankQueryHead('3')
    ensures url[LadderIndex] == '3'
    ensures url[|RankQueryHead('3')|..|url| - |RankQueryTail|] == playerName
    ensures url[|url| - |RankQueryTail|..] == RankQueryTail
  {
    var url := NightbotApiUrl + "?leaderboard_id=3&search=" + playerName + "&profile_id=12348548&flag=true";
    LadderQueries(playerName);
    url
  }

  /** `team_rank`: the team random-map ladder (leaderboard 4). Its URL is the
      `rank` URL for the same player with the ladder digit 4 in place of 3,
      and is the same text everywhere else. */
  function TeamRankUrl(playerName: string): (url: string)
    ensures |url| == |RankUrl(playerName)|
    ensures url[LadderIndex] == '4'
    ensures forall k :: 0 <= k < |url| && k != LadderIndex ==> url[k] == RankUrl(playerName)[k]
  {
    var url := NightbotApiUrl + "?leaderboard_id=4&search=" + playerName + "&profile_id=12348548&flag=true";
    LadderQueries(playerName);
    url
  }

  /** Both rank queries are one text with the ladder digit at `LadderIndex`. */
  lemma LadderQueries(playerName: string)
    ensures var prefix := NightbotApiUrl + "?leaderboard_id=";
      var rest := "&search=" + playerName + RankQueryTail;
      && NightbotApiUrl + "?leaderboard_id=3&search=" + playerName + "&profile_id=12348548&flag=true" == prefix + "3" + rest
      && NightbotApiUrl + "?leaderboard_id=4&search=" + playerName + "&profile_id=12348548&flag=true" == prefix + "4" + rest
  {
    assert "?leaderboard_id=3&search=" == "?leaderboard_id=" + "3" + "&search=";
    assert "?leaderboard_id=4&search=" == "?leaderboard_id=" + "4" + "&search=";
  }

  /** The URL determines the player searched for. */
  lemma RankUrlInjective(a: string, b: string)
    requires RankUrl(a) == RankUrl(b) || TeamRankUrl(a) == TeamRankUrl(b)
    ensures a == b
  {
    var head := |RankQueryHead('3')|;
    var u := if RankUrl(a) == RankUrl(b) then RankUrl(a) else TeamRankUrl(a);
    assert |a| == |b|;
    assert a == u[head..head + |a|];
  }

  const LeaderboardHead: string := "https://www.aoe2insights.com/nightbot/leaderboard/3/?user_ids="
  const LeaderboardTail: string := "&rank=global&limit=5"

  /** `leaderboard`: the roster's ids joined with commas into `user_ids`. */
  function LeaderboardUrl(): (url: string)
    ensures LeaderboardHead <= url
    ensures url[|url| - |LeaderboardTail|..] == LeaderboardTail
  {
    var url := LeaderboardHead + Join(PlayerIds, ",") + LeaderboardTail;
    assert url[..|LeaderboardHead|] == LeaderboardHead;
    url
  }

  /** The `user_ids` parameter names every roster id, in declaration order:
      splitting it at the commas gives `PlayerIds` back. */
  lemma LeaderboardUserIds()
    ensures var url := LeaderboardUrl();
      Split(url[|LeaderboardHead|..|url| - |LeaderboardTail|], ',') == PlayerIds
  {
    var url := LeaderboardUrl();
    var ids := Join(PlayerIds, ",");
    assert url[|LeaderboardHead|..|url| - |LeaderboardTail|] == ids;
    forall i | 0 <= i < |PlayerIds| ensures ',' !in PlayerIds[i] {
    }
    SplitJoin(PlayerIds, ',');
  }

  /** The attribution the upstream service appends, and the separator between
      leaderboard entries. */
  const Attribution: string := "(by aoe2insights.com)"
  const Separator: string := ", "

  /** The attribution removed, with all occurrences. */
  function StripAttribution(s: string): (r: string)
    ensures !Contains(s, Attribution) ==> r == s
    ensures Contains(s, Attribution) ==> |r| < |s|
    ensures |r| <= |s|
  {
    ReplaceAll(s, Attribution, "")
  }

  /** After every separator has become a line break none is left: a comma is
      only copied when the next character is not a space, and the next output
      character is then that character or a line break. */
  lemma {:induction false} NoSeparatorAfterSplit(s: string)
    ensures !Contains(ReplaceAll(s, Separator, "\n"), Separator)
    ensures |s| > 0 ==> var r := ReplaceAll(s, Separator, "\n");
      |r| > 0 && r[0] == (if Separator <= s then '\n' else s[0])
    decreases |s|
  {
    if |s| > 0 {
      if Separator <= s {
        var rest := ReplaceAll(s[2..], Separator, "\n");
        assert ReplaceAll(s, Separator, "\n") == "\n" + rest;
        NoSeparatorAfterSplit(s[2..]);
        assert ("\n" + rest)[1..] == rest;
        assert !(Separator <= "\n" + rest) by { assert Separator[0] != '\n'; }
      } else {
        var rest := ReplaceAll(s[1..], Separator, "\n");
        assert ReplaceAll(s, Separator, "\n") == [s[0]] + rest;
        NoSeparatorAfterSplit(s[1..]);
        assert ([s[0]] + rest)[1..] == rest;
      }
    }
  }

  /** Each of `es` with the attribution removed. */
  function StripEach(es: seq<string>): (r: seq<string>)
    ensures |r| == |es|
    ensures forall i :: 0 <= i < |es| ==> r[i] == StripAttribution(es[i])
  {
    seq(|es|, i requires 0 <= i < |es| => StripAttribution(es[i]))
  }

  /** The attribution holds no comma, and its only opening parenthesis is
      its first character. */
  lemma AttributionShape()
    ensures forall k :: 0 <= k < |Attribution| ==> Attribution[k] != ','
    ensures Attribution[0] == '('
    ensures forall k :: 0 < k < |Attribution| ==> Attribution[k] != '('
  {
  }

  /** An occurrence of the attribution never spans a separator: it holds no
      comma and does not start with a comma or a space. */
  lemma StripAroundSeparator(e: string, tail: string)
    ensures StripAttribution(e + (Separator + tail))
      == StripAttribution(e) + Separator + StripAttribution(tail)
  {
    var s := e + (Separator + tail);
    AttributionShape();
    forall i | 0 <= i < |e| < i + |Attribution|
      ensures !OccursAt(s, Attribution, i)
    {
      if i + |Attribution| <= |s| {
        assert s[i..i + |Attribution|][|e| - i] == s[|e|] == ',';
      }
    }
    ReplaceAllConcat(e, Separator + tail, Attribution, "");
    forall i | 0 <= i < |Separator| < i + |Attribution|
      ensures !OccursAt(Separator + tail, Attribution, i)
    {
      if i + |Attribution| <= |Separator + tail| {
        assert (Separator + tail)[i..i + |Attribution|][0] == (Separator + tail)[i];
      }
    }
    ReplaceAllConcat(Separator, tail, Attribution, "");
    ContainsNotLonger(Separator, Attribution);
  }

  /** Stripping the joined entries strips each entry. */
  lemma {:induction false} StripJoin(es: seq<string>)
    ensures StripAttribution(Join(es, Separator)) == Join(StripEach(es), Separator)
    decreases |es|
  {
    if |es| >= 2 {
      var tail := Join(es[1..], Separator);
      assert Join(es, Separator) == es[0] + (Separator + tail);
      StripAroundSeparator(es[0], tail);
      StripJoin(es[1..]);
      var stripped := StripEach(es);
      assert StripEach(es[1..]) == stripped[1..];
      assert Join(stripped, Separator) == stripped[0] + Separator + Join(stripped[1..], Separator);
    } else if |es| == 0 {
      assert Join(es, Separator) == [];
    }
  }

  /** One entry free of separators, then a separator: the separator becomes a
      line break and the entry is copied. */
  lemma SeparatorStep(e: string, tail: string)
    requires !Contains(e, Separator)
    ensures ReplaceAll(e + (Separator + tail), Separator, "\n") == e + "\n" + ReplaceAll(tail, Separator, "\n")
  {
    var s := e + (Separator + tail);
    forall i | 0 <= i < |e| < i + |Separator|
      ensures !OccursAt(s, Separator, i)
    {
      assert s[|e|] == ',';
      if i + |Separator| <= |s| {
        assert s[i..i + |Separator|][1] == s[|e|];
      }
    }
    ReplaceAllConcat(e, Separator + tail, Separator, "\n");
    forall i | 0 <= i < |Separator| < i + |Separator|
      ensures !OccursAt(Separator + tail, Separator, i)
    {
      assert (Separator + tail)[i] == ' ';
    }
    ReplaceAllConcat(Separator, tail, Separator, "\n");
    assert ReplaceAll(Separator, Separator, "\n") == "\n" by {
      assert Separator[2..] == [];
    }
  }

  /** Entries free of separators come out one per line. */
  lemma {:induction false} SplitJoinedEntries(es: seq<string>)
    requires forall i :: 0 <= i < |es| ==> !Contains(es[i], Separator)
    ensures ReplaceAll(Join(es, Separator), Separator, "\n") == Join(es, "\n")
    decreases |es|
  {
    if |es| >= 2 {
      var tail := Join(es[1..], Separator);
      assert Join(es, Separator) == es[0] + (Separator + tail);
      SeparatorStep(es[0], tail);
      SplitJoinedEntries(es[1..]);
    } else if |es| == 0 {
      assert Join(es, Separator) == [];
    }
  }

  /** The leaderboard text is a list of entries separated by `", "`: the
      reply shows each entry on its own line, with the attribution removed
      from it, provided no entry holds a separator once stripped. */
  lemma FormatLeaderboardEntries(es: seq<string>)
    requires forall i :: 0 <= i < |es| ==> !Contains(StripAttribution(es[i]), Separator)
    ensures FormatLeaderboard(Join(es, Separator)) == Join(StripEach(es), "\n")
  {
    StripJoin(es);
    SplitJoinedEntries(StripEach(es));
  }

  /** The leaderboard reply: the attribution removed first, then one line per
      entry. The result never holds a separator, and text that holds neither
      the attribution nor a separator is passed on unchanged. */
  function FormatLeaderboard(raw: string): (r: string)
    ensures !Contains(r, Separator)
    ensures !Contains(raw, Attribution) && !Contains(raw, Separator) ==> r == raw
  {
    var stripped := StripAttribution(raw);
    NoSeparatorAfterSplit(stripped);
    ReplaceAll(stripped, Separator, "\n")
  }

  /** Removing the attribution from an entry that ends with it keeps the text
      before it, including the space in front of the parenthesis. */
  lemma StripTrailingAttribution(name: string)
    requires !Contains(name, Attribution)
    ensures StripAttribution(name + Attribution) == name
  {
    var s := name + Attribution;
    AttributionShape();
    forall i | 0 <= i < |name| < i + |Attribution|
      ensures !OccursAt(s, Attribution, i)
    {
      // Such an occurrence would need a second opening parenthesis.
      assert s[|name|] == '(';
      if i + |Attribution| <= |s| {
        assert s[i..i + |Attribution|][|name| - i] == s[|name|];
      }
    }
    ReplaceAllConcat(name, Attribution, Attribution, "");
    assert ReplaceAll(Attribution, Attribution, "") == [] by {
      assert Attribution[|Attribution|..] == [];
    }
  }

  // The worked example's entries are a parameter fixed by `requires`, so
  // that the verifier applies the general lemmas to them instead of
  // evaluating the functions over the literals.

  /** The entries of the worked example, joined. */
  lemma ExampleJoin(es: seq<string>)
    requires es == ["A", "B " + Attribution, "C"]
    ensures Join(es, Separator) == "A, B (by aoe2insights.com), C"
  {
    assert Join(es[2..], Separator) == es[2];
    assert Join(es[1..], Separator) == es[1] + Separator + es[2];
    assert Join(es, Separator) == es[0] + Separator + (es[1] + Separator + es[2]);
    assert "A, B (by aoe2insights.com), C" == "A" + Separator + ("B " + Attribution + Separator + "C");
  }

  /** The entries of the worked example, stripped. */
  lemma ExampleStrip(es: seq<string>)
    requires es == ["A", "B " + Attribution, "C"]
    ensures StripEach(es) == ["A", "B ", "C"]
  {
    StripTrailingAttribution("B ");
    ContainsNotLonger("A", Attribution);
    ContainsNotLonger("C", Attribution);
  }

  /** The worked example: the attribution is removed before the split, so the
      space in front of it stays at the end of its line. */
  lemma FormatLeaderboardExample()
    ensures FormatLeaderboard("A, B (by aoe2insights.com), C") == "A\nB \nC"
  {
    var es := ["A", "B " + Attribution, "C"];
    var stripped := ["A", "B ", "C"];
    ExampleJoin(es);
    ExampleStrip(es);
    ContainsNeedsFirstChar("A", Separator);
    ContainsNeedsFirstChar("B ", Separator);
    ContainsNeedsFirstChar("C", Separator);
    FormatLeaderboardEntries(es);
    assert Join(stripped, "\n") == "A\nB \nC";
  }
}
