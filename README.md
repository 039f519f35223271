# baburao — a model of the match-id bot's dispatch and extraction core

baburao is a chat bot for Age of Empires II players. Chat messages reach it
in two ways:

- the `match_info` command, which takes a link or some text holding a match id;
- ordinary chat messages that mention `aoe2de`, which the bot scans passively.

In both cases the bot takes the leftmost match of the regular expression
`\b\d{9}\b` and answers with one fixed reply. The reply has a body naming
the id and three link buttons: join the lobby in game, spectate the match,
and open the post-match analysis. The `rank`, `team_rank` and `leaderboard`
commands fetch text from statistics services. The leaderboard text is then
reformatted, one entry per line with the attribution removed.

The project models these decisions as pure functions over strings, in five
modules:

- `Text`: the Rust string operations the bot uses. These are `to_lowercase`,
  `contains`, `replace` and `join`, plus `split` as the inverse of `join`.
  Characters are ASCII.
- `MatchIds`: the regular expression. `MatchesAt` says where it matches.
  `ScanFrom` is an explicit left-to-right scan over runs of word characters,
  proved to return the leftmost match.
- `Replies`: `generate_reply`, together with the parse that reads the id
  back out of the reply body.
- `Upstream`: the URLs the statistics commands fetch and the leaderboard
  post-processing. The fetched body is an input.
- `Dispatch`: the `match_info` command and the `Message` branch of the event
  handler. This includes the self-message guard, the `aoe2de` guard, parity
  between the command and chat paths, and worked cases.

Three behaviours of the code are easy to misread, and the model keeps them
as written:

- **The boundary around an id.** The `\b` around the digits is a word
  boundary, not a digit boundary. A letter or `_` glued to the digits
  prevents a match just as another digit does, so `abc123456789` gives no id
  (`MatchInfoGluedExample`).
- **The space before the attribution.** The leaderboard post-processing
  removes only the parenthesised attribution and then turns each `", "`
  into a line break. The space in front of the attribution stays, so
  `"A, B (by aoe2insights.com), C"` becomes `"A\nB \nC"`
  (`FormatLeaderboardExample`).
- **Fetch failures.** A failed fetch propagates with `?` to the command
  framework. The commands send no failure reply of their own; that path is
  under "Left out".

## Model

| member | source | states |
|---|---|---|
| Text.Lower | src/main.rs:154 | an upper-case letter becomes the lower-case letter at the same place in the alphabet; every other character is unchanged; digits and word characters keep their class |
| Text.ToLower | src/main.rs:154 | same length, each character lower-cased, no upper-case letter left |
| Text.ToLowerIdempotent | src/main.rs:157 | lower-casing twice equals lower-casing once |
| Text.ToLowerKeepsLower | src/main.rs:154 | text with no upper-case letter is its own lower case |
| Text.ContainsIffOccurs | src/main.rs:154 | the `contains` search succeeds exactly when the pattern occurs at some index (both directions) |
| Text.ContainsNotLonger | src/main.rs:154 | a pattern longer than the text is never contained in it |
| Text.ContainsNeedsFirstChar | src/main.rs:154 | a text lacking the pattern's first character does not contain the pattern |
| Text.ReplaceAll | src/main.rs:128-129 | with no occurrence, the text is unchanged; replacing a pattern by itself changes nothing; an occurrence at the front is replaced by `rep`; a shorter replacement never lengthens the text and shortens it when the pattern occurs |
| Text.ReplaceFirstOccurrence | src/main.rs:128-129 | when no occurrence starts before it, the first occurrence is replaced by `rep`, the text before it is copied and the replacing goes on after it |
| Text.ReplaceAllConcat | src/main.rs:128-129 | replacing distributes over a concatenation that no occurrence straddles |
| Text.Join | src/main.rs:120 | a one-element list joins to that element; a non-empty list's join starts with its first element |
| Text.Split | src/main.rs:120 | there is always at least one piece, and no piece contains the separator |
| Text.SplitJoin | src/main.rs:120 | splitting a joined non-empty list whose elements lack the separator gives the list back |
| MatchIds.WordRunMatches | src/main.rs:72 | at the start of a word run the expression matches exactly when the run is nine digits; it never matches inside the run or on the character that ends it |
| MatchIds.ScanFrom | src/main.rs:72-75 | a found position matches and no earlier position from the start does; none found means no match at or after the start |
| MatchIds.FindMatchId | src/main.rs:75 | the position found is the leftmost match; none found means the expression matches nowhere |
| MatchIds.ExtractMatchId | src/main.rs:72-76 | the capture is a nine-digit id and is the text at the leftmost match; there is none exactly when nothing matches |
| MatchIds.ExtractIsLeftmost | src/main.rs:75-76 | whenever a leftmost match exists, its text is the capture |
| MatchIds.ExtractIgnoresCase | src/main.rs:157 | searching the lower-cased text gives the same capture as searching the text as written |
| MatchIds.SoleDigitRun | src/main.rs:72 | when a text's only digits form one run, the run is captured exactly when it has nine digits and a word boundary on each side; otherwise nothing is captured |
| MatchIds.FirstIsolatedToken | src/main.rs:72-76 | a bounded nine-digit token is captured whenever the text before it holds no match, whatever follows it |
| Replies.DeepLink | src/main.rs:40-49 | the game link starts with the redirect, then the role digit, then `/`, then the id |
| Replies.GenerateReply | src/main.rs:36-63 | the body text; one row of three buttons with their labels and styles in order; the join link is the game link with role 0 and the spectate link the one with role 1, identical except for that digit; the analysis link is the id's match page |
| Replies.BodyMatchId | src/main.rs:37 | a parsed id rebuilds the body exactly; no parse means no id rebuilds the body |
| Replies.BodyRoundTrip | src/main.rs:37 | parsing a reply's body gives back the id the reply was composed from |
| Replies.GenerateReplyInjective | src/main.rs:36-63 | different ids never give the same reply |
| Replies.ReplyBodyReExtracts | src/main.rs:37 | the expression run over a reply body captures the id that body was composed from |
| Upstream.RankUrl | src/main.rs:93-96 | the ladder-3 query head, with ladder digit 3, then the player name verbatim, then the fixed profile tail |
| Upstream.TeamRankUrl | src/main.rs:108-111 | the `rank` URL for the same player with ladder digit 4 in place of 3, and the same text at every other index |
| Upstream.RankUrlInjective | src/main.rs:93-96 | a rank URL or a team-rank URL determines the player name |
| Upstream.LeaderboardUrl | src/main.rs:120-124 | the URL starts with the leaderboard query head and ends with the rank and limit parameters |
| Upstream.LeaderboardUserIds | src/main.rs:120-124 | splitting `user_ids` at the commas gives the six roster ids in declaration order |
| Upstream.NoSeparatorAfterSplit | src/main.rs:129 | after `", "` is replaced by line breaks, no `", "` is left |
| Upstream.StripAttribution | src/main.rs:128 | text without the attribution is unchanged; text with it gets shorter; the result is never longer |
| Upstream.StripAroundSeparator | src/main.rs:128 | removing the attribution never joins text across a `", "` separator |
| Upstream.StripJoin | src/main.rs:128 | stripping the joined entries equals joining the stripped entries |
| Upstream.SplitJoinedEntries | src/main.rs:129 | entries without a separator, once joined by `", "`, come out one per line |
| Upstream.SeparatorStep | src/main.rs:129 | an entry without a separator followed by `", "` is copied and the separator becomes a line break |
| Upstream.FormatLeaderboardEntries | src/main.rs:126-129 | a leaderboard of entries becomes the entries, attribution removed, one per line |
| Upstream.FormatLeaderboard | src/main.rs:126-129 | the result holds no `", "`; text holding neither the attribution nor a separator is passed on unchanged |
| Upstream.StripTrailingAttribution | src/main.rs:128 | an entry ending in the attribution keeps everything before it, including the space in front |
| Upstream.FormatLeaderboardExample | src/main.rs:126-129 | `"A, B (by aoe2insights.com), C"` becomes `"A\nB \nC"` |
| Dispatch.MatchInfo | src/main.rs:72-82 | the diagnostic text exactly when nothing matches; otherwise the reply composed from the leftmost match |
| Dispatch.PassiveReply | src/main.rs:153-172 | nothing for the bot's own messages or for text whose lower case lacks `aoe2de`; a reply exactly when both guards pass and the text holds a match; that reply is composed from the leftmost match of the text as written |
| Dispatch.HandleEvent | src/main.rs:149-176 | a non-message event draws nothing; a message draws exactly the chat-path answer (guards, leftmost match); only a message from someone other than the bot draws a reply |
| Dispatch.PassiveMatchesCommand | src/main.rs:153-159 | once the guards pass, the chat path sends the same reply the command sends, and stays silent when the command would print the diagnostic |
| Dispatch.PassiveIgnoresCase | src/main.rs:154-157 | a message and its lower-case version draw the same answer |
| Dispatch.MatchInfoIsolatedExample | src/main.rs:72-78 | `check match 123456789 please` draws the reply for `123456789` |
| Dispatch.MatchInfoLongRunExample | src/main.rs:72-81 | an eleven-digit run draws the diagnostic text |
| Dispatch.MatchInfoGluedExample | src/main.rs:72-81 | `abc123456789` draws the diagnostic text |
| Dispatch.MatchInfoSlashedExample | src/main.rs:72-78 | `/123456789/` draws the reply for `123456789` |
| Dispatch.PassiveLinkExample | src/main.rs:153-169 | the game link `aoe2de://0/123456789` from another user draws the reply for its id; from the bot itself it draws nothing |
| Dispatch.PassiveNoIdExample | src/main.rs:153-171 | `anyone want to play aoe2de?` holds no nine-digit id and draws nothing |

## Left out

- Network and chat I/O are not modelled. This covers sending replies, `ctx.say`/`ctx.send`, registering commands, `main` and the framework setup. The model states what is sent, not how.
- Logging (`debug!`, `info!`, `error!`) is not modelled. It has no effect on what is sent.
- The `age` command is not modelled. It only formats the account-creation time that the chat library supplies, and no decision in the core depends on it.
- `read_text_from_url` is not modelled because it is an HTTP GET. The `rank` and `team_rank` replies are the fetched body verbatim, so only their URLs are modelled.
- A failed fetch is not modelled. It propagates as an error through `?` out of the command and the bot sends no reply of its own.
- The failure of `send_message` in the event handler is not modelled. It also propagates through `?`.
- Unicode is approximated by ASCII. `\d`, `\b` and `to_lowercase` are Unicode-aware in Rust, but the model treats digits as `0`–`9`, word characters as `[A-Za-z0-9_]` and lower-casing as ASCII only.
- The `.expect` calls on a reply's content and components are not modelled. `generate_reply` always sets both, so they never fail.
- The `Ready` event is not modelled beyond its log line. It draws no reply (`Dispatch.HandleEvent`).
- User ids are modelled as natural numbers, and the bot's own id is a parameter instead of a cache lookup.
- The player name in the rank URLs is interpolated without percent-encoding. The model reproduces this rather than correcting it.
