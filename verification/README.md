# Triage bot command core, in Dafny

This project models the text-command core of a triage bot. The bot reacts to
comments on a code-hosting platform and to messages in a team chat. The
modelled parts are:

- **The notification-command grammar** (`NotifCommand::parse`). It is a
  recursive-descent parser over a token stream with an optional
  `as <user>` prefix. It is modelled as written, in `notif_parser.dfy`.
  The tokenizer is an immutable cursor over a sequence of lexemes; a lexeme
  is a token or a lexing error.
- **The relabel handler's pure logic** (`relabel.dfy`):
  - `match_pattern`, which handles `!`-inverted glob patterns;
  - `check_filter`, which decides from three-valued team membership;
  - the label-delta loop of `handle_input`.
- **The dispatch router** (`handlers.dfy`). `handle_github` and
  `handle_zulip` are modelled as the two macros expand them. Each handler's
  phases are represented by their outcomes.
- **The chat module** (`zulip.dfy`):
  - the choice of reply recipient;
  - the narrow-link topic encoder and `url`;
  - the id-map lookups `to_github_id` / `to_zulip_id`, with the map given;
  - `respond`.
- **The notification handler** (`manage_notifs.dfy`). It turns a parsed
  command into an operation for the sender's account. It also reads each
  operation's arguments from the command's words and formats each reply.

`text.dfy` holds the string helpers they share: joining words, `String::pop`,
`{}` for integers and `str::parse::<usize>`. `wrappers.dfy` holds `Option`
and `Result`.

Each operation is paired with a partner and a lemma relating the two. The
main pairs are:

- The description loop is related to "the consumed tokens joined by single
  spaces".
- `check_filter` is related to a declarative reading: the first stopping
  pattern decides, and otherwise "some pattern allows".
- The `changed` flag is related to "some delta altered the list".
- Dispatch is related to "the error of the first handler that returns early,
  and exactly the calls made up to it".
- The topic encoder is paired with a decoder and a round-trip lemma.
- `to_github_id` and `to_zulip_id` undo each other: with unique keys and
  values in one direction, and with unique keys for any 64-bit signed id in
  the other.
- User indexes round-trip through the 1-based / 0-based conversion.

## Behaviour of note

- **Chat dispatch** runs every handler whose parse finds a command, in
  registration order. It does not stop at the first
  (`Handlers.HandleZulip`, `Handlers.ZulipRunsEveryMatch`).
- **Post-processors** run only when no handler returned early. An early
  return from any handler skips both (`Handlers.HandleGithub`).
- **Malformed arguments**: for every malformed case, including a recognised
  keyword with bad arguments, the command grammar returns "no command"
  (`Ok(None)`). Its only errors are the tokenizer's (`NotifParser.Parse`).
- **Keyword handling**: the grammar only peeks at the keyword, so each
  command carries its keyword where its first argument belongs, and `meta`
  builds the `Add` variant. See Findings.
- **Token check**: `openssl::memcmp::eq` compares the tokens' UTF-8 bytes and
  panics when the two differ in byte length. So a wrong token is answered
  "Invalid authorization." only when it has as many UTF-8 bytes as the
  expected token (`Zulip.Respond`).
- **A declining handler**: a handler whose parse finds no command is passed
  over after that one call, on both channels (`Handlers.GithubStep`,
  `Handlers.ZulipStep`).

## Model

| member | source | states |
|---|---|---|
| Text.PopSpaceTerminated | parser/src/command/manage_notifs.rs:46-60 | Appending "piece + space" for each piece and popping one character yields the pieces joined by single spaces. With no pieces it yields the empty string. |
| Text.ParseUsize | src/handlers/manage_notifs.rs:226 | `parse::<usize>` succeeds only on text that starts with a digit or `+`. Its value never exceeds the 64-bit `usize` maximum. |
| Text.ParseUsizeOfDecimal | src/handlers/manage_notifs.rs:226 | Parsing the decimal rendering of any `usize` gives the number back. |
| NotifParser.PeekToken | parser/src/command/manage_notifs.rs:21-29 | `peek_token` as the parser uses it: `None` exactly at the end of input, otherwise the next lexeme's token or its lexing error. |
| NotifParser.NextToken | parser/src/command/manage_notifs.rs:22-23 | `next_token` returns exactly what `peek_token` returns. It advances past a token, and leaves the cursor unchanged at the end of input or on a lexer error. |
| NotifParser.DescriptionLoop | parser/src/command/manage_notifs.rs:46-60 | The loop fails only with a lexer error that lies in the remaining input. It leaves the cursor on a suffix of the input that is empty or starts with a terminator, which is not consumed. |
| NotifParser.DescriptionLoopSpec | parser/src/command/manage_notifs.rs:81-95 | The loop consumes exactly the leading run of tokens other than `Semi`, `Dot` and `EndOfLine`, stopping at the first of those or at the end of input. If that run ends at a lexer failure, the loop returns that error. Otherwise it yields the accumulated text plus each consumed token's text and a space, popped once. |
| NotifParser.DescriptionIsJoined | parser/src/command/manage_notifs.rs:46-60 | Started empty, the description is the consumed tokens' texts joined by single spaces. It is empty when a terminator or the end comes first. The cursor stops on the terminator. |
| NotifParser.Branch | parser/src/command/manage_notifs.rs:31-98 | A keyword branch fails only with a lexer error in the input it reads. |
| NotifParser.ParseKind | parser/src/command/manage_notifs.rs:30-98 | Because the keyword is only peeked at, every command a branch builds carries the keyword as its first field. Errors come only from the tokenizer. |
| NotifParser.ParseCommand | parser/src/command/manage_notifs.rs:30-105 | A lexer failure where the keyword should stand is returned as the error. After the prefix, the parser yields a command only on non-empty input. The command echoes its keyword and carries the given override. |
| NotifParser.ParseClone | parser/src/command/manage_notifs.rs:20-29 | A lexer failure at the first token, or right after `as`, is returned as the error. A produced command has an override iff the input starts with the word `as`. The override is the word that follows. |
| NotifParser.Parse | parser/src/command/manage_notifs.rs:19-106 | The caller's tokenizer is returned as it was; this mirrors the parse of a `clone()` and holds by construction. The only errors are tokenizer errors, and one at the first token or right after `as` is returned. Every command echoes its keyword, so `Meta` is never produced. The override comes only from a leading `as <word>`. |
| NotifParser.AsPrefixSetsOverride | parser/src/command/manage_notifs.rs:21-25 | `as u` followed by anything parses the rest as a command with override `u`. |
| NotifParser.AsWithoutUserDeclines | parser/src/command/manage_notifs.rs:26-28 | `as` followed by a non-word or by nothing yields no command. |
| NotifParser.NoPrefixNoOverride | parser/src/command/manage_notifs.rs:21-29 | Input that does not start with `as` is parsed as a command with no override. |
| NotifParser.AckEchoesKeyword | parser/src/command/manage_notifs.rs:32-39 | `ack`/`acknowledge`, whatever follows, yields `Acknowledge` of the keyword itself. |
| NotifParser.AddNeverParses | parser/src/command/manage_notifs.rs:40-45 | `add` never yields a command. |
| NotifParser.MoveEchoesKeyword | parser/src/command/manage_notifs.rs:62-74 | Three cases: `move x` with a word or quote `x` gives `Move("move", x)`; a lexer failure after `move` is that error; a terminator or the end gives no command. |
| NotifParser.MetaBuildsAdd | parser/src/command/manage_notifs.rs:75-96 | `meta ...` yields `Add("meta", d)`. `d` is the following tokens up to a terminator, joined by spaces, unless a lexer failure ends them. |
| NotifParser.OtherInputDeclines | parser/src/command/manage_notifs.rs:97-101 | Empty input, a non-word or an unknown word yields no command. |
| NotifParser.ParseCommandIntended | parser/src/command/manage_notifs.rs:30-98 | The corrected grammar: its errors are tokenizer errors, and every command carries the given override. |
| NotifParser.IntendedAckReadsArgument | parser/src/command/manage_notifs.rs:32-39 | Corrected: `ack x` yields `Acknowledge(x)`. |
| NotifParser.IntendedAddReadsUrl | parser/src/command/manage_notifs.rs:40-61 | Corrected: `add "url" words...` yields `Add(url, words joined)`. |
| NotifParser.IntendedMoveReadsBoth | parser/src/command/manage_notifs.rs:62-74 | Corrected: `move a b` yields `Move(a, b)`. |
| NotifParser.IntendedMetaBuildsMeta | parser/src/command/manage_notifs.rs:75-96 | Corrected: `meta i words...` yields `Meta(i, words joined)`. |
| Relabel.MatchPattern | src/handlers/relabel.rs:271-283 | A leading `!` is stripped and inverts the verdict. The result is an error iff the rest does not compile, and `NoMatch` iff the glob does not match. Otherwise it is `Deny` iff the pattern was inverted. |
| Relabel.InvertedPatternSwapsVerdict | src/handlers/relabel.rs:272-282 | Prefixing `!` turns `Allow` into `Deny` and back. It keeps `NoMatch` and compile errors. |
| Relabel.CheckFilter | src/handlers/relabel.rs:231-262 | A member is allowed without any pattern being consulted. Anyone else is either allowed or gets `Deny` (outsider) / `DenyUnknown` (unknown). |
| Relabel.ScanMeetsSpec | src/handlers/relabel.rs:239-254 | The pattern loop's result comes from the first pattern that denies or fails to compile: an error or `false`. Without one it is whether some pattern allows. |
| Relabel.CheckFilterMeaning | src/handlers/relabel.rs:236-261 | `check_filter` equals the declarative reading: membership first, then the first deny or compile error, then "some pattern allows". |
| Relabel.DenyHidesLaterPatterns | src/handlers/relabel.rs:243-247 | Patterns after an explicit deny, even uncompilable ones, never change the verdict. |
| Relabel.Position | src/handlers/relabel.rs:180 | `position` is the first index holding the name, or the length when there is none. |
| Relabel.ApplyDelta | src/handlers/relabel.rs:170-185 | The flag is set iff the list changed. |
| Relabel.AddDeltaMeaning | src/handlers/relabel.rs:171-178 | `Add` changes the list iff no label has the name. Then it appends exactly that label. Afterwards the name is present either way. |
| Relabel.RemoveDeltaMeaning | src/handlers/relabel.rs:179-184 | `Remove` changes the list iff some label has the name. Then exactly the first label with that name is deleted and the rest keep their order. |
| Relabel.ApplyDeltaKeepsUnique | src/handlers/relabel.rs:170-185 | A list without duplicate names keeps none after any delta. |
| Relabel.ChangedMeansSomeDeltaActed | src/handlers/relabel.rs:149-185 | `changed` holds iff some delta altered the list it met. When it is false the list is unchanged. Deltas never create duplicate names. |
| Relabel.Refusal | src/handlers/relabel.rs:152-164 | A label yields an error message iff its verdict is not `Ok(Allow)`. A pattern error is passed on as the message; a denial names the label. Only a refusal for unknown membership ends in the notice ";we were unable to check if you are a team member."; a plain denial ends in "members". |
| Relabel.UnknownMembershipIsFlagged | src/handlers/relabel.rs:152-161 | The refusal for unknown membership is the non-member refusal followed by the notice that membership could not be checked. |
| Relabel.HandleInput | src/handlers/relabel.rs:148-190 | The first refused label posts its error and nothing is set. Otherwise the labels are set to the result of all deltas iff some delta changed them, and nothing is sent otherwise. |
| Relabel.StarVerdict | src/handlers/relabel.rs:272-282 | `lit*` gives `Allow` on a name starting with `lit`, and `NoMatch` otherwise. `!lit*` gives `Deny` in the first case and `NoMatch` in the second. |
| Relabel.MatchPatternExamples | src/handlers/relabel.rs:294-305 | Test cases: `I-*` allows `I-nominated` and does not match `T-infra`. |
| Relabel.MatchPatternInvertedExamples | src/handlers/relabel.rs:298-309 | Test cases: `!I-no*` denies `I-nominated` and does not match `T-infra`. |
| Relabel.TestVerdicts | src/handlers/relabel.rs:317-319 | For every label: `T-*` and `I-*` allow exactly the labels with their prefix, and `!I-nominated` denies exactly `I-nominated`. |
| Relabel.ScanOfThree | src/handlers/relabel.rs:239-254 | With three patterns, where neither of the first two denies or fails, the third's deny decides. Without it, any allow admits. |
| Relabel.CheckFilterTReleaseExample | src/handlers/relabel.rs:326-345 | Test table: `T-release` is allowed for outsiders and unknown users. |
| Relabel.CheckFilterISlowExample | src/handlers/relabel.rs:326-345 | Test table: `I-slow` is allowed for outsiders and unknown users. |
| Relabel.CheckFilterINominatedExample | src/handlers/relabel.rs:326-345 | Test table: `I-nominated` gives `Deny` / `DenyUnknown`. |
| Relabel.CheckFilterASpuriousExample | src/handlers/relabel.rs:326-345 | Test table: `A-spurious` gives `Deny` / `DenyUnknown`. |
| Handlers.Display | src/handlers.rs:17-24 | `Message` shows its text verbatim. `Other` always shows "An internal error occurred." and never its detail. |
| Handlers.DisplayHidesDetail | src/handlers.rs:17-24 | Two internal errors are shown alike whatever their detail. Two messages are shown alike only when they are equal. |
| Handlers.SectionFor | src/handlers.rs:47 | A handler gets a section iff the configuration loaded and has its key. |
| Handlers.FeatureNotEnabled | src/handlers.rs:64-69 | The message quotes the handler's key in backticks right after "The feature ". |
| Handlers.GithubStep | src/handlers.rs:46-70 | Every turn starts by parsing, and a parse error aborts as that `Message`. A parse that finds no command continues after that one call. `handle_input` is called iff the configuration loaded, has the section and the parse found a command. Its error aborts as `Other`, never as `Message`; its success continues. |
| Handlers.ZulipStep | src/handlers.rs:90-94 | Every turn parses, and `handle_input` is called iff the parse found a command. A parse that finds no command continues after that one call. A parse error aborts as that `Message`; a `handle_input` error aborts as `Other`, and its success continues. |
| Handlers.Run | src/handlers.rs:45-71 | The unrolled handler loop succeeds iff every turn continues, and then it makes every turn's calls in order. |
| Handlers.RunMeaning | src/handlers.rs:45-71 | Dispatch returns the error of the first handler that returns early, or `Ok`. It makes exactly the calls of the handlers up to that one. |
| Handlers.RunStopsAt | src/handlers.rs:45-71 | When handler k is the first to return early, dispatch returns its error. The calls are those of every handler before it, then its own. |
| Handlers.HandleGithub | src/handlers.rs:42-82 | The result and the handlers' calls are those of the fold over the handlers, so by `Handlers.RunMeaning` the first early return decides the error. The result is `Ok` iff no handler returns early. Then both post-processors run last; after an early return neither runs. The post-processors' own results are inputs, and the result does not depend on them. |
| Handlers.PostProcessorsLast | src/handlers.rs:73-81 | After a successful fold the two post-processors are the last calls. After an early return no post-processor is called. |
| Handlers.PostProcessorFailuresIgnored | src/handlers.rs:73-81 | Whatever the two post-processors return, `handle_github` returns the same result and makes the same calls. |
| Handlers.HandleZulip | src/handlers.rs:88-98 | The dispatch is exactly the fold over the handlers, so by `Handlers.RunMeaning` the first early return decides the error and the calls. The result is `Ok` iff no handler returns early. Then every handler whose parse found a command was run. |
| Handlers.ZulipRunsEveryMatch | src/handlers.rs:89-95 | Without an early return, each matching chat handler's `handle_input` is called, not only the first. |
| Handlers.ParseErrorStopsGithub | src/handlers.rs:46-48 | A parse error returns that message at once. No later handler is parsed and no post-processor runs. |
| Handlers.DisabledFeatureIsReported | src/handlers.rs:61-69 | A command for a feature without a section gives the "feature not enabled" message naming the key, without calling `handle_input`. |
| Handlers.ConfigFailureStopsHandler | src/handlers.rs:49-60 | A command found while the configuration failed to load aborts before `handle_input`. A transient failure gives `Other`; a missing or malformed file gives `Message`. |
| Zulip.ReplyRecipient | src/zulip.rs:47-57 | A private message is answered privately to its sender's email. A stream message is answered in its topic. Both use the recipient id. |
| Zulip.Utf8Char | src/zulip.rs:156 | `str::bytes` gives one byte for ASCII. Any other character gives 2 to 4 bytes, all at least 0x80. |
| Zulip.ReplacePercent | src/zulip.rs:165 | `replace("%", ".")` keeps the length and turns exactly the `%` characters into `.`. |
| Zulip.PercentEncode | src/zulip.rs:155-162 | The first stage writes one character per safe byte and three per other byte, and never writes a `.`. |
| Zulip.EncodeTopic | src/zulip.rs:155-165 | The two-stage encoding equals escaping every unsafe byte as `.XX` directly. |
| Zulip.EncodeTopicIsDotEncode | src/zulip.rs:155-165 | Escaping with `%` and then replacing is the same as escaping each unsafe byte as `.XX` directly. |
| Zulip.EncodeTopicShape | src/zulip.rs:152-165 | The encoded topic has length #safe + 3·#unsafe and holds no `%`. Every `.` in it begins a three-character escape. |
| Zulip.DecodeEncodeTopic | src/zulip.rs:152-167 | Decoding the encoded topic gives the topic's bytes back, so distinct topics get distinct links. |
| Zulip.SafeTopicUnchanged | src/zulip.rs:157-161 | A topic made only of safe characters appears in the link unchanged. |
| Zulip.Narrow | src/zulip.rs:142-171 | A private narrow is `pm-with/{id}-xxx`. A stream narrow is `stream/{id}-xxx/topic/` followed by the topic's bytes with every unsafe byte as `.XX`, and that tail decodes back to the topic's bytes. |
| Zulip.ReplyLeadsBack | src/zulip.rs:46-57 | A reply's narrow leads back to the conversation it answers. A private reply narrows to `pm-with/{recipient id}-xxx`. A stream reply narrows to the recipient id and a tail that decodes to the message's topic. |
| Zulip.Url | src/zulip.rs:142-186 | The URL is the narrow base followed by `pm-with/{id}-xxx`, or by `stream/{id}-xxx/topic/` and the topic's bytes with every unsafe byte as `.XX`. The link's tail decodes back to the topic's bytes. |
| Zulip.ToGithubId | src/zulip.rs:68-71 | The lookup finds a value iff the chat id is a key. The value is that entry's id, wrapped to `i64`. |
| Zulip.ToZulipId | src/zulip.rs:73-80 | `None` iff no entry's value equals the id wrapped to `usize`. Otherwise it is the key of the first such entry in iteration order. |
| Zulip.CastRoundTrip | src/zulip.rs:70 | A `usize` converted to `i64` and back is unchanged. |
| Zulip.LookupRoundTrip | src/zulip.rs:68-80 | With unique keys and unique values, translating a chat user to a code-hosting id and back returns the same chat user. |
| Zulip.SignedCastRoundTrip | src/zulip.rs:78 | An `i64` converted to `usize` and back is unchanged. |
| Zulip.ReverseLookupRoundTrip | src/zulip.rs:68-80 | With unique keys, translating any 64-bit code-hosting id to a chat user and back returns the same id. |
| Zulip.Respond | src/zulip.rs:82-111 | A token whose UTF-8 encoding has another length than the expected one's panics, as the byte comparison requires equal lengths. A wrong token of the right byte length gives "Invalid authorization." Neither dispatches anything. Otherwise the reply is empty iff no handler returned early. A `Message` is shown verbatim; `Other` gives "handling failed, error logged". |
| Zulip.RespondCountsBytes | src/zulip.rs:85-90 | Token lengths are compared in UTF-8 bytes: the token "é" against the expected "ab" (two bytes each) is refused with "Invalid authorization." rather than panicking. |
| Zulip.RespondReportsFirstAbort | src/zulip.rs:94-110 | With the right token, the reply is the first early-returning handler's message, or the fixed notice for its internal error, or the empty body when none returns early. The calls are those of the handlers up to it. |
| ManageNotifs.ParseInput | src/handlers/manage_notifs.rs:18-27 | A lexer error becomes "Parsing label command failed: ..."; a parse result passes through unchanged. |
| ManageNotifs.Route | src/handlers/manage_notifs.rs:70-75 | Every operation acts for the resolved code-hosting user. |
| ManageNotifs.RouteIsFaithful | src/handlers/manage_notifs.rs:70-75 | Each command variant goes to exactly one operation, which carries the command's fields unchanged. |
| ManageNotifs.HandleInput | src/handlers/manage_notifs.rs:39-76 | An override delegates to the other-user path. A failed id-map fetch gives "Failed to query team API: ...". An unknown sender gives the `zulip-id = {id}` hint. Otherwise the routed operation is performed for the sender's code-hosting id. |
| ManageNotifs.AcknowledgeTarget | src/handlers/manage_notifs.rs:217-233 | Exactly one word is needed ("not enough words" / "too many words"). A `usize` numeral is an index and must be at least 1. Any other word is a URL. |
| ManageNotifs.AcknowledgeIndexWord | src/handlers/manage_notifs.rs:226-230 | A decimal position from 1 to the `usize` maximum is read back as `Index` of that position. |
| ManageNotifs.AcknowledgeUrlWord | src/handlers/manage_notifs.rs:231-233 | A word starting with neither a digit nor `+` is taken as a URL. |
| ManageNotifs.EntryLineShape | src/handlers/manage_notifs.rs:238-248 | A line is ` * [text](url)` plus ` (meta)` when metadata is present, then a newline. The text is the description, or the URL when there is none. |
| ManageNotifs.AcknowledgedReplyHasEveryLine | src/handlers/manage_notifs.rs:236-249 | The reply is "Acknowledged:\n" followed by every deleted entry's line, in the store's order. Around any one entry's line stand exactly the lines of the entries before and after it. |
| ManageNotifs.AcknowledgeReply | src/handlers/manage_notifs.rs:234-256 | The store's success gives the acknowledged list. Its failure gives "Failed to acknowledge {word}: {e}.". |
| ManageNotifs.Acknowledge | src/handlers/manage_notifs.rs:216-257 | The command fails iff the arguments are bad or the database connection fails. Argument errors come first. Otherwise the reply reports what the store did for the identifier read. |
| ManageNotifs.NormalizeDescription | src/handlers/manage_notifs.rs:266-270 | An empty description is absent; any other is kept unchanged. |
| ManageNotifs.NormalizeDescriptionRoundTrip | src/handlers/manage_notifs.rs:266-270 | Reading the stored description back with `unwrap_or("")` gives the description given. |
| ManageNotifs.NewNotification | src/handlers/manage_notifs.rs:271-281 | The stored record has the user, the URL, an empty HTML origin, no team and the normalised description. |
| ManageNotifs.AddNotification | src/handlers/manage_notifs.rs:271-292 | The reply is "Created!" iff the store accepted the record. Otherwise it is "Failed to create: {e}". |
| ManageNotifs.OneBased | src/handlers/manage_notifs.rs:304-308 | An index is accepted iff it is a `usize` numeral of at least 1; the result is one less. A non-numeral gives the context message and 0 gives "1-based indexes". |
| ManageNotifs.OneBasedRoundTrip | src/handlers/manage_notifs.rs:352-361 | Writing a 0-based index as the user's 1-based numeral and reading it back gives the same index. |
| ManageNotifs.MetaArguments | src/handlers/manage_notifs.rs:300-319 | No words gives "idx not present". The index is read 1-based. The metadata is absent iff no other word follows; otherwise it is those words joined by single spaces. |
| ManageNotifs.MetaReply | src/handlers/manage_notifs.rs:328-335 | The reply is "Added metadata!" iff the store accepted the metadata. Otherwise it is "Failed to add: {e}". |
| ManageNotifs.AddMetaNotification | src/handlers/manage_notifs.rs:295-337 | The command fails iff the arguments are bad or the database connection fails. Argument errors come first. Otherwise the reply reports what the store did with the index and metadata read. |
| ManageNotifs.MoveArgumentsAsWritten | src/handlers/manage_notifs.rs:344-351 | As written, fewer than two words always gives "from idx not present". |
| ManageNotifs.MoveMisreportsMissingTo | src/handlers/manage_notifs.rs:348-351 | With the first index given and the second missing, the error blames the first. |
| ManageNotifs.MoveArguments | src/handlers/manage_notifs.rs:344-361 | Corrected: no words gives "from idx not present", exactly one word gives "to idx not present". Two 1-based indexes give their 0-based values. |
| ManageNotifs.MoveArgumentsAgreeOtherwise | src/handlers/manage_notifs.rs:344-361 | Except for the missing-second-word message, the corrected reading equals the source's. |
| ManageNotifs.MoveReply | src/handlers/manage_notifs.rs:362-371 | The reply starts with "Moved " iff the store accepted the move. Otherwise it is "Failed to move: {e}.". |
| ManageNotifs.MoveNotification | src/handlers/manage_notifs.rs:339-372 | As written: fewer than two words fail with "from idx not present". The command fails iff the arguments are bad or the database connection fails. Argument errors come first. Otherwise the reply reports what the store did with the two indexes read. |
| ManageNotifs.MoveWith | src/handlers/manage_notifs.rs:352-371 | Given the arguments read: an argument error first, then a connection failure, otherwise the store's answer as the reply. |
| ManageNotifs.MoveNotificationIntended | src/handlers/manage_notifs.rs:339-372 | Corrected: exactly one word fails with "to idx not present"; otherwise as `move_notification`. |
| ManageNotifs.MoveNotificationsDifferOnlyOnOneWord | src/handlers/manage_notifs.rs:344-351 | The command as written and as intended agree on every input except a single word, where they blame the first and the second index respectively. |
| ManageNotifs.MoveReplyEchoesInput | src/handlers/manage_notifs.rs:352-367 | For canonical numerals, the success reply quotes the user's own two numbers back. |

## Left out

- **Network and API I/O**: requests to the code-hosting API, the chat API and
  the team API; `MessageApiRequest::send`; the sending in `Message::reply`;
  fetching the id map; environment variables; logging. Their results are
  parameters: the id map is an `IdMap` or the fetch error, and the expected
  token is an argument.
- **The notification store** (`delete_ping`, `record_ping`, `move_indices`,
  `add_metadata`): `db::notifications` is not part of this model. Each store
  answer is a parameter (a function from identifier or record to a result),
  and so is the outcome of `make_client()`, the database connection.
  Its renumbering semantics are not modelled.
- **`execute_for_other_user`** (src/handlers/manage_notifs.rs:82-214): a
  chain of network calls over identifiers the file does not define. A
  command with an override is routed to `ForOtherUser` and not followed
  further.
- **Undefined identifiers in the notification handler**: `words`, `next` and
  `message_data` are not defined in that file. The argument readers take the
  command's words as an explicit `seq<string>`, and the `Some("as")` test
  is read as "the command carries a user override".
- **Lexing and `Token::to_string`**: not part of this model. Tokens arrive
  as a sequence of lexemes, and token text is an uninterpreted `render`
  function. The grammar tells apart only words, quotes, `Semi`, `Dot` and
  `EndOfLine`; every other token the lexer produces is the one variant
  `OtherToken`, which the description loop consumes like any non-terminator.
- **The glob crate**: its matching algorithm and compile errors are the
  abstract pair `Glob(valid, matches)`. The tests are replayed with a
  `*`-only matcher.
- **The relabel handler's input wrappers** (`parse_input`, `handle_input`
  of both handler traits, src/handlers/relabel.rs:23-139): command parsing
  and API calls. Team membership arrives as a `TeamMembership` value.
- **Async plumbing and concurrency**: `BoxFuture`, `.await`. Dispatch is
  sequential.
- **JSON encoding** of `Response`: `Zulip.Respond`,
  `ManageNotifs.Acknowledge`, `ManageNotifs.AddNotification`,
  `ManageNotifs.AddMetaNotification` and `ManageNotifs.MoveNotification`
  yield the content string, not the `serde_json::to_string` text of a
  `Response` holding it.
- **`openssl::memcmp::eq`**: modelled as string equality for tokens of equal
  UTF-8 byte length, with its panic on unequal byte lengths as the `Panic`
  reply of `Zulip.Respond`. Its constant-time behaviour is not modelled.
- **Timestamps** (`chrono::Utc::now`): the `Notification` record has no
  time field.
- **Error rendering**: each `{:?}` of an error is taken as a given string.
  `anyhow`'s context chains are reduced to the context message, so a
  non-numeric index yields just "index", "from index" or "to index".
- **The other code-hosting handlers** (assign, ping, nominate, prioritize,
  major_change, glacier, autolabel, notify_zulip) and the two
  post-processors: only their registration order and dispatch outcomes are
  modelled.
- **Panics become preconditions**: `Message::reply` panics on an unknown
  message type and on a stream message without a topic. So
  `Zulip.ReplyRecipient` requires a private message, or a stream message
  with a topic.
- **Integer width**: `usize` is 64 bits wide. The casts between `usize` and
  `i64` in the id lookups wrap explicitly.
- **Zulip.ToGithubId**: the map's entries come in some iteration order.
  With repeated keys the lookup would return the first entry's value, but
  the team data's keys are unique, as `HashMap` keys are.

## Findings

| source | as written | input that shows it | evidently intended | confidence | as-written member | corrected member |
|---|---|---|---|---|---|---|
| parser/src/command/manage_notifs.rs:30-74 | The keyword is only peeked at, so each branch's first `next_token` reads the keyword again. `ack X` yields `Acknowledge("ack")`, `move a b` yields `Move("move", "a")`, and `add "url" ...` never parses. | tokens `ack`, `3` | `Acknowledge("3")`, `Move("a", "b")`, and `Add(url, description)` | high, not executed | NotifParser.AckEchoesKeyword | NotifParser.IntendedAckReadsArgument |
| parser/src/command/manage_notifs.rs:87,91 | The `meta` branch builds the `Add` variant, so `Meta` is never produced. | tokens `meta`, `2`, `note` | `Meta(idx, description)` | high, not executed | NotifParser.MetaBuildsAdd | NotifParser.IntendedMetaBuildsMeta |
| src/handlers/manage_notifs.rs:348-351 | A missing second index is reported as "from idx not present". | words `["1"]` for `move` | "to idx not present" | high, not executed | ManageNotifs.MoveMisreportsMissingTo | ManageNotifs.MoveArguments |
