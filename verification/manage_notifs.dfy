/** The chat handler for notification commands: turning a parsed command
    into an operation for the sender's code-hosting account, reading each
    operation's arguments from the command's words, and formatting the
    replies. The notification store (delete, record, move, add metadata)
    is outside the model: its results are parameters. */
module ManageNotifs {
  import opened Wrappers
  import opened Text
  import NotifParser
  import Zulip

  // ---------------------------------------------------------------------
  // Parsing and routing.

  /** `NotificationHandler::parse_input`: a lexer error becomes a message
      (whose wording says "label", as in the source); anything else passes
      through. */
  function ParseInput(parsed: NotifParser.ParseResult, showError: NotifParser.LexError -> string)
    : (r: Result<Option<NotifParser.NotifCommand>, string>)
    ensures r.Err? <==> parsed.Err?
    ensures r.Err? ==> r.error == "Parsing label command failed: " + showError(parsed.error)
    ensures r.Ok? ==> r.value == parsed.value
  {
    match parsed
    case Err(e) => Err("Parsing label command failed: " + showError(e))
    case Ok(c) => Ok(c)
  }

  /** An operation on the notification store, on behalf of a code-hosting
      user id. */
  datatype Operation =
    | AcknowledgeOp(user: int, idx: string)
    | AddOp(user: int, url: string, description: string)
    | MoveOp(user: int, from: string, to: string)
    | MetaOp(user: int, idx: string, metadata: string)

  /** The variant routing at the end of `handle_input`. */
  function Route(kind: NotifParser.NotifCommandKind, user: int): (op: Operation)
    ensures op.user == user
  {
    match kind
    case Acknowledge(idx) => AcknowledgeOp(user, idx)
    case Add(url, description) => AddOp(user, url, description)
    case Move(from, to) => MoveOp(user, from, to)
    case Meta(idx, description) => MetaOp(user, idx, description)
  }

  /** The command an operation was routed from. */
  function CommandOf(op: Operation): NotifParser.NotifCommandKind
  {
    match op
    case AcknowledgeOp(_, idx) => NotifParser.Acknowledge(idx)
    case AddOp(_, url, description) => NotifParser.Add(url, description)
    case MoveOp(_, from, to) => NotifParser.Move(from, to)
    case MetaOp(_, idx, metadata) => NotifParser.Meta(idx, metadata)
  }

  /** Routing loses nothing: each command variant goes to exactly one
      operation, which carries the command's fields unchanged. */
  lemma {:induction false} RouteIsFaithful(kind: NotifParser.NotifCommandKind, user: int)
    ensures CommandOf(Route(kind, user)) == kind
    ensures Route(kind, user).AcknowledgeOp? <==> kind.Acknowledge?
    ensures Route(kind, user).AddOp? <==> kind.Add?
    ensures Route(kind, user).MoveOp? <==> kind.Move?
    ensures Route(kind, user).MetaOp? <==> kind.Meta?
  {
  }

  /** What `handle_input` does with a command. */
  datatype Outcome =
    | ReplyWith(text: string)        // a reply to the sender, then success
    | ForOtherUser(username: string) // handed to `execute_for_other_user`
    | Perform(op: Operation)

  function UnknownUserReply(senderId: nat): string
  {
    "Unknown Zulip user. Please add `zulip-id = " + NatToDecimal(senderId)
    + "` to your file in rust-lang/team."
  }

  /** `handle_input`: a command on behalf of someone else is delegated;
      otherwise the sender's chat id is translated through the team's id
      map (`fetched`, or the error fetching it), and an unknown sender or a
      failed fetch is answered without touching the store. */
  function HandleInput(cmd: NotifParser.NotifCommand, senderId: nat, fetched: Result<Zulip.IdMap, string>)
    : (o: Outcome)
    ensures cmd.userOverride.Some? ==> o == ForOtherUser(cmd.userOverride.value)
    ensures cmd.userOverride.None? && fetched.Err? ==>
              o == ReplyWith("Failed to query team API: " + fetched.error)
    ensures cmd.userOverride.None? && fetched.Ok? ==>
              match Zulip.ToGithubId(fetched.value, senderId)
              case None => o == ReplyWith(UnknownUserReply(senderId))
              case Some(gh) => o.Perform? && o.op.user == gh && CommandOf(o.op) == cmd.command
  {
    if cmd.userOverride.Some? then ForOtherUser(cmd.userOverride.value)
    else match fetched
      case Err(e) => ReplyWith("Failed to query team API: " + e)
      case Ok(m) =>
        match Zulip.ToGithubId(m, senderId)
        case None => ReplyWith(UnknownUserReply(senderId))
        case Some(gh) =>
          RouteIsFaithful(cmd.command, gh);
          Perform(Route(cmd.command, gh))
  }

  // ---------------------------------------------------------------------
  // acknowledge

  /** `Identifier`: a 1-based position (`NonZeroUsize`) or a URL. */
  datatype Identifier = Index(n: nat) | Url(url: string)

  /** The identifier `acknowledge` reads from its words: exactly one word;
      a `usize` numeral names a position, which must be at least 1; any
      other word is a URL. */
  function AcknowledgeTarget(words: seq<string>): (r: Result<Identifier, string>)
    ensures |words| == 0 ==> r == Err("not enough words")
    ensures |words| > 1 ==> r == Err("too many words")
    ensures |words| == 1 ==>
              match ParseUsize(words[0])
              case None => r == Ok(Url(words[0]))
              case Some(n) => if n == 0 then r == Err("index must be at least 1")
                              else r == Ok(Index(n)) && n <= USIZE_MAX
  {
    if |words| == 0 then Err("not enough words")
    else if |words| > 1 then Err("too many words")
    else match ParseUsize(words[0])
      case Some(n) => if n == 0 then Err("index must be at least 1") else Ok(Index(n))
      case None => Ok(Url(words[0]))
  }

  /** A position written in decimal is read back as that position. */
  lemma {:induction false} AcknowledgeIndexWord(n: nat)
    requires 1 <= n <= USIZE_MAX
    ensures AcknowledgeTarget([NatToDecimal(n)]) == Ok(Index(n))
  {
    ParseUsizeOfDecimal(n);
  }

  /** A word that starts with neither a digit nor `+` is taken as a URL. */
  lemma {:induction false} AcknowledgeUrlWord(w: string)
    requires |w| > 0 && !IsDigit(w[0]) && w[0] != '+'
    ensures AcknowledgeTarget([w]) == Ok(Url(w))
  {
  }

  /** A stored notification as the store returns it. */
  datatype Entry = Entry(originUrl: string, shortDescription: Option<string>, metadata: Option<string>)

  function LinkText(e: Entry): string
  {
    match e.shortDescription case Some(d) => d case None => e.originUrl
  }

  function MetadataSuffix(e: Entry): string
  {
    match e.metadata case Some(m) => " (" + m + ")" case None => ""
  }

  /** One line of the acknowledge reply. */
  function EntryLine(e: Entry): string
  {
    " * [" + LinkText(e) + "](" + e.originUrl + ")" + MetadataSuffix(e) + "\n"
  }

  /** A line shows the description as link text, or the URL when there is
      none, then the URL, then the metadata in parentheses when present. */
  lemma {:induction false} EntryLineShape(e: Entry)
    ensures var s := EntryLine(e);
            var text := if e.shortDescription.Some? then e.shortDescription.value else e.originUrl;
            var n := |text|;
            && |s| == 8 + n + |e.originUrl| + (if e.metadata.Some? then 3 + |e.metadata.value| else 0)
            && s[..4] == " * [" && s[|s| - 1] == '\n'
            && s[4..4 + n] == text
            && s[4 + n..6 + n] == "]("
            && s[6 + n..6 + n + |e.originUrl|] == e.originUrl
            && s[6 + n + |e.originUrl|] == ')'
            && (e.metadata.Some? ==> s[7 + n + |e.originUrl|..|s| - 1] == " (" + e.metadata.value + ")")
            && (e.metadata.None? ==> |s| == 8 + n + |e.originUrl|)
  {
    LineLayout(LinkText(e), e.originUrl, MetadataSuffix(e));
  }

  /** Where the link text, the URL and the metadata suffix sit in a line. */
  lemma {:induction false} LineLayout(text: string, url: string, suffix: string)
    ensures var s := " * [" + text + "](" + url + ")" + suffix + "\n";
            var n, m := |text|, |url|;
            && |s| == 8 + n + m + |suffix|
            && s[..4] == " * [" && s[|s| - 1] == '\n'
            && s[4..4 + n] == text
            && s[4 + n..6 + n] == "]("
            && s[6 + n..6 + n + m] == url
            && s[6 + n + m] == ')'
            && s[7 + n + m..|s| - 1] == suffix
  {
    var n, m := |text|, |url|;
    var head := " * [" + text + "](" + url + ")";
    LinkHeadShape(text, url);
    var s := head + suffix + "\n";
    assert s[..7 + n + m] == head;
    assert s[7 + n + m..|s| - 1] == suffix;
  }

  /** The part of a line before the metadata: the link text in brackets,
      then the URL in parentheses. */
  lemma {:induction false} LinkHeadShape(text: string, url: string)
    ensures var head := " * [" + text + "](" + url + ")";
            var n, m := |text|, |url|;
            && |head| == 7 + n + m
            && head[..4] == " * ["
            && head[4..4 + n] == text
            && head[4 + n..6 + n] == "]("
            && head[6 + n..6 + n + m] == url
            && head[6 + n + m] == ')'
  {
  }

  /** The line of each deleted entry, in the order the store returned them. */
  function Lines(es: seq<Entry>): (ls: seq<string>)
    ensures |ls| == |es| && forall k :: 0 <= k < |es| ==> ls[k] == EntryLine(es[k])
  {
    seq(|es|, k requires 0 <= k < |es| => EntryLine(es[k]))
  }

  /** The lines of the deleted entries, pushed in order. */
  function EntryLines(es: seq<Entry>): string
  {
    Concat(Lines(es))
  }

  const ACKNOWLEDGED: string := "Acknowledged:\n"

  function AcknowledgedReply(deleted: seq<Entry>): string
  {
    ACKNOWLEDGED + EntryLines(deleted)
  }

  /** The acknowledge reply is the header followed by every deleted entry's
      line, in the order the store returned them: around any one entry's
      line stand exactly the lines of the entries before and after it. */
  lemma {:induction false} AcknowledgedReplyHasEveryLine(deleted: seq<Entry>, i: nat)
    requires i < |deleted|
    ensures AcknowledgedReply(deleted)
         == ACKNOWLEDGED + EntryLines(deleted[..i]) + EntryLine(deleted[i]) + EntryLines(deleted[i + 1..])
  {
    var lines := Lines(deleted);
    assert lines[..i] == Lines(deleted[..i]);
    assert lines[i + 1..] == Lines(deleted[i + 1..]);
    ConcatSplitAt(lines, i);
    Regroup3(ACKNOWLEDGED, EntryLines(deleted[..i]), EntryLine(deleted[i]), EntryLines(deleted[i + 1..]));
  }

  /** The text `acknowledge` replies with, given the store's answer for
      the identifier read from `word`. */
  function AcknowledgeReply(word: string, deleted: Result<seq<Entry>, string>): (s: string)
    ensures deleted.Ok? ==> s == AcknowledgedReply(deleted.value)
    ensures deleted.Err? ==> s == "Failed to acknowledge " + word + ": " + deleted.error + "."
  {
    match deleted
    case Ok(es) => AcknowledgedReply(es)
    case Err(e) => "Failed to acknowledge " + word + ": " + e + "."
  }

  /** `acknowledge`: argument errors fail the command before the store is
      reached; then a failed database connection (`make_client()?`) fails
      it; otherwise the store's answer is turned into the reply. */
  function Acknowledge(words: seq<string>, connect: Result<(), string>,
                       delete: Identifier -> Result<seq<Entry>, string>): (r: Result<string, string>)
    ensures r.Err? <==> AcknowledgeTarget(words).Err? || connect.Err?
    ensures AcknowledgeTarget(words).Err? ==> r == Err(AcknowledgeTarget(words).error)
    ensures AcknowledgeTarget(words).Ok? && connect.Err? ==> r == Err(connect.error)
    ensures r.Ok? ==> |words| == 1 && r.value == AcknowledgeReply(words[0], delete(AcknowledgeTarget(words).value))
  {
    match AcknowledgeTarget(words)
    case Err(e) => Err(e)
    case Ok(ident) =>
      if connect.Err? then Err(connect.error)
      else Ok(AcknowledgeReply(words[0], delete(ident)))
  }

  // ---------------------------------------------------------------------
  // add_notification

  /** An empty description is absent; any other is kept as written. */
  function NormalizeDescription(d: string): (r: Option<string>)
    ensures r.None? <==> |d| == 0
    ensures r.Some? ==> r.value == d
  {
    if |d| == 0 then None else Some(d)
  }

  /** Reading the stored description back with `unwrap_or("")` gives the
      description given, so no description is lost or altered. */
  lemma {:induction false} NormalizeDescriptionRoundTrip(d: string)
    ensures (match NormalizeDescription(d) case Some(s) => s case None => "") == d
  {
  }

  /** The record `add_notification` stores (its timestamp is left out). */
  datatype Notification = Notification(
    userId: int,
    originUrl: string,
    originHtml: string,
    shortDescription: Option<string>,
    teamName: Option<string>)

  function NewNotification(user: int, url: string, description: string): (n: Notification)
    ensures n.userId == user && n.originUrl == url
    ensures n.originHtml == "" && n.teamName.None?
    ensures n.shortDescription == NormalizeDescription(description)
  {
    Notification(user, url, "", NormalizeDescription(description), None)
  }

  /** `add_notification`'s reply, given the store's answer. */
  function AddNotification(user: int, url: string, description: string,
                           record: Notification -> Result<(), string>): (s: string)
    ensures record(NewNotification(user, url, description)).Ok? <==> s == "Created!"
    ensures record(NewNotification(user, url, description)).Err? ==>
              s == "Failed to create: " + record(NewNotification(user, url, description)).error
  {
    match record(NewNotification(user, url, description))
    case Ok(_) => "Created!"
    case Err(e) => "Failed to create: " + e
  }

  // ---------------------------------------------------------------------
  // Indexes given by the user, 1-based.

  /** A user-supplied 1-based index as a 0-based one: the word must be a
      `usize` numeral (otherwise the error carries `context`), and 0 is
      refused. */
  function OneBased(word: string, context: string): (r: Result<nat, string>)
    ensures r.Ok? <==> ParseUsize(word).Some? && ParseUsize(word).value >= 1
    ensures r.Ok? ==> r.value + 1 == ParseUsize(word).value && r.value < USIZE_MAX
    ensures r.Err? ==> r.error == (if ParseUsize(word).None? then context else "1-based indexes")
  {
    match ParseUsize(word)
    case None => Err(context)
    case Some(n) => if n == 0 then Err("1-based indexes") else Ok(n - 1)
  }

  /** Writing a 0-based index back as the user's 1-based numeral and
      reading it again gives the same index. */
  lemma {:induction false} OneBasedRoundTrip(i: nat, context: string)
    requires i < USIZE_MAX
    ensures OneBased(NatToDecimal(i + 1), context) == Ok(i)
  {
    ParseUsizeOfDecimal(i + 1);
  }

  // ---------------------------------------------------------------------
  // add_meta_notification

  datatype MetaArgs = MetaArgs(idx: nat, description: Option<string>)

  /** The arguments `add_meta_notification` reads: an index word, then the
      remaining words as the metadata. */
  function MetaArguments(words: seq<string>): (r: Result<MetaArgs, string>)
    ensures |words| == 0 ==> r == Err("idx not present")
    ensures |words| > 0 ==> (r.Ok? <==> OneBased(words[0], "index").Ok?)
    ensures |words| > 0 && r.Err? ==> r == Err(OneBased(words[0], "index").error)
    ensures r.Ok? ==> r.value.idx + 1 == ParseUsize(words[0]).value
    ensures r.Ok? ==> (r.value.description.None? <==> |words| == 1)
    ensures r.Ok? && |words| > 1 ==> r.value.description == Some(JoinSpaced(words[1..]))
  {
    if |words| == 0 then Err("idx not present")
    else match OneBased(words[0], "index")
      case Err(e) => Err(e)
      case Ok(idx) =>
        var acc := SpaceTerminated(words[1..]);
        var description := if |acc| == 0 then None else Some(Pop(acc));
        PopSpaceTerminated(words[1..]);
        Ok(MetaArgs(idx, description))
  }

  /** `add_meta_notification`'s reply, given the store's answer. */
  function MetaReply(stored: Result<(), string>): (s: string)
    ensures stored.Ok? <==> s == "Added metadata!"
    ensures stored.Err? ==> s == "Failed to add: " + stored.error
  {
    match stored
    case Ok(_) => "Added metadata!"
    case Err(e) =>
      var s := "Failed to add: " + e;
      assert s[0] != "Added metadata!"[0];
      s
  }

  /** `add_meta_notification`: argument errors first, then a failed
      database connection, then the store's answer as the reply. */
  function AddMetaNotification(words: seq<string>, connect: Result<(), string>,
                               store: MetaArgs -> Result<(), string>): (r: Result<string, string>)
    ensures r.Err? <==> MetaArguments(words).Err? || connect.Err?
    ensures MetaArguments(words).Err? ==> r == Err(MetaArguments(words).error)
    ensures MetaArguments(words).Ok? && connect.Err? ==> r == Err(connect.error)
    ensures r.Ok? ==> r.value == MetaReply(store(MetaArguments(words).value))
  {
    match MetaArguments(words)
    case Err(e) => Err(e)
    case Ok(args) =>
      if connect.Err? then Err(connect.error)
      else Ok(MetaReply(store(args)))
  }

  // ---------------------------------------------------------------------
  // move_notification

  /** `move_notification`'s argument reading as written: both missing-word
      errors say "from idx not present", so a missing second index is
      reported as a missing first one. Words after the second are ignored. */
  function MoveArgumentsAsWritten(words: seq<string>): (r: Result<(nat, nat), string>)
    ensures |words| < 2 ==> r == Err("from idx not present")
  {
    if |words| == 0 then Err("from idx not present")
    else if |words| == 1 then Err("from idx not present")
    else match OneBased(words[0], "from index")
      case Err(e) => Err(e)
      case Ok(from) =>
        match OneBased(words[1], "to index")
        case Err(e) => Err(e)
        case Ok(to) => Ok((from, to))
  }

  /** With the first index given and the second missing, the as-written
      reading blames the first index. */
  lemma {:induction false} MoveMisreportsMissingTo()
    ensures MoveArgumentsAsWritten(["1"]) == Err("from idx not present")
  {
  }

  /** `move_notification`'s argument reading with the missing second word
      reported as such. */
  function MoveArguments(words: seq<string>): (r: Result<(nat, nat), string>)
    ensures r == Err("from idx not present") <==> |words| == 0
    ensures r == Err("to idx not present") <==> |words| == 1
    ensures |words| >= 2 ==>
              (r.Ok? <==> OneBased(words[0], "from index").Ok? && OneBased(words[1], "to index").Ok?)
    ensures r.Ok? ==> r.value.0 + 1 == ParseUsize(words[0]).value
                      && r.value.1 + 1 == ParseUsize(words[1]).value
  {
    if |words| == 0 then Err("from idx not present")
    else if |words| == 1 then Err("to idx not present")
    else match OneBased(words[0], "from index")
      case Err(e) => Err(e)
      case Ok(from) =>
        match OneBased(words[1], "to index")
        case Err(e) => Err(e)
        case Ok(to) => Ok((from, to))
  }

  /** The corrected reading differs from the source only in that one
      message. */
  lemma {:induction false} MoveArgumentsAgreeOtherwise(words: seq<string>)
    requires |words| != 1
    ensures MoveArguments(words) == MoveArgumentsAsWritten(words)
  {
  }

  /** `move_notification`'s reply, given the 0-based indexes and the
      store's answer. */
  function MoveReply(from: nat, to: nat, stored: Result<(), string>): (s: string)
    ensures stored.Ok? <==> |s| >= 6 && s[..6] == "Moved "
    ensures stored.Err? ==> s == "Failed to move: " + stored.error + "."
  {
    match stored
    case Ok(_) => "Moved " + NatToDecimal(from + 1) + " to " + NatToDecimal(to + 1) + "."
    case Err(e) =>
      var s := "Failed to move: " + e + ".";
      assert s[0] != "Moved "[0];
      s
  }

  /** The success reply quotes the user's own numbers back: converting to
      0-based and back to 1-based loses nothing. */
  lemma {:induction false} MoveReplyEchoesInput(a: nat, b: nat)
    requires 1 <= a <= USIZE_MAX && 1 <= b <= USIZE_MAX
    ensures var words := [NatToDecimal(a), NatToDecimal(b)];
            && MoveArguments(words) == Ok((a - 1, b - 1))
            && MoveReply(a - 1, b - 1, Ok(())) == "Moved " + words[0] + " to " + words[1] + "."
  {
    ParseUsizeOfDecimal(a);
    ParseUsizeOfDecimal(b);
  }

  /** What `move_notification` does with its arguments once read: an
      argument error first, then a failed database connection, then the
      store's answer as the reply. */
  function MoveWith(args: Result<(nat, nat), string>, connect: Result<(), string>,
                    move: (nat, nat) -> Result<(), string>): (r: Result<string, string>)
    ensures r.Err? <==> args.Err? || connect.Err?
    ensures args.Err? ==> r == Err(args.error)
    ensures args.Ok? && connect.Err? ==> r == Err(connect.error)
    ensures r.Ok? ==> r.value == MoveReply(args.value.0, args.value.1, move(args.value.0, args.value.1))
  {
    match args
    case Err(e) => Err(e)
    case Ok((from, to)) =>
      if connect.Err? then Err(connect.error)
      else Ok(MoveReply(from, to, move(from, to)))
  }

  /** `move_notification` as written: a missing second index is reported as
      a missing first one. */
  function MoveNotification(words: seq<string>, connect: Result<(), string>,
                            move: (nat, nat) -> Result<(), string>): (r: Result<string, string>)
    ensures r.Err? <==> MoveArgumentsAsWritten(words).Err? || connect.Err?
    ensures |words| < 2 ==> r == Err("from idx not present")
    ensures MoveArgumentsAsWritten(words).Err? ==> r == Err(MoveArgumentsAsWritten(words).error)
    ensures MoveArgumentsAsWritten(words).Ok? && connect.Err? ==> r == Err(connect.error)
    ensures r.Ok? ==> |words| >= 2
                      && var (from, to) := MoveArgumentsAsWritten(words).value;
                         r.value == MoveReply(from, to, move(from, to))
  {
    MoveWith(MoveArgumentsAsWritten(words), connect, move)
  }

  /** `move_notification` with the missing second index reported as such. */
  function MoveNotificationIntended(words: seq<string>, connect: Result<(), string>,
                                    move: (nat, nat) -> Result<(), string>): (r: Result<string, string>)
    ensures r.Err? <==> MoveArguments(words).Err? || connect.Err?
    ensures |words| == 1 ==> r == Err("to idx not present")
    ensures MoveArguments(words).Err? ==> r == Err(MoveArguments(words).error)
    ensures MoveArguments(words).Ok? && connect.Err? ==> r == Err(connect.error)
    ensures r.Ok? ==> var (from, to) := MoveArguments(words).value;
                      r.value == MoveReply(from, to, move(from, to))
  {
    MoveWith(MoveArguments(words), connect, move)
  }

  /** The command as written and as intended answer alike except when
      exactly one word is given, where only the intended one blames the
      missing second index. */
  lemma {:induction false} MoveNotificationsDifferOnlyOnOneWord(words: seq<string>, connect: Result<(), string>,
                                                          move: (nat, nat) -> Result<(), string>)
    ensures |words| != 1 ==> MoveNotification(words, connect, move) == MoveNotificationIntended(words, connect, move)
    ensures |words| == 1 ==> MoveNotification(words, connect, move) == Err("from idx not present")
                             && MoveNotificationIntended(words, connect, move) == Err("to idx not present")
  {
    if |words| != 1 {
      MoveArgumentsAgreeOtherwise(words);
    }
  }
}
