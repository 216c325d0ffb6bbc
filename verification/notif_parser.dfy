/** The notification-management command grammar (`NotifCommand::parse`),
    modelled as written: a recursive-descent parser over an immutable
    tokenizer cursor.

    The grammar only peeks at the command keyword, so the first `next_token`
    of every branch reads the keyword itself again. As a consequence
    `ack X` yields `Acknowledge("ack")`, `move a b` yields `Move("move", "a")`,
    `add` never yields a command and `meta ...` yields `Add("meta", ...)`.
    The keyword lemmas state these consequences; the module ends with the
    grammar as evidently intended (keyword consumed, `meta` building `Meta`)
    and what it yields for each keyword. */
module NotifParser {
  import opened Wrappers
  import opened Text

  /** The tokens the grammar tells apart, and one variant standing for every
      other token the lexer produces (its punctuation, say). The lexer is
      not part of this model, so those tokens are kept only as their text. */
  datatype Token =
    | Word(text: string)
    | Quote(text: string)
    | Semi
    | Dot
    | EndOfLine
    | OtherToken(text: string)

  /** A lexing failure (an unterminated quote, for one) at a position of the input. */
  datatype LexError = LexError(position: nat, reason: string)

  /** One step of the lexer: the next token, or the error the lexer reports there. */
  datatype Lexeme = Lexed(token: Token) | Fails(error: LexError)

  /** The tokenizer's state: what it will produce from here on. Being a value,
      cloning it is copying it, and advancing a copy leaves the original alone. */
  datatype Tokenizer = Tokenizer(rest: seq<Lexeme>)

  datatype NotifCommandKind =
    | Acknowledge(idx: string)
    | Add(url: string, description: string)
    | Move(from: string, to: string)
    | Meta(idx: string, description: string)

  datatype NotifCommand = NotifCommand(command: NotifCommandKind, userOverride: Option<string>)

  type ParseResult = Result<Option<NotifCommand>, LexError>

  /** `peek_token`: the next token without advancing; `None` at end of input. */
  function PeekToken(toks: Tokenizer): (r: Result<Option<Token>, LexError>)
    ensures r.Ok? && r.value.None? <==> |toks.rest| == 0
    ensures r.Ok? && r.value.Some? ==> toks.rest[0] == Lexed(r.value.value)
    ensures r.Err? ==> |toks.rest| > 0 && toks.rest[0] == Fails(r.error)
  {
    if |toks.rest| == 0 then Ok(None)
    else match toks.rest[0]
      case Lexed(t) => Ok(Some(t))
      case Fails(e) => Err(e)
  }

  /** `next_token`: returns exactly what `peek_token` would, and advances past
      it when it is a token. */
  function NextToken(toks: Tokenizer): (r: (Result<Option<Token>, LexError>, Tokenizer))
    ensures r.0 == PeekToken(toks)
    ensures r.0.Ok? && r.0.value.Some? ==> r.1.rest == toks.rest[1..]
    ensures !(r.0.Ok? && r.0.value.Some?) ==> r.1 == toks
  {
    if |toks.rest| == 0 then (Ok(None), toks)
    else match toks.rest[0]
      case Lexed(t) => (Ok(Some(t)), Tokenizer(toks.rest[1..]))
      case Fails(e) => (Err(e), toks)
  }

  predicate IsTerminator(t: Token)
  {
    t.Semi? || t.Dot? || t.EndOfLine?
  }

  /** What `acknowledge` and `move` accept as an argument: a word or a quote. */
  predicate IsArgument(l: Lexeme)
  {
    l.Lexed? && (l.token.Word? || l.token.Quote?)
  }

  /** The description loop shared by `add` and `meta`: appends each token's
      text and a space until a terminator or the end of input, then pops one
      character. Returns the description and the cursor, which still stands
      on the terminator. */
  function DescriptionLoop(toks: Tokenizer, acc: string, render: Token -> string)
    : (r: Result<(string, Tokenizer), LexError>)
    ensures r.Err? ==> Fails(r.error) in toks.rest
    ensures r.Ok? ==> |r.value.1.rest| <= |toks.rest|
                      && r.value.1.rest == toks.rest[|toks.rest| - |r.value.1.rest|..]
    ensures r.Ok? ==> |r.value.1.rest| == 0
                      || (r.value.1.rest[0].Lexed? && IsTerminator(r.value.1.rest[0].token))
    decreases |toks.rest|
  {
    match PeekToken(toks)
    case Err(e) => Err(e)
    case Ok(None) => Ok((Pop(acc), toks))
    case Ok(Some(t)) =>
      if IsTerminator(t) then Ok((Pop(acc), toks))
      else
        // `next_token` returns the token just peeked at (see its contract).
        var rest := NextToken(toks).1;
        DescriptionLoop(rest, acc + render(t) + " ", render)
  }

  /** A command the parser can actually produce: its first string is always
      the keyword it re-read (`meta` building the `Add` variant). */
  predicate EchoesKeyword(kind: NotifCommandKind)
  {
    || (kind.Acknowledge? && (kind.idx == "acknowledge" || kind.idx == "ack"))
    || (kind.Move? && kind.from == "move")
    || (kind.Add? && kind.url == "meta")
  }

  /** The second argument of `move`: a word or a quoted string. */
  function MoveTo(toks: Tokenizer, from: string): Result<Option<NotifCommandKind>, LexError>
  {
    match NextToken(toks).0
    case Err(e) => Err(e)
    case Ok(Some(Word(to))) => Ok(Some(Move(from, to)))
    case Ok(Some(Quote(to))) => Ok(Some(Move(from, to)))
    case Ok(_) => Ok(None)
  }

  /** The variant the `meta` branch builds as written, and as intended. */
  function AddKind(idx: string, description: string): NotifCommandKind
  {
    Add(idx, description)
  }

  function MetaKind(idx: string, description: string): NotifCommandKind
  {
    Meta(idx, description)
  }

  /** The branch for keyword `cmd`, reading its arguments from `args`;
      `meta` builds its command with `metaKind`. */
  function Branch(args: Tokenizer, cmd: string, render: Token -> string,
                  metaKind: (string, string) -> NotifCommandKind)
    : (r: Result<Option<NotifCommandKind>, LexError>)
    ensures r.Err? ==> Fails(r.error) in args.rest
  {
    if cmd == "acknowledge" || cmd == "ack" then
      match NextToken(args).0
      case Err(e) => Err(e)
      case Ok(Some(Word(idx))) => Ok(Some(Acknowledge(idx)))
      case Ok(Some(Quote(url))) => Ok(Some(Acknowledge(url)))
      case Ok(_) => Ok(None)
    else if cmd == "add" then
      match NextToken(args)
      case (Err(e), _) => Err(e)
      case (Ok(Some(Quote(url))), afterUrl) =>
        (match DescriptionLoop(afterUrl, "", render)
         case Err(e) => Err(e)
         case Ok((description, _)) => Ok(Some(Add(url, description))))
      case (Ok(_), _) => Ok(None)
    else if cmd == "move" then
      match NextToken(args)
      case (Err(e), _) => Err(e)
      case (Ok(Some(Word(from))), afterFrom) => MoveTo(afterFrom, from)
      case (Ok(Some(Quote(from))), afterFrom) => MoveTo(afterFrom, from)
      case (Ok(_), _) => Ok(None)
    else if cmd == "meta" then
      match NextToken(args)
      case (Err(e), _) => Err(e)
      case (Ok(Some(Word(idx))), afterIdx) =>
        (match DescriptionLoop(afterIdx, "", render)
         case Err(e) => Err(e)
         case Ok((description, _)) => Ok(Some(metaKind(idx, description))))
      case (Ok(_), _) => Ok(None)
    else
      Ok(None)
  }

  /** The branch for keyword `cmd` as written: `toks` has only peeked at the
      keyword, so the arguments are read starting from the keyword itself,
      and `meta` builds the `Add` variant. */
  function ParseKind(toks: Tokenizer, cmd: string, render: Token -> string)
    : (r: Result<Option<NotifCommandKind>, LexError>)
    requires |toks.rest| > 0 && toks.rest[0] == Lexed(Word(cmd))
    ensures r.Err? ==> Fails(r.error) in toks.rest
    ensures r.Ok? && r.value.Some? ==> EchoesKeyword(r.value.value)
  {
    Branch(toks, cmd, render, AddKind)
  }

  /** Everything after the optional `as <user>` prefix. */
  function ParseCommand(toks: Tokenizer, userOverride: Option<string>, render: Token -> string)
    : (r: ParseResult)
    ensures r.Err? ==> Fails(r.error) in toks.rest
    // a lexer failure where the keyword should stand is returned
    ensures |toks.rest| > 0 && toks.rest[0].Fails? ==> r == Err(toks.rest[0].error)
    ensures r.Ok? && r.value.Some? ==>
              |toks.rest| > 0 && EchoesKeyword(r.value.value.command)
              && r.value.value.userOverride == userOverride
  {
    match PeekToken(toks)
    case Err(e) => Err(e)
    case Ok(Some(Word(cmd))) =>
      (match ParseKind(toks, cmd, render)
       case Err(e) => Err(e)
       case Ok(None) => Ok(None)
       case Ok(Some(kind)) => Ok(Some(NotifCommand(kind, userOverride))))
    case Ok(_) => Ok(None)
  }

  /** The parse as run on the clone `toks` of the caller's tokenizer. */
  function ParseClone(toks: Tokenizer, render: Token -> string): (r: ParseResult)
    ensures r.Err? ==> Fails(r.error) in toks.rest
    // a lexer failure at the first token, or right after `as`, is returned
    ensures |toks.rest| > 0 && toks.rest[0].Fails? ==> r == Err(toks.rest[0].error)
    ensures |toks.rest| > 1 && toks.rest[0] == Lexed(Word("as")) && toks.rest[1].Fails?
            ==> r == Err(toks.rest[1].error)
    ensures r.Ok? && r.value.Some? ==>
              var c := r.value.value;
              && EchoesKeyword(c.command)
              && |toks.rest| > 0
              && (c.userOverride.Some? <==> toks.rest[0] == Lexed(Word("as")))
              && (c.userOverride.Some? ==>
                    |toks.rest| > 1 && toks.rest[1] == Lexed(Word(c.userOverride.value)))
  {
    match PeekToken(toks)
    case Err(e) => Err(e)
    case Ok(p) =>
      if p == Some(Word("as")) then
        match NextToken(toks)
        case (Err(e), _) => Err(e)
        case (Ok(_), afterAs) =>
          match NextToken(afterAs)
          case (Err(e), _) => Err(e)
          case (Ok(Some(Word(user))), afterUser) => ParseCommand(afterUser, Some(user), render)
          case (Ok(_), _) => Ok(None)
      else
        ParseCommand(toks, None, render)
  }

  /** `NotifCommand::parse`: the result, and the caller's tokenizer afterwards. */
  function Parse(input: Tokenizer, render: Token -> string): (r: (ParseResult, Tokenizer))
    // the caller's tokenizer is never advanced
    ensures r.1 == input
    // the only errors are the tokenizer's own; one at the first token, or
    // right after `as`, is returned
    ensures r.0.Err? ==> Fails(r.0.error) in input.rest
    ensures |input.rest| > 0 && input.rest[0].Fails? ==> r.0 == Err(input.rest[0].error)
    ensures |input.rest| > 1 && input.rest[0] == Lexed(Word("as")) && input.rest[1].Fails?
            ==> r.0 == Err(input.rest[1].error)
    // every command produced echoes its keyword; `Meta` is never produced
    ensures r.0.Ok? && r.0.value.Some? ==> EchoesKeyword(r.0.value.value.command)
    // a user override comes from, and only from, a leading `as <word>`
    ensures r.0.Ok? && r.0.value.Some? ==>
              var c := r.0.value.value;
              && |input.rest| > 0
              && (c.userOverride.Some? <==> input.rest[0] == Lexed(Word("as")))
              && (c.userOverride.Some? ==>
                    |input.rest| > 1 && input.rest[1] == Lexed(Word(c.userOverride.value)))
  {
    var toks := input;
    (ParseClone(toks, render), input)
  }

  // ---------------------------------------------------------------------
  // The description loop against an independent definition.

  /** Whether the description loop consumes this lexeme: any token but a
      terminator. */
  predicate Consumable(l: Lexeme)
  {
    l.Lexed? && !IsTerminator(l.token)
  }

  /** Length of the leading run of consumable lexemes. */
  function Span(ls: seq<Lexeme>): (n: nat)
    ensures n <= |ls|
    ensures forall i :: 0 <= i < n ==> Consumable(ls[i])
    ensures n < |ls| ==> !Consumable(ls[n])
  {
    if |ls| == 0 || !Consumable(ls[0]) then 0 else 1 + Span(ls[1..])
  }

  function Renders(ls: seq<Lexeme>, render: Token -> string): (r: seq<string>)
    requires forall i :: 0 <= i < |ls| ==> ls[i].Lexed?
    ensures |r| == |ls|
    ensures forall i :: 0 <= i < |ls| ==> r[i] == render(ls[i].token)
  {
    if |ls| == 0 then [] else [render(ls[0].token)] + Renders(ls[1..], render)
  }

  /** One step of the loop over a token it consumes. */
  lemma {:induction false} DescriptionLoopStep(toks: Tokenizer, acc: string, render: Token -> string)
    requires |toks.rest| > 0 && Consumable(toks.rest[0])
    ensures DescriptionLoop(toks, acc, render)
            == DescriptionLoop(Tokenizer(toks.rest[1..]), acc + render(toks.rest[0].token) + " ", render)
  {
    var t := toks.rest[0].token;
    assert PeekToken(toks) == Ok(Some(t));
    assert NextToken(toks).1 == Tokenizer(toks.rest[1..]);
  }

  /** The loop stops at once before anything it does not consume. */
  lemma {:induction false} DescriptionLoopStops(toks: Tokenizer, acc: string, render: Token -> string)
    requires |toks.rest| == 0 || !Consumable(toks.rest[0])
    ensures DescriptionLoop(toks, acc, render)
            == if |toks.rest| > 0 && toks.rest[0].Fails? then Err(toks.rest[0].error)
               else Ok((Pop(acc), toks))
  {
  }

  lemma {:induction false} SpaceTerminatedStep(ls: seq<Lexeme>, n: nat, acc: string, render: Token -> string)
    requires 0 < n <= |ls|
    requires forall i :: 0 <= i < |ls| ==> ls[i].Lexed?
    ensures acc + render(ls[0].token) + " " + SpaceTerminated(Renders(ls[1..][..n - 1], render))
            == acc + SpaceTerminated(Renders(ls[..n], render))
  {
    assert ls[..n][1..] == ls[1..][..n - 1];
    assert Renders(ls[..n], render) == [render(ls[0].token)] + Renders(ls[1..][..n - 1], render);
  }

  /** The description loop consumes exactly the leading run of tokens up to
      `Semi`, `Dot`, `EndOfLine` or the end of input; it fails with the lexer's error if that run ends in one, and
      otherwise yields the accumulated text followed by each consumed
      token's text and a space, popped once. */
  predicate LoopMeetsSpec(toks: Tokenizer, acc: string, render: Token -> string)
  {
    var n := Span(toks.rest);
    DescriptionLoop(toks, acc, render)
    == if n < |toks.rest| && toks.rest[n].Fails? then Err(toks.rest[n].error)
       else Ok((Pop(acc + SpaceTerminated(Renders(toks.rest[..n], render))),
                Tokenizer(toks.rest[n..])))
  }

  lemma {:induction false} LoopMeetsSpecAtStop(toks: Tokenizer, acc: string, render: Token -> string)
    requires |toks.rest| == 0 || !Consumable(toks.rest[0])
    ensures LoopMeetsSpec(toks, acc, render)
  {
    var ls := toks.rest;
    DescriptionLoopStops(toks, acc, render);
    assert Span(ls) == 0;
    assert Renders(ls[..0], render) == [];
    assert acc + SpaceTerminated([]) == acc;
    assert ls[0..] == ls;
  }

  lemma {:induction false} LoopMeetsSpecStep(toks: Tokenizer, acc: string, render: Token -> string)
    requires |toks.rest| > 0 && Consumable(toks.rest[0])
    requires LoopMeetsSpec(Tokenizer(toks.rest[1..]), acc + render(toks.rest[0].token) + " ", render)
    ensures LoopMeetsSpec(toks, acc, render)
  {
    var ls := toks.rest;
    var n := Span(ls);
    var rest := Tokenizer(ls[1..]);
    var acc' := acc + render(ls[0].token) + " ";
    DescriptionLoopStep(toks, acc, render);
    assert Span(rest.rest) == n - 1;
    if n < |ls| && ls[n].Fails? {
      assert rest.rest[n - 1] == ls[n];
      assert DescriptionLoop(rest, acc', render) == Err(ls[n].error);
    } else {
      var pre := ls[..n];
      forall i | 0 <= i < n
        ensures pre[i].Lexed?
      {
        assert pre[i] == ls[i] && Consumable(ls[i]);
      }
      SpaceTerminatedStep(pre, n, acc, render);
      assert pre[1..][..n - 1] == rest.rest[..n - 1];
      assert pre[..n] == pre;
      assert pre[0] == ls[0];
      assert acc' + SpaceTerminated(Renders(rest.rest[..n - 1], render))
          == acc + SpaceTerminated(Renders(pre, render));
      assert rest.rest[n - 1..] == ls[n..];
      assert DescriptionLoop(rest, acc', render)
          == Ok((Pop(acc + SpaceTerminated(Renders(pre, render))), Tokenizer(ls[n..])));
    }
  }

  lemma {:induction false} DescriptionLoopSpec(toks: Tokenizer, acc: string, render: Token -> string)
    ensures LoopMeetsSpec(toks, acc, render)
    decreases |toks.rest|
  {
    if |toks.rest| == 0 || !Consumable(toks.rest[0]) {
      LoopMeetsSpecAtStop(toks, acc, render);
    } else {
      DescriptionLoopSpec(Tokenizer(toks.rest[1..]), acc + render(toks.rest[0].token) + " ", render);
      LoopMeetsSpecStep(toks, acc, render);
    }
  }

  /** Started with an empty accumulator, as both callers do, the loop's
      description is the consumed tokens' texts joined by single spaces;
      empty when a terminator or the end of input comes first. */
  lemma {:induction false} DescriptionIsJoined(toks: Tokenizer, render: Token -> string)
    requires Span(toks.rest) == |toks.rest| || toks.rest[Span(toks.rest)].Lexed?
    ensures var n := Span(toks.rest);
            DescriptionLoop(toks, "", render)
            == Ok((JoinSpaced(Renders(toks.rest[..n], render)), Tokenizer(toks.rest[n..])))
  {
    var n := Span(toks.rest);
    DescriptionLoopSpec(toks, "", render);
    var pieces := Renders(toks.rest[..n], render);
    assert "" + SpaceTerminated(pieces) == SpaceTerminated(pieces);
    PopSpaceTerminated(pieces);
  }

  /** The description loop started empty: the lexer's error where the run
      of tokens before a terminator ends in one, and otherwise their joined
      texts. */
  lemma {:induction false} DescriptionOutcome(toks: Tokenizer, render: Token -> string)
    ensures var n := Span(toks.rest);
            DescriptionLoop(toks, "", render)
            == if n < |toks.rest| && toks.rest[n].Fails? then Err(toks.rest[n].error)
               else Ok((JoinSpaced(Renders(toks.rest[..n], render)), Tokenizer(toks.rest[n..])))
  {
    var n := Span(toks.rest);
    if n < |toks.rest| && toks.rest[n].Fails? {
      DescriptionLoopSpec(toks, "", render);
    } else {
      DescriptionIsJoined(toks, render);
    }
  }

  /** The `add` branch on a quote: that quote and the description after it. */
  lemma {:induction false} BranchAdd(args: Tokenizer, render: Token -> string, metaKind: (string, string) -> NotifCommandKind)
    requires |args.rest| > 0 && args.rest[0].Lexed? && args.rest[0].token.Quote?
    ensures var after := args.rest[1..];
            var n := Span(after);
            Branch(args, "add", render, metaKind)
            == if n < |after| && after[n].Fails? then Err(after[n].error)
               else Ok(Some(Add(args.rest[0].token.text, JoinSpaced(Renders(after[..n], render)))))
  {
    var afterUrl := NextToken(args).1;
    assert afterUrl == Tokenizer(args.rest[1..]);
    DescriptionOutcome(afterUrl, render);
  }

  /** The `meta` branch on a word: that word and the description after it. */
  lemma {:induction false} BranchMeta(args: Tokenizer, render: Token -> string, metaKind: (string, string) -> NotifCommandKind)
    requires |args.rest| > 0 && args.rest[0].Lexed? && args.rest[0].token.Word?
    ensures var after := args.rest[1..];
            var n := Span(after);
            Branch(args, "meta", render, metaKind)
            == if n < |after| && after[n].Fails? then Err(after[n].error)
               else Ok(Some(metaKind(args.rest[0].token.text, JoinSpaced(Renders(after[..n], render)))))
  {
    var afterIdx := NextToken(args).1;
    assert afterIdx == Tokenizer(args.rest[1..]);
    DescriptionOutcome(afterIdx, render);
  }

  // ---------------------------------------------------------------------
  // What the grammar does with each keyword.

  /** `as <word>` sets the override and the rest is parsed as a command. */
  lemma {:induction false} AsPrefixSetsOverride(input: Tokenizer, user: string, render: Token -> string)
    requires |input.rest| >= 2
    requires input.rest[0] == Lexed(Word("as")) && input.rest[1] == Lexed(Word(user))
    ensures Parse(input, render).0 == ParseCommand(Tokenizer(input.rest[2..]), Some(user), render)
  {
    assert NextToken(input).1.rest[1..] == input.rest[2..];
  }

  /** `as` followed by anything but a word (or by nothing) is not a command. */
  lemma {:induction false} AsWithoutUserDeclines(input: Tokenizer, render: Token -> string)
    requires |input.rest| >= 1 && input.rest[0] == Lexed(Word("as"))
    requires |input.rest| == 1 || (input.rest[1].Lexed? && !input.rest[1].token.Word?)
    ensures Parse(input, render).0 == Ok(None)
  {
  }

  /** Without the prefix the override is `None`. */
  lemma {:induction false} NoPrefixNoOverride(input: Tokenizer, render: Token -> string)
    requires |input.rest| == 0 || input.rest[0] != Lexed(Word("as"))
    ensures Parse(input, render).0 == ParseCommand(input, None, render)
  {
  }

  /** `acknowledge`/`ack` re-reads its keyword as the identifier, whatever follows. */
  lemma {:induction false} AckEchoesKeyword(toks: Tokenizer, userOverride: Option<string>, render: Token -> string)
    requires |toks.rest| >= 1 && toks.rest[0].Lexed? && toks.rest[0].token.Word?
    requires toks.rest[0].token.text == "acknowledge" || toks.rest[0].token.text == "ack"
    ensures ParseCommand(toks, userOverride, render)
            == Ok(Some(NotifCommand(Acknowledge(toks.rest[0].token.text), userOverride)))
  {
  }

  /** `add` never yields a command: the token it requires to be a quote is
      the keyword itself. */
  lemma {:induction false} AddNeverParses(toks: Tokenizer, userOverride: Option<string>, render: Token -> string)
    requires |toks.rest| >= 1 && toks.rest[0] == Lexed(Word("add"))
    ensures ParseCommand(toks, userOverride, render) == Ok(None)
  {
  }

  /** `move` takes the keyword as its first index and the next token, which
      must be a word or a quote, as its second. */
  lemma {:induction false} MoveEchoesKeyword(toks: Tokenizer, userOverride: Option<string>, render: Token -> string)
    requires |toks.rest| >= 1 && toks.rest[0] == Lexed(Word("move"))
    ensures |toks.rest| >= 2 && IsArgument(toks.rest[1]) ==>
              ParseCommand(toks, userOverride, render)
              == Ok(Some(NotifCommand(Move("move", toks.rest[1].token.text), userOverride)))
    ensures |toks.rest| >= 2 && toks.rest[1].Fails? ==>
              ParseCommand(toks, userOverride, render) == Err(toks.rest[1].error)
    ensures |toks.rest| == 1 || (toks.rest[1].Lexed? && !IsArgument(toks.rest[1])) ==>
              ParseCommand(toks, userOverride, render) == Ok(None)
  {
    var afterFrom := NextToken(toks).1;
    assert afterFrom.rest == toks.rest[1..];
  }

  /** `meta` builds an `Add` whose first field is the keyword and whose
      description is made of every token after it up to `Semi`, `Dot`,
      `EndOfLine` or the end of input. */
  lemma {:induction false} MetaBuildsAdd(toks: Tokenizer, userOverride: Option<string>, render: Token -> string)
    requires |toks.rest| >= 1 && toks.rest[0] == Lexed(Word("meta"))
    ensures var after := toks.rest[1..];
            var n := Span(after);
            ParseCommand(toks, userOverride, render)
            == if n < |after| && after[n].Fails? then Err(after[n].error)
               else Ok(Some(NotifCommand(Add("meta", JoinSpaced(Renders(after[..n], render))),
                                         userOverride)))
  {
    BranchMeta(toks, render, AddKind);
  }

  /** A first token that is not a known keyword means no command. */
  lemma {:induction false} OtherInputDeclines(toks: Tokenizer, userOverride: Option<string>, render: Token -> string)
    requires |toks.rest| == 0
             || (toks.rest[0].Lexed?
                 && (!toks.rest[0].token.Word?
                     || toks.rest[0].token.text !in {"acknowledge", "ack", "add", "move", "meta"}))
    ensures ParseCommand(toks, userOverride, render) == Ok(None)
  {
  }

  // ---------------------------------------------------------------------
  // The grammar as evidently intended.

  /** The command grammar with the keyword consumed before the arguments are
      read, and with `meta` building the `Meta` variant. */
  function ParseCommandIntended(toks: Tokenizer, userOverride: Option<string>, render: Token -> string)
    : (r: ParseResult)
    ensures r.Err? ==> Fails(r.error) in toks.rest
    ensures r.Ok? && r.value.Some? ==> |toks.rest| > 0 && r.value.value.userOverride == userOverride
  {
    match PeekToken(toks)
    case Err(e) => Err(e)
    case Ok(Some(Word(cmd))) =>
      var args := Tokenizer(toks.rest[1..]);
      (match Branch(args, cmd, render, MetaKind)
       case Err(e) =>
         assert toks.rest == [toks.rest[0]] + args.rest;
         Err(e)
       case Ok(None) => Ok(None)
       case Ok(Some(kind)) => Ok(Some(NotifCommand(kind, userOverride))))
    case Ok(_) => Ok(None)
  }

  /** Intended: `acknowledge`/`ack` takes the word or quote after it. */
  lemma {:induction false} IntendedAckReadsArgument(toks: Tokenizer, userOverride: Option<string>, render: Token -> string)
    requires |toks.rest| >= 2 && toks.rest[0].Lexed? && toks.rest[0].token.Word?
    requires toks.rest[0].token.text == "acknowledge" || toks.rest[0].token.text == "ack"
    requires IsArgument(toks.rest[1])
    ensures ParseCommandIntended(toks, userOverride, render)
            == Ok(Some(NotifCommand(Acknowledge(toks.rest[1].token.text), userOverride)))
  {
  }

  /** Intended: `add` takes the quoted URL after it and the tokens up to the
      first terminator as its description. */
  lemma {:induction false} IntendedAddReadsUrl(toks: Tokenizer, userOverride: Option<string>, render: Token -> string)
    requires |toks.rest| >= 2 && toks.rest[0] == Lexed(Word("add"))
    requires toks.rest[1].Lexed? && toks.rest[1].token.Quote?
    ensures var after := toks.rest[2..];
            var n := Span(after);
            ParseCommandIntended(toks, userOverride, render)
            == if n < |after| && after[n].Fails? then Err(after[n].error)
               else Ok(Some(NotifCommand(Add(toks.rest[1].token.text,
                                             JoinSpaced(Renders(after[..n], render))),
                                         userOverride)))
  {
    var args := Tokenizer(toks.rest[1..]);
    BranchAdd(args, render, MetaKind);
    assert args.rest[1..] == toks.rest[2..];
  }

  /** Intended: `move` takes the two words or quotes after it. */
  lemma {:induction false} IntendedMoveReadsBoth(toks: Tokenizer, userOverride: Option<string>, render: Token -> string)
    requires |toks.rest| >= 3 && toks.rest[0] == Lexed(Word("move"))
    requires IsArgument(toks.rest[1]) && IsArgument(toks.rest[2])
    ensures ParseCommandIntended(toks, userOverride, render)
            == Ok(Some(NotifCommand(Move(toks.rest[1].token.text, toks.rest[2].token.text), userOverride)))
  {
    var args := Tokenizer(toks.rest[1..]);
    assert NextToken(args).1.rest == toks.rest[2..];
  }

  /** Intended: `meta` builds `Meta` from the word after it and the tokens up
      to the first terminator. */
  lemma {:induction false} IntendedMetaBuildsMeta(toks: Tokenizer, userOverride: Option<string>, render: Token -> string)
    requires |toks.rest| >= 2 && toks.rest[0] == Lexed(Word("meta"))
    requires toks.rest[1].Lexed? && toks.rest[1].token.Word?
    ensures var after := toks.rest[2..];
            var n := Span(after);
            ParseCommandIntended(toks, userOverride, render)
            == if n < |after| && after[n].Fails? then Err(after[n].error)
               else Ok(Some(NotifCommand(Meta(toks.rest[1].token.text,
                                              JoinSpaced(Renders(after[..n], render))),
                                         userOverride)))
  {
    var args := Tokenizer(toks.rest[1..]);
    BranchMeta(args, render, MetaKind);
    assert args.rest[1..] == toks.rest[2..];
  }
}
