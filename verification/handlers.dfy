/** The dispatch router: `handle_github` and `handle_zulip` as the two
    macros expand them. Each handler is represented by the outcomes of its
    two phases (`parse_input`, `handle_input`), which the model takes as
    given; dispatch is then a fold over the handlers in registration order
    that records which phases it called. */
module Handlers {
  import opened Wrappers

  /** The error a handler reports: a message safe to show verbatim, or an
      internal error whose detail is only logged. */
  datatype HandlerError = Message(text: string) | Other(detail: string)

  /** `Display for HandlerError`: the message itself, or a fixed notice that
      reveals nothing of the internal error. */
  function Display(e: HandlerError): (s: string)
    ensures e.Message? ==> s == e.text
    ensures e.Other? ==> s == "An internal error occurred."
  {
    match e
    case Message(msg) => msg
    case Other(_) => "An internal error occurred."
  }

  /** What a user is shown of an error: a message in full, so two messages
      look alike only when they are equal, and of an internal error nothing
      that depends on its detail. */
  lemma {:induction false} DisplayHidesDetail(d1: string, d2: string, m1: string, m2: string)
    ensures Display(Other(d1)) == Display(Other(d2))
    ensures Display(Message(m1)) == Display(Message(m2)) <==> m1 == m2
  {
  }

  /** Why a repository's configuration did not load. */
  datatype ConfigurationError = Missing | Toml(detail: string) | Http(detail: string)

  /** One feature's section of the configuration, and a handler's parsed input;
      both are opaque to the dispatcher. */
  datatype Section = Section(body: string)
  datatype HandlerInput = HandlerInput(body: string)

  /** A loaded configuration: the sections present, by feature key. */
  datatype Config = Config(sections: map<string, Section>)

  /** A code-hosting handler: its configuration key, what `parse_input`
      returns for the section it is given, and what `handle_input` returns. */
  datatype GithubHandler = GithubHandler(
    key: string,
    parse: Option<Section> -> Result<Option<HandlerInput>, string>,
    handle: (Section, HandlerInput) -> Result<(), string>)

  /** A chat handler: what its `parse_input` returns for the request at hand,
      and what `handle_input` returns. */
  datatype ZulipHandler = ZulipHandler(
    key: string,
    parse: Result<Option<HandlerInput>, string>,
    handle: HandlerInput -> Result<(), string>)

  /** The calls dispatch makes, in order. */
  datatype Call = Parsed(key: string) | Handled(key: string) | PostProcessed(name: string)

  /** One handler's turn: dispatch goes on, or returns early with an error. */
  datatype Step = Continue(calls: seq<Call>) | Abort(error: HandlerError, calls: seq<Call>)

  /** A dispatch: the result returned and the calls made. */
  datatype Dispatch = Dispatch(result: Result<(), HandlerError>, calls: seq<Call>)

  const GITHUB_HANDLERS: seq<string> :=
    ["assign", "relabel", "ping", "nominate", "prioritize", "major_change", "glacier",
     "autolabel", "notify_zulip"]

  const ZULIP_HANDLERS: seq<string> := ["relabel", "manage_notifs"]

  const POST_PROCESSORS: seq<Call> := [PostProcessed("notification"), PostProcessed("rustc_commits")]

  /** The section handed to `parse_input`: present only when the
      configuration loaded and has the handler's section. */
  function SectionFor(config: Result<Config, ConfigurationError>, key: string): (s: Option<Section>)
    ensures s.Some? <==> config.Ok? && key in config.value.sections
    ensures s.Some? ==> s.value == config.value.sections[key]
  {
    match config
    case Ok(c) => if key in c.sections then Some(c.sections[key]) else None
    case Err(_) => None
  }

  /** The message for a handler that found a command but has no section.
      The string continuations in the source drop each line break and the
      following indentation. */
  function FeatureNotEnabled(key: string): (s: string)
    ensures |s| >= 14 + |key| && s[..13] == "The feature `" && s[13..13 + |key|] == key
            && s[13 + |key|] == '`'
  {
    var rest := " is not enabled in this repository.\n"
                + "To enable it add its section in the `triagebot.toml` in the root of the repository.";
    KeyQuotedAt(key, rest);
    "The feature `" + key + "`" + rest
  }

  lemma {:induction false} KeyQuotedAt(key: string, rest: string)
    ensures var s := "The feature `" + key + "`" + rest;
            |s| >= 14 + |key| && s[..13] == "The feature `" && s[13..13 + |key|] == key && s[13 + |key|] == '`'
  {
    var s := "The feature `" + key + "`" + rest;
    assert s[13 + |key|] == "`"[0];
  }

  /** One handler's turn in `handle_github`. */
  function GithubStep(config: Result<Config, ConfigurationError>,
                      describe: ConfigurationError -> string, h: GithubHandler): (s: Step)
    ensures s.calls == [Parsed(h.key)] || s.calls == [Parsed(h.key), Handled(h.key)]
    ensures h.parse(SectionFor(config, h.key)) == Ok(None) ==> s == Continue([Parsed(h.key)])
    ensures (Handled(h.key) in s.calls) ==> config.Ok? && h.key in config.value.sections
    ensures s.Abort? && s.error.Message? && config.Ok? && h.key in config.value.sections
            ==> h.parse(SectionFor(config, h.key)).Err?
                && s.error == Message(h.parse(SectionFor(config, h.key)).error)
    ensures h.parse(SectionFor(config, h.key)).Err?
            ==> s == Abort(Message(h.parse(SectionFor(config, h.key)).error), [Parsed(h.key)])
    ensures config.Ok? && h.key in config.value.sections
            && h.parse(SectionFor(config, h.key)).Ok? && h.parse(SectionFor(config, h.key)).value.Some?
            ==> var out := h.handle(config.value.sections[h.key], h.parse(SectionFor(config, h.key)).value.value);
                && s.calls == [Parsed(h.key), Handled(h.key)]
                && (out.Err? <==> s.Abort?)
                && (out.Err? ==> s.error == Other(out.error))
  {
    var parsed := Parsed(h.key);
    match h.parse(SectionFor(config, h.key))
    case Err(msg) => Abort(Message(msg), [parsed])
    case Ok(None) => Continue([parsed])
    case Ok(Some(input)) =>
      match config
      case Err(Missing) => Abort(Message(describe(Missing)), [parsed])
      case Err(Toml(d)) => Abort(Message(describe(Toml(d))), [parsed])
      case Err(Http(d)) => Abort(Other(describe(Http(d))), [parsed])
      case Ok(cfg) =>
        if h.key in cfg.sections then
          match h.handle(cfg.sections[h.key], input)
          case Err(e) => Abort(Other(e), [parsed, Handled(h.key)])
          case Ok(_) => Continue([parsed, Handled(h.key)])
        else
          Abort(Message(FeatureNotEnabled(h.key)), [parsed])
  }

  /** One handler's turn in `handle_zulip`: no configuration, no gating. */
  function ZulipStep(h: ZulipHandler): (s: Step)
    ensures |s.calls| > 0 && s.calls[0] == Parsed(h.key)
    ensures Handled(h.key) in s.calls <==> h.parse.Ok? && h.parse.value.Some?
    ensures h.parse == Ok(None) ==> s == Continue([Parsed(h.key)])
    ensures h.parse.Err? ==> s == Abort(Message(h.parse.error), [Parsed(h.key)])
    ensures h.parse.Ok? && h.parse.value.Some?
            ==> var out := h.handle(h.parse.value.value);
                && (out.Err? <==> s.Abort?)
                && (out.Err? ==> s.error == Other(out.error))
  {
    var parsed := Parsed(h.key);
    match h.parse
    case Err(msg) => Abort(Message(msg), [parsed])
    case Ok(None) => Continue([parsed])
    case Ok(Some(input)) =>
      match h.handle(input)
      case Err(e) => Abort(Other(e), [parsed, Handled(h.key)])
      case Ok(_) => Continue([parsed, Handled(h.key)])
  }

  /** The unrolled handler sequence: each turn in order; the first early
      return ends the dispatch. */
  function Run(steps: seq<Step>): (d: Dispatch)
    ensures d.result.Ok? <==> forall i :: 0 <= i < |steps| ==> steps[i].Continue?
    ensures d.result.Ok? ==> d.calls == Flatten(steps)
  {
    if |steps| == 0 then Dispatch(Ok(()), [])
    else
      match steps[0]
      case Abort(e, calls) => Dispatch(Err(e), calls)
      case Continue(calls) =>
        var rest := Run(steps[1..]);
        assert (forall i :: 0 <= i < |steps[1..]| ==> steps[1..][i].Continue?)
               <==> (forall i :: 1 <= i < |steps| ==> steps[i].Continue?);
        Dispatch(rest.result, calls + rest.calls)
  }

  // ---------------------------------------------------------------------
  // The fold against a declarative reading.

  /** Index of the first turn that returns early, or the count. */
  function FirstAbort(steps: seq<Step>): (k: nat)
    ensures k <= |steps|
    ensures forall j :: 0 <= j < k ==> steps[j].Continue?
    ensures k < |steps| ==> steps[k].Abort?
  {
    if |steps| == 0 || steps[0].Abort? then 0 else 1 + FirstAbort(steps[1..])
  }

  /** All calls of the given turns, in order. */
  function Flatten(steps: seq<Step>): seq<Call>
  {
    if |steps| == 0 then [] else steps[0].calls + Flatten(steps[1..])
  }

  /** Dispatch returns the error of the first turn that returns early, or
      `Ok` when none does; it makes exactly the calls of the turns up to and
      including that one, and none of any later handler. */
  lemma {:induction false} RunMeaning(steps: seq<Step>)
    ensures var k := FirstAbort(steps);
            && Run(steps).result == (if k < |steps| then Err(steps[k].error) else Ok(()))
            && Run(steps).calls == Flatten(steps[..if k < |steps| then k + 1 else k])
  {
    if |steps| > 0 {
      if steps[0].Abort? {
        assert steps[..1] == [steps[0]];
        assert Flatten([steps[0]]) == steps[0].calls + Flatten([]);
      } else {
        RunMeaning(steps[1..]);
        var k := FirstAbort(steps);
        var n := if k < |steps| then k + 1 else k;
        assert steps[..n][1..] == steps[1..][..n - 1];
      }
    }
  }

  lemma {:induction false} FlattenMembers(steps: seq<Step>, c: Call)
    ensures c in Flatten(steps) <==> exists i :: 0 <= i < |steps| && c in steps[i].calls
  {
    if |steps| > 0 {
      FlattenMembers(steps[1..], c);
      if c in Flatten(steps[1..]) {
        var i :| 0 <= i < |steps[1..]| && c in steps[1..][i].calls;
        assert c in steps[i + 1].calls;
      }
      if exists i :: 0 <= i < |steps| && c in steps[i].calls {
        var i :| 0 <= i < |steps| && c in steps[i].calls;
        if i > 0 {
          assert c in steps[1..][i - 1].calls;
        }
      }
    }
  }

  function GithubSteps(config: Result<Config, ConfigurationError>,
                       describe: ConfigurationError -> string, hs: seq<GithubHandler>): (s: seq<Step>)
    ensures |s| == |hs| && forall i :: 0 <= i < |hs| ==> s[i] == GithubStep(config, describe, hs[i])
  {
    seq(|hs|, i requires 0 <= i < |hs| => GithubStep(config, describe, hs[i]))
  }

  function ZulipSteps(hs: seq<ZulipHandler>): (s: seq<Step>)
    ensures |s| == |hs| && forall i :: 0 <= i < |hs| ==> s[i] == ZulipStep(hs[i])
  {
    seq(|hs|, i requires 0 <= i < |hs| => ZulipStep(hs[i]))
  }

  predicate RegisteredGithub(hs: seq<GithubHandler>)
  {
    |hs| == |GITHUB_HANDLERS| && forall i :: 0 <= i < |hs| ==> hs[i].key == GITHUB_HANDLERS[i]
  }

  predicate RegisteredZulip(hs: seq<ZulipHandler>)
  {
    |hs| == |ZULIP_HANDLERS| && forall i :: 0 <= i < |hs| ==> hs[i].key == ZULIP_HANDLERS[i]
  }

  /** `handle_github`: the registered handlers in order, then the two
      post-processors, whose own failures (`notification`, `rustcCommits`)
      are only logged. */
  function HandleGithub(config: Result<Config, ConfigurationError>,
                        describe: ConfigurationError -> string, hs: seq<GithubHandler>,
                        notification: Result<(), string>, rustcCommits: Result<(), string>): (d: Dispatch)
    requires RegisteredGithub(hs)
    ensures d.result.Ok? <==> forall i :: 0 <= i < |hs| ==> GithubStep(config, describe, hs[i]).Continue?
    ensures d.result.Ok? ==> |d.calls| >= 2 && d.calls[|d.calls| - 2..] == POST_PROCESSORS
    ensures d.result.Err? ==> forall c :: c in d.calls ==> !c.PostProcessed?
    // the handlers' fold decides the result and the calls (see RunMeaning),
    // followed by the post-processors only when no handler returned early
    ensures var run := Run(GithubSteps(config, describe, hs));
            && d.result == run.result
            && d.calls == run.calls + (if run.result.Ok? then POST_PROCESSORS else [])
  {
    var steps := GithubSteps(config, describe, hs);
    var run := Run(steps);
    PostProcessorsLast(steps);
    Dispatch(run.result, run.calls + if run.result.Ok? then POST_PROCESSORS else [])
  }

  /** Appending the post-processors after a successful fold puts them last;
      after an early return none is called, as no handler turn calls one. */
  lemma {:induction false} PostProcessorsLast(steps: seq<Step>)
    requires forall i :: 0 <= i < |steps| ==> forall c :: c in steps[i].calls ==> !c.PostProcessed?
    ensures var run := Run(steps);
            var calls := run.calls + if run.result.Ok? then POST_PROCESSORS else [];
            && (run.result.Ok? ==> |calls| >= 2 && calls[|calls| - 2..] == POST_PROCESSORS)
            && (run.result.Err? ==> forall c :: c in calls ==> !c.PostProcessed?)
  {
    var run := Run(steps);
    if run.result.Ok? {
      var calls := run.calls + POST_PROCESSORS;
      assert calls[|calls| - 2..] == POST_PROCESSORS;
    } else {
      HandlersNeverPostProcess(steps);
      assert run.calls + [] == run.calls;
    }
  }

  /** The post-processors' own results never change what `handle_github`
      returns or which calls it makes. This holds by construction, since
      `HandleGithub` only takes those results to show that they are
      ignored. */
  lemma {:induction false} PostProcessorFailuresIgnored(config: Result<Config, ConfigurationError>,
                              describe: ConfigurationError -> string, hs: seq<GithubHandler>,
                              n1: Result<(), string>, r1: Result<(), string>,
                              n2: Result<(), string>, r2: Result<(), string>)
    requires RegisteredGithub(hs)
    ensures HandleGithub(config, describe, hs, n1, r1) == HandleGithub(config, describe, hs, n2, r2)
  {
  }


  /** No handler turn records a post-processor call. */
  lemma {:induction false} HandlersNeverPostProcess(steps: seq<Step>)
    requires forall i :: 0 <= i < |steps| ==> forall c :: c in steps[i].calls ==> !c.PostProcessed?
    ensures forall c :: c in Run(steps).calls ==> !c.PostProcessed?
  {
    RunMeaning(steps);
    var k := FirstAbort(steps);
    var n := if k < |steps| then k + 1 else k;
    forall c | c in Run(steps).calls ensures !c.PostProcessed? {
      FlattenMembers(steps[..n], c);
    }
  }

  /** With no early return, every turn's calls are made. */
  lemma {:induction false} RunMakesEveryCall(steps: seq<Step>, c: Call, i: nat)
    requires forall j :: 0 <= j < |steps| ==> steps[j].Continue?
    requires i < |steps| && c in steps[i].calls
    ensures c in Run(steps).calls
  {
    RunMeaning(steps);
    assert steps[..|steps|] == steps;
    FlattenMembers(steps, c);
  }

  /** `handle_zulip`: every registered handler in order, each one run as
      soon as its parse finds a command. */
  function HandleZulip(hs: seq<ZulipHandler>): (d: Dispatch)
    requires RegisteredZulip(hs)
    ensures d.result.Ok? <==> forall i :: 0 <= i < |hs| ==> ZulipStep(hs[i]).Continue?
    ensures d.result.Ok? ==>
              forall i :: 0 <= i < |hs| && hs[i].parse.Ok? && hs[i].parse.value.Some?
                          ==> Handled(hs[i].key) in d.calls
    // the handlers' fold decides the result and the calls (see RunMeaning)
    ensures d == Run(ZulipSteps(hs))
  {
    var steps := ZulipSteps(hs);
    RunMeaning(steps);
    ZulipRunsEveryMatch(hs);
    Run(steps)
  }

  lemma {:induction false} ZulipRunsEveryMatch(hs: seq<ZulipHandler>)
    ensures Run(ZulipSteps(hs)).result.Ok? ==>
              forall i :: 0 <= i < |hs| && hs[i].parse.Ok? && hs[i].parse.value.Some?
                          ==> Handled(hs[i].key) in Run(ZulipSteps(hs)).calls
  {
    var steps := ZulipSteps(hs);
    RunMeaning(steps);
    if Run(steps).result.Ok? {
      forall i | 0 <= i < |hs| && hs[i].parse.Ok? && hs[i].parse.value.Some?
        ensures Handled(hs[i].key) in Run(steps).calls
      {
        RunMakesEveryCall(steps, Handled(hs[i].key), i);
      }
    }
  }

  // ---------------------------------------------------------------------
  // Consequences for the code-hosting channel.

  /** A turn that returns early after turns that all continue ends the
      dispatch with its error, after the calls of all those turns. */
  lemma {:induction false} RunStopsAt(steps: seq<Step>, k: nat)
    requires k < |steps| && steps[k].Abort?
    requires forall j :: 0 <= j < k ==> steps[j].Continue?
    ensures Run(steps).result == Err(steps[k].error)
    ensures Run(steps).calls == Flatten(steps[..k]) + steps[k].calls
  {
    RunMeaning(steps);
    assert FirstAbort(steps) == k;
    FlattenSnoc(steps[..k + 1]);
    assert steps[..k + 1][..k] == steps[..k];
  }

  /** A handler whose parse fails stops dispatch with that message: no later
      handler is parsed or run, and neither post-processor runs. */
  lemma {:induction false} ParseErrorStopsGithub(config: Result<Config, ConfigurationError>,
                              describe: ConfigurationError -> string, hs: seq<GithubHandler>, k: nat,
                              notification: Result<(), string>, rustcCommits: Result<(), string>)
    requires RegisteredGithub(hs)
    requires k < |hs| && hs[k].parse(SectionFor(config, hs[k].key)).Err?
    requires forall j :: 0 <= j < k ==> GithubStep(config, describe, hs[j]).Continue?
    ensures HandleGithub(config, describe, hs, notification, rustcCommits).result
            == Err(Message(hs[k].parse(SectionFor(config, hs[k].key)).error))
    ensures HandleGithub(config, describe, hs, notification, rustcCommits).calls
            == Flatten(GithubSteps(config, describe, hs)[..k]) + [Parsed(hs[k].key)]
  {
    var steps := GithubSteps(config, describe, hs);
    assert steps[k] == Abort(Message(hs[k].parse(SectionFor(config, hs[k].key)).error), [Parsed(hs[k].key)]);
    RunStopsAt(steps, k);
  }

  lemma {:induction false} FlattenSnoc(steps: seq<Step>)
    requires |steps| > 0
    ensures Flatten(steps) == Flatten(steps[..|steps| - 1]) + steps[|steps| - 1].calls
    decreases |steps|
  {
    if |steps| > 1 {
      FlattenSnoc(steps[1..]);
      assert steps[1..][..|steps| - 2] == steps[..|steps| - 1][1..];
    }
  }

  /** A handler that found a command in a repository whose configuration
      lacks its section gets the fixed "feature not enabled" message naming
      its key, and its `handle_input` is never called. */
  lemma {:induction false} DisabledFeatureIsReported(config: Result<Config, ConfigurationError>,
                                  describe: ConfigurationError -> string, h: GithubHandler)
    requires config.Ok? && h.key !in config.value.sections
    requires h.parse(None).Ok? && h.parse(None).value.Some?
    ensures GithubStep(config, describe, h) == Abort(Message(FeatureNotEnabled(h.key)), [Parsed(h.key)])
  {
  }

  /** A handler that found a command when the configuration failed to load:
      a missing or malformed file is reported as a message, a transient
      failure as an internal error; `handle_input` is not called. */
  lemma {:induction false} ConfigFailureStopsHandler(config: Result<Config, ConfigurationError>,
                                  describe: ConfigurationError -> string, h: GithubHandler)
    requires config.Err? && h.parse(None).Ok? && h.parse(None).value.Some?
    ensures GithubStep(config, describe, h).Abort?
    ensures GithubStep(config, describe, h).calls == [Parsed(h.key)]
    ensures GithubStep(config, describe, h).error
            == if config.error.Http? then Other(describe(config.error)) else Message(describe(config.error))
  {
  }
}
