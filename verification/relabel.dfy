/** The relabel handler's pure logic: deciding whether a user may set a
    label (`match_pattern`, `check_filter`) and applying a command's label
    deltas to an issue's labels (the loop of `handle_input`).

    Glob matching belongs to the `glob` crate, which is not part of this
    model: a `Glob` value stands for it, as a pair of a validity predicate
    (does the pattern compile?) and a matching predicate. */
module Relabel {
  import opened Wrappers

  datatype TeamMembership = Member | Outsider | Unknown

  datatype CheckFilterResult = Allow | Deny | DenyUnknown

  datatype MatchPatternResult = Allow | Deny | NoMatch

  /** The glob crate: whether a pattern compiles, and whether a compiled
      pattern matches a label. */
  datatype Glob = Glob(valid: string -> bool, matches: (string, string) -> bool)

  /** A pattern the glob crate refused to compile. */
  datatype PatternError = PatternError(pattern: string)

  /** The configuration's `allow_unauthenticated` list. */
  datatype RelabelConfig = RelabelConfig(allowUnauthenticated: seq<string>)

  predicate IsInverted(pattern: string)
  {
    |pattern| > 0 && pattern[0] == '!'
  }

  /** `match_pattern`: a leading `!` is stripped and inverts the verdict;
      a label the glob does not match is `NoMatch` either way. */
  function MatchPattern(glob: Glob, pattern: string, name: string)
    : (r: Result<MatchPatternResult, PatternError>)
    ensures var body := if IsInverted(pattern) then pattern[1..] else pattern;
            && (r.Err? <==> !glob.valid(body))
            && (r.Ok? ==> (r.value == MatchPatternResult.NoMatch <==> !glob.matches(body, name)))
            && (r.Ok? && r.value != MatchPatternResult.NoMatch ==>
                  (r.value == MatchPatternResult.Deny <==> IsInverted(pattern)))
  {
    var (body, inverse) := if IsInverted(pattern) then (pattern[1..], true) else (pattern, false);
    if !glob.valid(body) then Err(PatternError(body))
    else if glob.matches(body, name) then
      Ok(if inverse then MatchPatternResult.Deny else MatchPatternResult.Allow)
    else Ok(MatchPatternResult.NoMatch)
  }

  /** Prefixing `!` swaps `Allow` and `Deny` and leaves `NoMatch` and
      compile errors alone. */
  lemma {:induction false} InvertedPatternSwapsVerdict(glob: Glob, pattern: string, name: string)
    requires !IsInverted(pattern)
    ensures MatchPattern(glob, "!" + pattern, name).Err? <==> MatchPattern(glob, pattern, name).Err?
    ensures MatchPattern(glob, pattern, name) == Ok(MatchPatternResult.Allow)
            <==> MatchPattern(glob, "!" + pattern, name) == Ok(MatchPatternResult.Deny)
    ensures MatchPattern(glob, pattern, name) == Ok(MatchPatternResult.NoMatch)
            <==> MatchPattern(glob, "!" + pattern, name) == Ok(MatchPatternResult.NoMatch)
  {
    assert ("!" + pattern)[1..] == pattern;
  }

  /** Whether a pattern ends the scan of `check_filter`: an explicit deny or
      a compile error. */
  predicate Stops(glob: Glob, pattern: string, name: string)
  {
    var m := MatchPattern(glob, pattern, name);
    m.Err? || m.value == MatchPatternResult.Deny
  }

  /** The scan over `allow_unauthenticated`, with its `matched` flag: an
      `Allow` sets it, a `Deny` clears it and breaks, an error returns. */
  function Scan(glob: Glob, patterns: seq<string>, name: string, matched: bool)
    : Result<bool, string>
  {
    if |patterns| == 0 then Ok(matched)
    else
      var m := MatchPattern(glob, patterns[0], name);
      if m.Err? then Err("failed to match pattern " + patterns[0])
      else if m.value.Deny? then Ok(false)
      else if m.value.Allow? then Scan(glob, patterns[1..], name, true)
      else Scan(glob, patterns[1..], name, matched)
  }

  /** The verdict for someone not known to be a team member. */
  function Denial(membership: TeamMembership): CheckFilterResult
  {
    if membership == Outsider then CheckFilterResult.Deny else CheckFilterResult.DenyUnknown
  }

  /** `check_filter`: team members may set any label; anyone else needs an
      allowing pattern that no explicit deny overrides. */
  function CheckFilter(glob: Glob, name: string, config: RelabelConfig, membership: TeamMembership)
    : (r: Result<CheckFilterResult, string>)
    ensures membership == Member ==> r == Ok(CheckFilterResult.Allow)
    ensures membership != Member && r.Ok? ==>
              r.value == CheckFilterResult.Allow || r.value == Denial(membership)
  {
    if membership == Member then Ok(CheckFilterResult.Allow)
    else
      match Scan(glob, config.allowUnauthenticated, name, false)
      case Err(msg) => Err(msg)
      case Ok(matched) =>
        if matched then Ok(CheckFilterResult.Allow)
        else if membership == Outsider then Ok(CheckFilterResult.Deny)
        else Ok(CheckFilterResult.DenyUnknown)
  }

  // ---------------------------------------------------------------------
  // `check_filter` against a declarative reading.

  /** Index of the first pattern that stops the scan, or the list's length. */
  function FirstStop(glob: Glob, patterns: seq<string>, name: string): (k: nat)
    ensures k <= |patterns|
    ensures forall j :: 0 <= j < k ==> !Stops(glob, patterns[j], name)
    ensures k < |patterns| ==> Stops(glob, patterns[k], name)
  {
    if |patterns| == 0 || Stops(glob, patterns[0], name) then 0
    else 1 + FirstStop(glob, patterns[1..], name)
  }

  predicate Allows(glob: Glob, pattern: string, name: string)
  {
    MatchPattern(glob, pattern, name) == Ok(MatchPatternResult.Allow)
  }

  /** What the scan yields: the error or deny at the first stopping pattern,
      if any; otherwise whether some pattern allows. */
  function ScanSpec(glob: Glob, patterns: seq<string>, name: string, matched: bool)
    : Result<bool, string>
  {
    var k := FirstStop(glob, patterns, name);
    if k < |patterns| then
      if MatchPattern(glob, patterns[k], name).Err? then Err("failed to match pattern " + patterns[k])
      else Ok(false)
    else
      Ok(matched || exists i :: 0 <= i < |patterns| && Allows(glob, patterns[i], name))
  }

  lemma {:induction false} ScanMeetsSpec(glob: Glob, patterns: seq<string>, name: string, matched: bool)
    ensures Scan(glob, patterns, name, matched) == ScanSpec(glob, patterns, name, matched)
    decreases |patterns|
  {
    if |patterns| > 0 && !Stops(glob, patterns[0], name) {
      var tail := patterns[1..];
      var matched' := matched || Allows(glob, patterns[0], name);
      ScanMeetsSpec(glob, tail, name, matched');
      assert FirstStop(glob, patterns, name) == 1 + FirstStop(glob, tail, name);
      if FirstStop(glob, tail, name) == |tail| {
        if exists i :: 0 <= i < |tail| && Allows(glob, tail[i], name) {
          var i :| 0 <= i < |tail| && Allows(glob, tail[i], name);
          assert Allows(glob, patterns[i + 1], name);
        }
        if exists i :: 0 <= i < |patterns| && Allows(glob, patterns[i], name) {
          var i :| 0 <= i < |patterns| && Allows(glob, patterns[i], name);
          if i > 0 {
            assert Allows(glob, tail[i - 1], name);
          }
        }
      }
    }
  }

  /** `check_filter` in full: members are allowed without any pattern being
      consulted; otherwise the first deny or compile error decides, and
      without one an allowing pattern admits and its absence refuses. */
  lemma {:induction false} CheckFilterMeaning(glob: Glob, name: string, config: RelabelConfig, membership: TeamMembership)
    ensures var ps := config.allowUnauthenticated;
            var k := FirstStop(glob, ps, name);
            CheckFilter(glob, name, config, membership)
            == if membership == Member then Ok(CheckFilterResult.Allow)
               else if k < |ps| && MatchPattern(glob, ps[k], name).Err? then
                 Err("failed to match pattern " + ps[k])
               else if k < |ps| then Ok(Denial(membership))
               else if exists i :: 0 <= i < |ps| && Allows(glob, ps[i], name) then
                 Ok(CheckFilterResult.Allow)
               else Ok(Denial(membership))
  {
    ScanMeetsSpec(glob, config.allowUnauthenticated, name, false);
  }

  /** An explicit deny ends the scan: whatever follows it, even a pattern
      that does not compile, is never consulted. */
  lemma {:induction false} DenyHidesLaterPatterns(glob: Glob, name: string, before: seq<string>, deny: string,
                               after: seq<string>, membership: TeamMembership)
    requires MatchPattern(glob, deny, name) == Ok(MatchPatternResult.Deny)
    ensures CheckFilter(glob, name, RelabelConfig(before + [deny] + after), membership)
            == CheckFilter(glob, name, RelabelConfig(before + [deny]), membership)
  {
    var long := before + [deny] + after;
    var short := before + [deny];
    CheckFilterMeaning(glob, name, RelabelConfig(long), membership);
    CheckFilterMeaning(glob, name, RelabelConfig(short), membership);
    assert short[|before|] == deny && Stops(glob, deny, name);
    FirstStopOfPrefix(glob, name, short, after);
    assert long == short + after;
  }

  /** A stopping pattern in a prefix fixes the first stop of any extension. */
  lemma {:induction false} FirstStopOfPrefix(glob: Glob, name: string, prefix: seq<string>, after: seq<string>)
    requires FirstStop(glob, prefix, name) < |prefix|
    ensures FirstStop(glob, prefix + after, name) == FirstStop(glob, prefix, name)
  {
    var k := FirstStop(glob, prefix, name);
    var k' := FirstStop(glob, prefix + after, name);
    assert (prefix + after)[k] == prefix[k];
    assert forall j :: 0 <= j < k ==> (prefix + after)[j] == prefix[j];
  }

  // ---------------------------------------------------------------------
  // Label deltas.

  /** An issue label; only its name matters here. */
  datatype Label = Label(name: string)

  datatype LabelDelta = Add(name: string) | Remove(name: string)

  predicate HasName(labels: seq<Label>, name: string)
  {
    exists i :: 0 <= i < |labels| && labels[i].name == name
  }

  /** No two labels share a name. */
  predicate UniqueNames(labels: seq<Label>)
  {
    forall i, j :: 0 <= i < j < |labels| ==> labels[i].name != labels[j].name
  }

  /** `position`: index of the first label with this name, or the length. */
  function Position(labels: seq<Label>, name: string): (p: nat)
    ensures p <= |labels|
    ensures forall q :: 0 <= q < p ==> labels[q].name != name
    ensures p < |labels| ==> labels[p].name == name
  {
    if |labels| == 0 || labels[0].name == name then 0 else 1 + Position(labels[1..], name)
  }

  /** One delta applied to the working label list; the flag says whether it
      changed the list. */
  function ApplyDelta(labels: seq<Label>, delta: LabelDelta): (r: (seq<Label>, bool))
    ensures r.1 <==> r.0 != labels
  {
    match delta
    case Add(name) =>
      if HasName(labels, name) then (labels, false)
      else (labels + [Label(name)], true)
    case Remove(name) =>
      var p := Position(labels, name);
      if p < |labels| then
        var removed := labels[..p] + labels[p + 1..];
        assert |removed| < |labels|;
        (removed, true)
      else (labels, false)
  }

  /** `Add` appends a label of that name unless one is present. */
  lemma {:induction false} AddDeltaMeaning(labels: seq<Label>, name: string)
    ensures var r := ApplyDelta(labels, Add(name));
            && (r.1 <==> !HasName(labels, name))
            && HasName(r.0, name)
            && (r.1 ==> r.0 == labels + [Label(name)])
  {
    if !HasName(labels, name) {
      var added := labels + [Label(name)];
      assert added[|labels|].name == name;
    }
  }

  /** `Remove` deletes the first label of that name, if there is one. */
  lemma {:induction false} RemoveDeltaMeaning(labels: seq<Label>, name: string)
    ensures var r := ApplyDelta(labels, Remove(name));
            && (r.1 <==> HasName(labels, name))
            && (r.1 ==> exists p :: 0 <= p < |labels| && labels[p].name == name
                                    && (forall q :: 0 <= q < p ==> labels[q].name != name)
                                    && r.0 == labels[..p] + labels[p + 1..])
  {
    var p := Position(labels, name);
    if HasName(labels, name) {
      var i :| 0 <= i < |labels| && labels[i].name == name;
      assert p <= i;
    }
  }

  /** A delta never gives two labels the same name. */
  lemma {:induction false} ApplyDeltaKeepsUnique(labels: seq<Label>, delta: LabelDelta)
    requires UniqueNames(labels)
    ensures UniqueNames(ApplyDelta(labels, delta).0)
  {
    var r := ApplyDelta(labels, delta);
    if r.1 {
      if delta.Add? {
        var added := labels + [Label(delta.name)];
        assert r.0 == added;
        forall i, j | 0 <= i < j < |added| ensures added[i].name != added[j].name {
          if j == |labels| {
            assert added[i] == labels[i];
          } else {
            assert added[i] == labels[i] && added[j] == labels[j];
          }
        }
      } else {
        var p := Position(labels, delta.name);
        var removed := labels[..p] + labels[p + 1..];
        assert r.0 == removed;
        forall i, j | 0 <= i < j < |removed| ensures removed[i].name != removed[j].name {
          var i', j' := if i < p then i else i + 1, if j < p then j else j + 1;
          assert removed[i] == labels[i'] && removed[j] == labels[j'];
        }
      }
    }
  }

  /** The deltas applied in order, with the `changed` flag of the loop. */
  function ApplyDeltas(labels: seq<Label>, deltas: seq<LabelDelta>): (seq<Label>, bool)
  {
    if |deltas| == 0 then (labels, false)
    else
      var (before, changedBefore) := ApplyDeltas(labels, deltas[..|deltas| - 1]);
      var (after, changedNow) := ApplyDelta(before, deltas[|deltas| - 1]);
      (after, changedBefore || changedNow)
  }

  /** One more delta extends the loop by one step. */
  lemma {:induction false} ApplyDeltasStep(labels: seq<Label>, deltas: seq<LabelDelta>, i: nat)
    requires i < |deltas|
    ensures ApplyDeltas(labels, deltas[..i + 1])
            == (ApplyDelta(ApplyDeltas(labels, deltas[..i]).0, deltas[i]).0,
                ApplyDeltas(labels, deltas[..i]).1 || ApplyDelta(ApplyDeltas(labels, deltas[..i]).0, deltas[i]).1)
  {
    assert deltas[..i + 1][..i] == deltas[..i];
  }

  /** The working list after the first `i` deltas. */
  function Intermediate(labels: seq<Label>, deltas: seq<LabelDelta>, i: nat): seq<Label>
    requires i <= |deltas|
  {
    ApplyDeltas(labels, deltas[..i]).0
  }

  /** The first `i` deltas of a prefix are the first `i` deltas. */
  lemma {:induction false} IntermediateOfPrefix(labels: seq<Label>, deltas: seq<LabelDelta>, n: nat, i: nat)
    requires i <= n <= |deltas|
    ensures Intermediate(labels, deltas[..n], i) == Intermediate(labels, deltas, i)
  {
    assert deltas[..n][..i] == deltas[..i];
  }

  /** An unset flag means an unchanged list; unique names stay unique. */
  lemma {:induction false} ApplyDeltasFrame(labels: seq<Label>, deltas: seq<LabelDelta>)
    ensures !ApplyDeltas(labels, deltas).1 ==> ApplyDeltas(labels, deltas).0 == labels
    ensures UniqueNames(labels) ==> UniqueNames(ApplyDeltas(labels, deltas).0)
  {
    if |deltas| > 0 {
      var init := deltas[..|deltas| - 1];
      ApplyDeltasFrame(labels, init);
      if UniqueNames(labels) {
        ApplyDeltaKeepsUnique(ApplyDeltas(labels, init).0, deltas[|deltas| - 1]);
      }
    }
  }

  /** The flag set means some delta altered the list it met. */
  lemma {:induction false} ChangedHasWitness(labels: seq<Label>, deltas: seq<LabelDelta>)
    requires ApplyDeltas(labels, deltas).1
    ensures exists i :: 0 <= i < |deltas|
                        && Intermediate(labels, deltas, i + 1) != Intermediate(labels, deltas, i)
  {
    var n := |deltas| - 1;
    var init := deltas[..n];
    assert init[..n] == init;
    IntermediateOfPrefix(labels, deltas, n, n);
    assert deltas[..n + 1] == deltas;
    if ApplyDeltas(labels, init).1 {
      ChangedHasWitness(labels, init);
      var i :| 0 <= i < n && Intermediate(labels, init, i + 1) != Intermediate(labels, init, i);
      IntermediateOfPrefix(labels, deltas, n, i);
      IntermediateOfPrefix(labels, deltas, n, i + 1);
      assert Intermediate(labels, deltas, i + 1) != Intermediate(labels, deltas, i);
    } else {
      assert Intermediate(labels, deltas, n + 1) != Intermediate(labels, deltas, n);
    }
  }

  /** A delta that altered the list it met sets the flag. */
  lemma {:induction false} WitnessSetsChanged(labels: seq<Label>, deltas: seq<LabelDelta>, i: nat)
    requires i < |deltas| && Intermediate(labels, deltas, i + 1) != Intermediate(labels, deltas, i)
    ensures ApplyDeltas(labels, deltas).1
  {
    var n := |deltas| - 1;
    var init := deltas[..n];
    if i < n {
      IntermediateOfPrefix(labels, deltas, n, i);
      IntermediateOfPrefix(labels, deltas, n, i + 1);
      WitnessSetsChanged(labels, init, i);
    } else {
      assert init[..n] == init;
      IntermediateOfPrefix(labels, deltas, n, n);
      assert deltas[..n + 1] == deltas;
    }
  }

  /** `changed` holds exactly when some delta altered the list it was
      applied to; and applying deltas never creates a duplicate name. */
  lemma {:induction false} ChangedMeansSomeDeltaActed(labels: seq<Label>, deltas: seq<LabelDelta>)
    ensures ApplyDeltas(labels, deltas).1
            <==> exists i :: 0 <= i < |deltas|
                             && Intermediate(labels, deltas, i + 1) != Intermediate(labels, deltas, i)
    ensures !ApplyDeltas(labels, deltas).1 ==> ApplyDeltas(labels, deltas).0 == labels
    ensures UniqueNames(labels) ==> UniqueNames(ApplyDeltas(labels, deltas).0)
  {
    ApplyDeltasFrame(labels, deltas);
    if ApplyDeltas(labels, deltas).1 {
      ChangedHasWitness(labels, deltas);
    }
    if exists i :: 0 <= i < |deltas|
                   && Intermediate(labels, deltas, i + 1) != Intermediate(labels, deltas, i) {
      var i :| 0 <= i < |deltas|
               && Intermediate(labels, deltas, i + 1) != Intermediate(labels, deltas, i);
      WitnessSetsChanged(labels, deltas, i);
    }
  }

  /** What the relabel handler does after checking and applying the deltas. */
  datatype RelabelOutcome =
    | ErrorComment(message: string)   // an error comment is posted; the labels are not set
    | SetLabels(labels: seq<Label>)   // `set_labels` is called with this list
    | NoChange                        // nothing is sent

  /** The notice added when membership could not be checked. The string
      continuation in the source swallows the line break and the
      indentation, so no space follows the semicolon. */
  const UNKNOWN_MEMBERSHIP: string := ";we were unable to check if you are a team member."

  /** The error a refused label produces, or `None` when it is allowed. */
  function Refusal(name: string, verdict: Result<CheckFilterResult, string>): (r: Option<string>)
    ensures r.None? <==> verdict == Ok(CheckFilterResult.Allow)
    ensures verdict.Err? ==> r == Some(verdict.error)
    ensures verdict.Ok? && r.Some? ==> |r.value| > 6 + |name| && r.value[6..6 + |name|] == name
    // only a refusal for unknown membership carries the notice
    ensures verdict == Ok(CheckFilterResult.DenyUnknown) ==>
              |r.value| > |UNKNOWN_MEMBERSHIP|
              && r.value[|r.value| - |UNKNOWN_MEMBERSHIP|..] == UNKNOWN_MEMBERSHIP
    ensures verdict == Ok(CheckFilterResult.Deny) ==> r.value[|r.value| - 1] == 's'
  {
    if verdict.Err? then Some(verdict.error)
    else if verdict.value.Allow? then None
    else
      var denied := "Label " + name + " can only be set by Rust team members";
      assert denied[|denied| - 1] == "s"[0];
      if verdict.value.Deny? then Some(denied)
      else Some(denied + UNKNOWN_MEMBERSHIP)
  }

  /** Refused for unknown membership, a label gets the refusal a non-member
      gets, followed by the notice that membership could not be checked. */
  lemma {:induction false} UnknownMembershipIsFlagged(name: string)
    ensures Refusal(name, Ok(CheckFilterResult.DenyUnknown))
            == Some(Refusal(name, Ok(CheckFilterResult.Deny)).value + UNKNOWN_MEMBERSHIP)
  {
  }

  function LabelName(delta: LabelDelta): string
  {
    match delta
    case Add(name) => name
    case Remove(name) => name
  }

  predicate Permitted(glob: Glob, config: RelabelConfig, membership: TeamMembership, delta: LabelDelta)
  {
    CheckFilter(glob, LabelName(delta), config, membership) == Ok(CheckFilterResult.Allow)
  }

  /** Index of the first delta whose label is refused, or the count. */
  function FirstRefused(glob: Glob, config: RelabelConfig, membership: TeamMembership,
                        deltas: seq<LabelDelta>): (k: nat)
    ensures k <= |deltas|
    ensures forall j :: 0 <= j < k ==> Permitted(glob, config, membership, deltas[j])
    ensures k < |deltas| ==> !Permitted(glob, config, membership, deltas[k])
  {
    if |deltas| == 0 || !Permitted(glob, config, membership, deltas[0]) then 0
    else 1 + FirstRefused(glob, config, membership, deltas[1..])
  }

  /** The first refused delta is the one after a run of permitted ones. */
  lemma {:induction false} FirstRefusedIs(glob: Glob, config: RelabelConfig, membership: TeamMembership,
                       deltas: seq<LabelDelta>, i: nat)
    requires i <= |deltas|
    requires forall j :: 0 <= j < i ==> Permitted(glob, config, membership, deltas[j])
    requires i < |deltas| ==> !Permitted(glob, config, membership, deltas[i])
    ensures FirstRefused(glob, config, membership, deltas) == i
  {
  }

  /** The delta loop of `handle_input`: each label is checked before its
      delta is applied; the first refused one posts its error and ends the
      handler, discarding every change made so far; otherwise the labels are
      set once at the end, and only if some delta changed them. */
  method HandleInput(glob: Glob, config: RelabelConfig, membership: TeamMembership,
                     issueLabels: seq<Label>, deltas: seq<LabelDelta>)
    returns (outcome: RelabelOutcome)
    ensures var k := FirstRefused(glob, config, membership, deltas);
            k < |deltas| ==>
              outcome == ErrorComment(Refusal(LabelName(deltas[k]),
                                              CheckFilter(glob, LabelName(deltas[k]), config, membership)).value)
    ensures FirstRefused(glob, config, membership, deltas) == |deltas| ==>
              var (labels, changed) := ApplyDeltas(issueLabels, deltas);
              outcome == if changed then SetLabels(labels) else NoChange
  {
    var labels := issueLabels;
    var changed := false;
    var i := 0;
    while i < |deltas|
      invariant 0 <= i <= |deltas|
      invariant labels == ApplyDeltas(issueLabels, deltas[..i]).0
      invariant changed == ApplyDeltas(issueLabels, deltas[..i]).1
      invariant forall j :: 0 <= j < i ==> Permitted(glob, config, membership, deltas[j])
    {
      var delta := deltas[i];
      var name := LabelName(delta);
      var err := Refusal(name, CheckFilter(glob, name, config, membership));
      if err.Some? {
        FirstRefusedIs(glob, config, membership, deltas, i);
        return ErrorComment(err.value);
      }
      var (next, acted) := ApplyDelta(labels, delta);
      ApplyDeltasStep(issueLabels, deltas, i);
      labels, changed := next, changed || acted;
      i := i + 1;
    }
    assert deltas[..i] == deltas;
    FirstRefusedIs(glob, config, membership, deltas, i);
    if changed {
      outcome := SetLabels(labels);
    } else {
      outcome := NoChange;
    }
  }

  // ---------------------------------------------------------------------
  // The unit tests of the source, replayed with a `*`-only glob.

  /** Glob matching where `*` matches any run of characters and every other
      character matches itself; every pattern compiles. */
  function StarMatches(pattern: string, name: string): bool
    decreases |pattern| + |name|
  {
    if |pattern| == 0 then |name| == 0
    else if pattern[0] == '*' then
      StarMatches(pattern[1..], name) || (|name| > 0 && StarMatches(pattern, name[1..]))
    else |name| > 0 && pattern[0] == name[0] && StarMatches(pattern[1..], name[1..])
  }

  function StarGlob(): Glob
  {
    Glob(_ => true, (p, l) => StarMatches(p, l))
  }

  predicate StarFree(p: string)
  {
    forall i :: 0 <= i < |p| ==> p[i] != '*'
  }

  /** A pattern without `*` matches exactly itself. */
  lemma {:induction false} StarMatchesLiteral(p: string, name: string)
    requires StarFree(p)
    ensures StarMatches(p, name) <==> name == p
  {
    if |p| > 0 && |name| > 0 {
      assert p[0] != '*';
      StarMatchesLiteral(p[1..], name[1..]);
      assert name == p <==> name[0] == p[0] && name[1..] == p[1..];
    }
  }

  /** A lone `*` matches every name. */
  lemma {:induction false} StarMatchesAll(name: string)
    ensures StarMatches("*", name)
  {
    if |name| > 0 {
      StarMatchesAll(name[1..]);
    }
  }

  /** `lit*` matches exactly the names that start with `lit`. */
  lemma {:induction false} StarMatchesPrefix(lit: string, name: string)
    requires StarFree(lit)
    ensures StarMatches(lit + "*", name) <==> |lit| <= |name| && name[..|lit|] == lit
  {
    if |lit| == 0 {
      assert lit + "*" == "*";
      StarMatchesAll(name);
    } else {
      assert (lit + "*")[0] == lit[0] != '*';
      assert (lit + "*")[1..] == lit[1..] + "*";
      if |name| > 0 {
        StarMatchesPrefix(lit[1..], name[1..]);
        assert |lit| <= |name| && name[..|lit|] == lit
               <==> name[0] == lit[0] && |lit[1..]| <= |name[1..]| && name[1..][..|lit[1..]|] == lit[1..];
      }
    }
  }

  /** The verdict of `lit*` and `!lit*` under the `*`-only glob. */
  lemma {:induction false} StarVerdict(lit: string, name: string)
    requires StarFree(lit) && !IsInverted(lit)
    ensures var hit := |lit| <= |name| && name[..|lit|] == lit;
            && MatchPattern(StarGlob(), lit + "*", name)
               == Ok(if hit then MatchPatternResult.Allow else MatchPatternResult.NoMatch)
            && MatchPattern(StarGlob(), "!" + lit + "*", name)
               == Ok(if hit then MatchPatternResult.Deny else MatchPatternResult.NoMatch)
  {
    StarMatchesPrefix(lit, name);
    assert !IsInverted(lit + "*") by {
      if |lit| == 0 { assert (lit + "*")[0] == '*'; } else { assert (lit + "*")[0] == lit[0]; }
    }
    assert ("!" + lit + "*")[1..] == lit + "*";
  }

  lemma {:induction false} MatchPatternExamples()
    ensures MatchPattern(StarGlob(), "I-*", "I-nominated") == Ok(MatchPatternResult.Allow)
    ensures MatchPattern(StarGlob(), "I-*", "T-infra") == Ok(MatchPatternResult.NoMatch)
  {
    assert "I-*" == "I-" + "*";
    StarVerdict("I-", "I-nominated");
    StarVerdict("I-", "T-infra");
  }

  lemma {:induction false} MatchPatternInvertedExamples()
    ensures MatchPattern(StarGlob(), "!I-no*", "I-nominated") == Ok(MatchPatternResult.Deny)
    ensures MatchPattern(StarGlob(), "!I-no*", "T-infra") == Ok(MatchPatternResult.NoMatch)
  {
    assert "!I-no*" == "!" + "I-no" + "*";
    StarVerdict("I-no", "I-nominated");
    StarVerdict("I-no", "T-infra");
  }

  /** The configuration of the `check_filter` test table. */
  const TEST_CONFIG: RelabelConfig := RelabelConfig(["T-*", "I-*", "!I-nominated"])

  /** The verdicts of the three test patterns on any label. */
  lemma {:induction false} TestVerdicts(name: string)
    ensures MatchPattern(StarGlob(), "T-*", name)
            == Ok(if |name| >= 2 && name[..2] == "T-" then MatchPatternResult.Allow else MatchPatternResult.NoMatch)
    ensures MatchPattern(StarGlob(), "I-*", name)
            == Ok(if |name| >= 2 && name[..2] == "I-" then MatchPatternResult.Allow else MatchPatternResult.NoMatch)
    ensures MatchPattern(StarGlob(), "!I-nominated", name)
            == Ok(if name == "I-nominated" then MatchPatternResult.Deny else MatchPatternResult.NoMatch)
  {
    assert "T-*" == "T-" + "*" && "I-*" == "I-" + "*";
    assert "!I-nominated"[1..] == "I-nominated";
    StarMatchesPrefix("T-", name);
    StarMatchesPrefix("I-", name);
    StarMatchesLiteral("I-nominated", name);
  }

  /** The scan of three patterns of which the first two do not stop it:
      the third's deny wins, and otherwise any allow admits. */
  lemma {:induction false} ScanOfThree(glob: Glob, a: string, b: string, c: string, name: string)
    requires MatchPattern(glob, a, name).Ok? && !MatchPattern(glob, a, name).value.Deny?
    requires MatchPattern(glob, b, name).Ok? && !MatchPattern(glob, b, name).value.Deny?
    requires MatchPattern(glob, c, name).Ok?
    ensures Scan(glob, [a, b, c], name, false)
            == Ok(!MatchPattern(glob, c, name).value.Deny?
                  && (Allows(glob, a, name) || Allows(glob, b, name) || Allows(glob, c, name)))
  {
    var m := Allows(glob, a, name);
    assert [a, b, c][1..] == [b, c];
    assert Scan(glob, [a, b, c], name, false) == Scan(glob, [b, c], name, m);
    assert [b, c][1..] == [c];
    var m' := m || Allows(glob, b, name);
    assert Scan(glob, [b, c], name, m) == Scan(glob, [c], name, m');
    assert [c][1..] == [];
    assert Scan(glob, [c], name, m')
           == if MatchPattern(glob, c, name).value.Deny? then Ok(false)
              else Scan(glob, [], name, m' || Allows(glob, c, name));
  }

  lemma {:induction false} CheckFilterTReleaseExample()
    ensures CheckFilter(StarGlob(), "T-release", TEST_CONFIG, Outsider) == Ok(CheckFilterResult.Allow)
    ensures CheckFilter(StarGlob(), "T-release", TEST_CONFIG, Unknown) == Ok(CheckFilterResult.Allow)
  {
    TestVerdicts("T-release");
    ScanOfThree(StarGlob(), "T-*", "I-*", "!I-nominated", "T-release");
  }

  lemma {:induction false} CheckFilterISlowExample()
    ensures CheckFilter(StarGlob(), "I-slow", TEST_CONFIG, Outsider) == Ok(CheckFilterResult.Allow)
    ensures CheckFilter(StarGlob(), "I-slow", TEST_CONFIG, Unknown) == Ok(CheckFilterResult.Allow)
  {
    TestVerdicts("I-slow");
    ScanOfThree(StarGlob(), "T-*", "I-*", "!I-nominated", "I-slow");
  }

  lemma {:induction false} CheckFilterINominatedExample()
    ensures CheckFilter(StarGlob(), "I-nominated", TEST_CONFIG, Outsider) == Ok(CheckFilterResult.Deny)
    ensures CheckFilter(StarGlob(), "I-nominated", TEST_CONFIG, Unknown) == Ok(CheckFilterResult.DenyUnknown)
  {
    TestVerdicts("I-nominated");
    ScanOfThree(StarGlob(), "T-*", "I-*", "!I-nominated", "I-nominated");
  }

  lemma {:induction false} CheckFilterASpuriousExample()
    ensures CheckFilter(StarGlob(), "A-spurious", TEST_CONFIG, Outsider) == Ok(CheckFilterResult.Deny)
    ensures CheckFilter(StarGlob(), "A-spurious", TEST_CONFIG, Unknown) == Ok(CheckFilterResult.DenyUnknown)
  {
    TestVerdicts("A-spurious");
    ScanOfThree(StarGlob(), "T-*", "I-*", "!I-nominated", "A-spurious");
  }
}
