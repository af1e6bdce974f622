/** A dual-secret rotation over time (scripts/ops/rotate-jwt.ts with the verifier of
    apps/backend/src/shared/session-secret.ts): session tokens are signed with the deployed current secret
    and accepted under either deployed secret, while an operator stages, deploys, waits and finalizes.

    A token may be used strictly before its expiry (section 4.1.4 of RFC 7519).  The clock counts whole
    seconds; a lifetime need not be a whole number of them.  Every deploy replaces the secrets of all
    signers and verifiers at once. */
module TokenDrain {
  import opened JsText
  import opened SecretFiles
  import Rotation = JwtRotation

  /** A pair of secrets, in the files or as deployed.  No previous secret is the empty text. */
  datatype Pair = Pair(current: string, previous: string) {
    /** `getSessionVerificationSecrets`: what a verifier with this pair accepts. */
    function Accepted(): set<string> {
      if previous != "" && previous != current then {current, previous} else {current}
    }
  }

  /** A verifier accepts what is signed with the current secret or with a previous one, and nothing else; the
      empty text, which stands for no previous secret, is none. */
  lemma {:induction false} AcceptedIff(pair: Pair, secret: string)
    ensures secret in pair.Accepted() <==> secret == pair.current || (secret == pair.previous && secret != "")
  {}

  datatype Token = Token(secret: string, expires: real)

  /** A stage process: what it has read, and how far it got. */
  datatype Phase =
    | Idle
    | Checked(oldSecret: string, newSecret: string)
    | PreviousWritten(oldSecret: string, newSecret: string)

  /** `settledAt` is the time of the first deploy of the files as they are; `None` when the files have
      changed since. */
  datatype State = State(now: nat, files: Pair, deployed: Pair, tokens: set<Token>, phase: Phase,
                         settledAt: Option<nat>)

  /** Lifetime of tokens, how long the operator waits after a staged deploy before finalizing, and the other
      secrets that a new one must differ from. */
  datatype Rules = Rules(ttl: real, wait: int, taken: set<string>) {
    /** Does the wait cover the lifetime?  Tokens without a positive lifetime are never good. */
    predicate Covers() {
      ttl <= 0.0 || ttl <= wait as real
    }
  }

  /** A crash leaves the files as they were between two writes; a tear happens inside a write, and leaves any
      text in the file that was being written. */
  datatype Event =
    | Tick
    | Issue
    | BeginStage(newSecret: string)
    | WritePrevious
    | WriteCurrent
    | Crash
    | Tear(text: string)
    | Deploy
    | Finalize

  /** The checks of `stage` without `--force`. */
  predicate MayStage(rules: Rules, files: Pair, newSecret: string) {
    newSecret != "" && 32 <= Rotation.Utf16Length(newSecret) && newSecret !in rules.taken
    && files.current != "" && newSecret != files.current
    && (files.previous == "" || files.previous == files.current)
  }

  /** The operator's rule: the previous secret is only removed once the pair has been deployed for the
      whole wait.  A previous secret that equals the current one may go at any time. */
  predicate MayFinalize(rules: Rules, s: State) {
    s.files.previous == "" || s.files.previous == s.files.current
    || (s.settledAt.Some? && s.settledAt.value + rules.wait <= s.now)
  }

  predicate Enabled(rules: Rules, s: State, e: Event) {
    match e
    case Tick => true
    case Issue => true
    case BeginStage(newSecret) => s.phase.Idle? && MayStage(rules, s.files, newSecret)
    case WritePrevious => s.phase.Checked?
    case WriteCurrent => s.phase.PreviousWritten?
    case Crash => !s.phase.Idle?
    case Tear(_) => !s.phase.Idle?
    case Deploy => s.files.current != ""
    case Finalize => s.phase.Idle? && MayFinalize(rules, s)
  }

  function Apply(rules: Rules, s: State, e: Event): State
    requires Enabled(rules, s, e)
  {
    match e
    case Tick => s.(now := s.now + 1)
    case Issue => s.(tokens := s.tokens + {Token(s.deployed.current, s.now as real + rules.ttl)})
    case BeginStage(newSecret) => s.(phase := Checked(s.files.current, newSecret))
    case WritePrevious =>
      s.(files := s.files.(previous := s.phase.oldSecret),
         phase := PreviousWritten(s.phase.oldSecret, s.phase.newSecret), settledAt := None)
    case WriteCurrent => s.(files := s.files.(current := s.phase.newSecret), phase := Idle, settledAt := None)
    case Crash => s.(phase := Idle)
    case Tear(text) =>
      s.(files := if s.phase.Checked? then s.files.(previous := text) else s.files.(current := text),
         phase := Idle, settledAt := None)
    case Deploy => s.(deployed := s.files, settledAt := if s.settledAt.None? then Some(s.now) else s.settledAt)
    case Finalize =>
      if s.files.previous == "" then s else s.(files := s.files.(previous := ""), settledAt := None)
  }

  ghost predicate CanRun(rules: Rules, s: State, events: seq<Event>)
    decreases |events|
  {
    events == [] || (Enabled(rules, s, events[0]) && CanRun(rules, Apply(rules, s, events[0]), events[1..]))
  }

  ghost function Run(rules: Rules, s: State, events: seq<Event>): State
    requires CanRun(rules, s, events)
    decreases |events|
  {
    if events == [] then s else Run(rules, Apply(rules, s, events[0]), events[1..])
  }

  lemma {:induction false} StartAcceptsOne(secret: string)
    ensures Start(secret).deployed.Accepted() == Start(secret).files.Accepted() == {secret}
  {}

  /** A deployed system with one secret and no tokens yet. */
  function Start(secret: string): State {
    State(0, Pair(secret, ""), Pair(secret, ""), {}, Idle, None)
  }

  predicate Live(s: State, t: Token) {
    s.now as real < t.expires
  }

  /** Every token that is still good is accepted by the deployed verifiers. */
  ghost predicate NoLiveTokenRejected(s: State) {
    forall t :: t in s.tokens && Live(s, t) ==> t.secret in s.deployed.Accepted()
  }

  // ---- the invariant ----

  /** Live tokens and the deployed signer use one of the two secrets in the files, and once a pair has
      been deployed the signer uses the current one and what it signed before runs out. */
  ghost predicate Inv(rules: Rules, s: State) {
    && s.deployed.current != ""
    && NoLiveTokenRejected(s)
    && (forall t :: t in s.tokens ==> t.expires <= s.now as real + rules.ttl)
    && (forall t :: t in s.tokens && Live(s, t) ==> t.secret in s.files.Accepted())
    && s.deployed.current in s.files.Accepted()
    && (s.settledAt.Some? ==>
          && s.settledAt.value <= s.now
          && s.deployed.current == s.files.current
          && forall t :: t in s.tokens ==>
               t.secret == s.files.current || t.expires <= s.settledAt.value as real + rules.ttl)
    && match s.phase
       case Idle => true
       case Checked(oldSecret, newSecret) => oldSecret == s.files.current && MayStage(rules, s.files, newSecret)
       case PreviousWritten(oldSecret, newSecret) =>
         oldSecret == s.files.current == s.files.previous && MayStage(rules, s.files, newSecret)
  }

  lemma {:induction false} StepKeepsInv(rules: Rules, s: State, e: Event)
    requires rules.Covers()
    requires Inv(rules, s) && Enabled(rules, s, e)
    ensures Inv(rules, Apply(rules, s, e))
  {
    var s' := Apply(rules, s, e);
    forall t | t in s'.tokens && Live(s', t)
      ensures t.secret in s'.files.Accepted() && t.secret in s'.deployed.Accepted()
    {
      if t in s.tokens {
        assert Live(s, t);
      }
    }
  }

  lemma {:induction false} RunKeepsInv(rules: Rules, s: State, events: seq<Event>)
    requires rules.Covers()
    requires Inv(rules, s) && CanRun(rules, s, events)
    ensures Inv(rules, Run(rules, s, events))
    decreases |events|
  {
    if events != [] {
      StepKeepsInv(rules, s, events[0]);
      RunKeepsInv(rules, Apply(rules, s, events[0]), events[1..]);
    }
  }

  // ---- the rotation is safe exactly when the wait covers the lifetime ----

  /** Some run rejects a token that has not expired. */
  ghost predicate SomeRunRejects(rules: Rules, secret: string) {
    exists events: seq<Event> ::
      CanRun(rules, Start(secret), events) && !NoLiveTokenRejected(Run(rules, Start(secret), events))
  }

  /** Over any number of rotations, with crashes, torn writes and deploys at any time: no unexpired session
      token is ever rejected when the operator waits for at least one lifetime. */
  lemma {:induction false} RotationIsSafe(rules: Rules, secret: string, events: seq<Event>)
    requires secret != "" && rules.Covers()
    requires CanRun(rules, Start(secret), events)
    ensures NoLiveTokenRejected(Run(rules, Start(secret), events))
  {
    RunKeepsInv(rules, Start(secret), events);
  }

  function Ticks(n: nat): seq<Event> {
    seq(n, _ => Tick)
  }

  /** A token issued just before the rotated secret is deployed, and a removal after the given wait. */
  function HastyRun(rules: Rules, newSecret: string): seq<Event> {
    [Issue, BeginStage(newSecret), WritePrevious, WriteCurrent, Deploy] + Ticks(Seconds(rules)) + [Finalize, Deploy]
  }

  function Seconds(rules: Rules): nat {
    if rules.wait < 0 then 0 else rules.wait
  }

  lemma {:induction false} TicksRun(rules: Rules, s: State, n: nat, rest: seq<Event>)
    ensures CanRun(rules, s, Ticks(n) + rest) <==> CanRun(rules, s.(now := s.now + n), rest)
    ensures CanRun(rules, s, Ticks(n) + rest) ==>
              Run(rules, s, Ticks(n) + rest) == Run(rules, s.(now := s.now + n), rest)
    decreases n
  {
    if n == 0 {
      assert Ticks(0) + rest == rest;
    } else {
      assert (Ticks(n) + rest)[1..] == Ticks(n - 1) + rest;
      TicksRun(rules, s.(now := s.now + 1), n - 1, rest);
    }
  }

  lemma {:induction false} StepRun(rules: Rules, s: State, e: Event, rest: seq<Event>)
    requires Enabled(rules, s, e)
    ensures CanRun(rules, s, [e] + rest) <==> CanRun(rules, Apply(rules, s, e), rest)
    ensures CanRun(rules, s, [e] + rest) ==> Run(rules, s, [e] + rest) == Run(rules, Apply(rules, s, e), rest)
  {
    assert ([e] + rest)[1..] == rest;
  }

  lemma {:induction false} HastyRunRejects(rules: Rules, secret: string, newSecret: string)
    requires secret != "" && MayStage(rules, Pair(secret, ""), newSecret)
    requires !rules.Covers()
    ensures CanRun(rules, Start(secret), HastyRun(rules, newSecret))
    ensures !NoLiveTokenRejected(Run(rules, Start(secret), HastyRun(rules, newSecret)))
  {
    hide CanRun, Run, Rotation.Utf16Length;
    var s1 := Start(secret).(tokens := {Token(secret, rules.ttl)});
    var s4 := s1.(files := Pair(newSecret, secret));
    var s5 := s4.(deployed := Pair(newSecret, secret), settledAt := Some(0));
    var waiting := Ticks(Seconds(rules)) + [Finalize, Deploy];
    HastyStage(rules, secret, newSecret, s1, [Deploy] + waiting);
    StepRun(rules, s4, Deploy, waiting);
    TicksRun(rules, s5, Seconds(rules), [Finalize, Deploy]);
    HastyEnd(rules, secret, newSecret, s5.(now := Seconds(rules)));
    assert HastyRun(rules, newSecret)
        == [Issue] + ([BeginStage(newSecret)] + ([WritePrevious] + ([WriteCurrent] + ([Deploy] + waiting))));
    StepRun(rules, Start(secret), Issue,
            [BeginStage(newSecret)] + ([WritePrevious] + ([WriteCurrent] + ([Deploy] + waiting))));
    assert Start(secret).tokens + {Token(secret, rules.ttl)} == {Token(secret, rules.ttl)};
  }

  lemma {:induction false} HastyStage(rules: Rules, secret: string, newSecret: string, s: State, rest: seq<Event>)
    requires s.files == Pair(secret, "") && s.phase.Idle? && s.settledAt.None?
    requires MayStage(rules, s.files, newSecret)
    ensures var events := [BeginStage(newSecret)] + ([WritePrevious] + ([WriteCurrent] + rest));
            var staged := s.(files := Pair(newSecret, secret));
            (CanRun(rules, s, events) <==> CanRun(rules, staged, rest))
            && (CanRun(rules, s, events) ==> Run(rules, s, events) == Run(rules, staged, rest))
  {
    hide CanRun, Run, Rotation.Utf16Length;
    var s2 := s.(phase := Checked(secret, newSecret));
    var s3 := s.(files := Pair(secret, secret), phase := PreviousWritten(secret, newSecret));
    StepRun(rules, s, BeginStage(newSecret), [WritePrevious] + ([WriteCurrent] + rest));
    StepRun(rules, s2, WritePrevious, [WriteCurrent] + rest);
    StepRun(rules, s3, WriteCurrent, rest);
  }

  lemma {:induction false} HastyEnd(rules: Rules, secret: string, newSecret: string, s: State)
    requires s.files == Pair(newSecret, secret) && s.phase.Idle? && newSecret != secret
    requires secret != "" && newSecret != "" && MayFinalize(rules, s)
    requires exists t :: t in s.tokens && t.secret == secret && Live(s, t)
    ensures CanRun(rules, s, [Finalize, Deploy])
    ensures !NoLiveTokenRejected(Run(rules, s, [Finalize, Deploy]))
  {
    assert [Finalize] + [Deploy] == [Finalize, Deploy] && [Deploy] + [] == [Deploy];
    var s7 := Apply(rules, s, Finalize);
    StepRun(rules, s, Finalize, [Deploy]);
    StepRun(rules, s7, Deploy, []);
    var t :| t in s.tokens && t.secret == secret && Live(s, t);
    var end := Run(rules, s, [Finalize, Deploy]);
    assert end == Apply(rules, s7, Deploy);
    assert t in end.tokens && Live(end, t) && t.secret !in end.deployed.Accepted();
  }

  /** A wait of one lifetime is exactly what is needed, whatever other secrets there are: a shorter one
      rejects live tokens in some run, one lifetime or more never does. */
  lemma {:induction false} WaitIsExact(rules: Rules, secret: string)
    requires secret != ""
    ensures SomeRunRejects(rules, secret) <==> !rules.Covers()
  {
    if rules.Covers() {
      forall events: seq<Event> | CanRun(rules, Start(secret), events)
        ensures NoLiveTokenRejected(Run(rules, Start(secret), events))
      {
        RotationIsSafe(rules, secret, events);
      }
    } else {
      var newSecret := UnusedSecret(rules.taken + {secret});
      HastyRunRejects(rules, secret, newSecret);
    }
  }

  /** There is always a secret that the tool admits. */
  lemma {:induction false} UnusedSecret(used: set<string>) returns (secret: string)
    ensures secret !in used && 32 <= Rotation.Utf16Length(secret)
  {
    var n := LongerThanAll(used);
    secret := seq(n, _ => 'x');
    LengthOfPlain(secret);
  }

  lemma {:induction false} LongerThanAll(used: set<string>) returns (n: nat)
    ensures 32 <= n && forall s :: s in used ==> |s| < n
    decreases used
  {
    n := 32;
    if used != {} {
      var s :| s in used;
      var m := LongerThanAll(used - {s});
      assert forall t :: t in used ==> t == s || t in used - {s};
      n := if |s| < m then m else |s| + 1;
    }
  }

  lemma {:induction false} LengthOfPlain(s: string)
    requires forall i :: 0 <= i < |s| ==> s[i] == 'x'
    ensures Rotation.Utf16Length(s) == |s|
  {
    if s != "" {
      LengthOfPlain(s[1..]);
    }
  }

  // ---- the steps are what the tool does to the files ----

  function PairOf(state: Rotation.TargetState): Pair {
    Pair(state.current.value, state.previous.value)
  }

  /** The secrets of others that the tool compares a new one with. */
  function OtherSecrets(env: Env, target: Rotation.Target): set<string> {
    set i | 2 <= i < |Rotation.ComparedNames(target)| && EnvValue(env, Rotation.ComparedNames(target)[i]) != ""
      :: EnvValue(env, Rotation.ComparedNames(target)[i])
  }

  /** A stage that the tool carries out on files that are kept apart goes through exactly the two write
      steps, and its checks admit the stage; a write that is torn is the tear step. */
  lemma {:induction false} StageTakesTheSteps(rules: Rules, s: State, files: Files, places: Rotation.Places,
                                              env: Env, target: Rotation.Target, newSecret: string, torn: string)
    requires Rotation.KeptApart(files, places) && IsTrimmed(newSecret)
    requires s.files == PairOf(Rotation.ReadTarget(files, places)) && s.phase.Idle?
    requires Rotation.ValidNewSecret(env, target, newSecret, s.files.current)
    requires Rotation.GuardAdmits(Rotation.ReadTarget(files, places), false)
    requires rules.taken == OtherSecrets(env, target)
    ensures var state := Rotation.ReadTarget(files, places);
            var between := Rotation.PreviousWritten(files, state);
            FilesAfter(rules, s, [BeginStage(newSecret), WritePrevious])
              == Some(PairOf(Rotation.ReadTarget(between, places)))
            && FilesAfter(rules, s, [BeginStage(newSecret), WritePrevious, WriteCurrent])
               == Some(PairOf(Rotation.ReadTarget(Rotation.Staged(files, state, newSecret), places)))
            && FilesAfter(rules, s, [BeginStage(newSecret), Tear(Trim(torn))])
               == Some(PairOf(Rotation.ReadTarget(files[state.previous.filePath := torn], places)))
            && FilesAfter(rules, s, [BeginStage(newSecret), WritePrevious, Tear(Trim(torn))])
               == Some(PairOf(Rotation.ReadTarget(between[state.current.filePath := torn], places)))
  {
    hide ReadSecret, Rotation.Utf16Length, Rotation.KeptApart, FilesAfter, Trim,
         Rotation.Staged, Rotation.PreviousWritten;
    Rotation.AfterFirstWrite(files, places);
    Rotation.AfterStage(files, places, newSecret);
    Rotation.AfterTornWrite(files, places, torn);
    assert MayStage(rules, s.files, newSecret) by {
      NotTaken(env, target, newSecret);
    }
    hide Rotation.ClashFree;
    StageRun(rules, s, newSecret, Trim(torn));
  }

  /** Apart from the target's own two variables, these are what the tool refuses. */
  lemma {:induction false} NotTaken(env: Env, target: Rotation.Target, newSecret: string)
    requires newSecret != ""
    ensures Rotation.ClashFree(env, target, newSecret)
            <==> newSecret !in OtherSecrets(env, target)
                 && newSecret != EnvValue(env, Rotation.ComparedNames(target)[0])
                 && newSecret != EnvValue(env, Rotation.ComparedNames(target)[1])
  {
    hide EnvValue;
    var names := Rotation.ComparedNames(target);
    assert newSecret in OtherSecrets(env, target)
           <==> exists i :: 2 <= i < |names| && EnvValue(env, names[i]) == newSecret;
    assert forall i :: 0 <= i < |names| ==> (Rotation.Clashes(env, names[i], newSecret)
                                             <==> EnvValue(env, names[i]) == newSecret);
  }

  /** The files after a run, if the run is possible. */
  ghost function FilesAfter(rules: Rules, s: State, events: seq<Event>): Option<Pair> {
    if CanRun(rules, s, events) then Some(Run(rules, s, events).files) else None
  }

  lemma {:induction false} FilesAfterStep(rules: Rules, s: State, e: Event, rest: seq<Event>)
    requires Enabled(rules, s, e)
    ensures FilesAfter(rules, s, [e] + rest) == FilesAfter(rules, Apply(rules, s, e), rest)
  {
    hide CanRun, Run;
    StepRun(rules, s, e, rest);
  }

  lemma {:induction false} FilesAfterOne(rules: Rules, s: State, e: Event)
    requires Enabled(rules, s, e)
    ensures FilesAfter(rules, s, [e]) == Some(Apply(rules, s, e).files)
  {
    EmptyRun(rules, Apply(rules, s, e));
    StepRun(rules, s, e, []);
    assert [e] + [] == [e];
  }

  lemma {:induction false} EmptyRun(rules: Rules, s: State)
    ensures CanRun(rules, s, []) && Run(rules, s, []) == s
  {}

  lemma {:induction false} StageRun(rules: Rules, s: State, newSecret: string, text: string)
    requires s.phase.Idle? && MayStage(rules, s.files, newSecret)
    ensures FilesAfter(rules, s, [BeginStage(newSecret), WritePrevious]) == Some(Pair(s.files.current, s.files.current))
    ensures FilesAfter(rules, s, [BeginStage(newSecret), WritePrevious, WriteCurrent])
         == Some(Pair(newSecret, s.files.current))
    ensures FilesAfter(rules, s, [BeginStage(newSecret), Tear(text)]) == Some(Pair(s.files.current, text))
    ensures FilesAfter(rules, s, [BeginStage(newSecret), WritePrevious, Tear(text)])
         == Some(Pair(text, s.files.current))
  {
    hide FilesAfter, Rotation.Utf16Length;
    var e0 := BeginStage(newSecret);
    var s1 := Apply(rules, s, e0);
    var s2 := Apply(rules, s1, WritePrevious);
    FilesAfterOne(rules, s1, WritePrevious);
    FilesAfterOne(rules, s1, Tear(text));
    FilesAfterOne(rules, s2, WriteCurrent);
    FilesAfterOne(rules, s2, Tear(text));
    FilesAfterStep(rules, s1, WritePrevious, [WriteCurrent]);
    FilesAfterStep(rules, s1, WritePrevious, [Tear(text)]);
    assert [WritePrevious] + [WriteCurrent] == [WritePrevious, WriteCurrent];
    assert [WritePrevious] + [Tear(text)] == [WritePrevious, Tear(text)];
    FilesAfterStep(rules, s, e0, [WritePrevious]);
    FilesAfterStep(rules, s, e0, [Tear(text)]);
    FilesAfterStep(rules, s, e0, [WritePrevious, WriteCurrent]);
    FilesAfterStep(rules, s, e0, [WritePrevious, Tear(text)]);
    assert [e0] + [WritePrevious] == [e0, WritePrevious] && [e0] + [Tear(text)] == [e0, Tear(text)];
    assert [e0] + [WritePrevious, WriteCurrent] == [e0, WritePrevious, WriteCurrent];
    assert [e0] + [WritePrevious, Tear(text)] == [e0, WritePrevious, Tear(text)];
  }

  /** A finalize that the tool carries out is the finalize step, as every process sees it that starts
      `later`: provided no other file comes to light behind the removed one, the variable is not set to the
      previous secret by other means, and the file does not shadow the current secret. */
  lemma {:induction false} FinalizeTakesTheStep(rules: Rules, s: State, files: Files,
                                                places: Rotation.Places, later: Rotation.Places)
    requires s.files == PairOf(Rotation.ReadTarget(files, places)) && s.phase.Idle?
    requires MayFinalize(rules, s)
    requires Rotation.SamePlaces(places, later)
    requires var path := Rotation.ReadTarget(files, places).previous.filePath;
             path in files && path != ""
             && !Shadows(files - {path}, places.current, path)
             && (path == places.previous.configured ==> Behind(places.previous) !in files - {path})
    requires later.previous.shown == ""
    requires var c := Rotation.ReadTarget(files, places).current.filePath;
             (c in files && c != "") || later.current.shown == places.current.shown
    ensures var path := Rotation.ReadTarget(files, places).previous.filePath;
            Apply(rules, s, Finalize).files == PairOf(Rotation.ReadTarget(files - {path}, later))
  {
    hide Trim, Shadows, SecretPath, ReadSecret;
    var path := Rotation.ReadTarget(files, places).previous.filePath;
    var after := files - {path};
    Rotation.ReadPaths(files, places);
    Rotation.ReadPaths(after, places);
    ReadAfterOtherRemoval(files, places.current, path);
    CurrentKeepsFile(files, places.current, path);
    Rotation.ReadSamePlace(after, places.current, later.current);
    Rotation.ReadSamePlace(files, places.previous, later.previous);
    ReadAfterRemoval(files, later.previous);
  }

  lemma {:induction false} CurrentKeepsFile(files: Files, place: Place, path: string)
    requires !Shadows(files - {path}, place, path)
    ensures SecretPath(files - {path}, place) == SecretPath(files, place)
    ensures SecretPath(files, place) in files ==> SecretPath(files, place) in files - {path}
  {
    hide Trim;
    if path in files {
      var after := files - {path};
      assert files == after[path := files[path]];
      PathIgnoresText(after, place, path, files[path]);
      PathAfterWrite(after, place, path, files[path]);
    } else {
      assert files - {path} == files;
    }
  }
}
