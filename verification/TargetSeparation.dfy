/** The two targets of scripts/ops/rotate-jwt.ts together, and the start-up check of
    apps/backend/src/shared/session-secret.ts: which secrets can ever coincide. */
module TargetSeparation {
  import opened JsText
  import opened SecretFiles
  import opened JwtRotation

  /** No secret is the empty text. */
  datatype Pair = Pair(current: string, previous: string)

  /** The secrets that are not rotated here. */
  datatype Others = Others(auth: string, nextAuth: string, adminMfa: string, breakGlass: string,
                           userMfa: string, handHistory: string, reportExport: string)

  /** The one operations process that runs at a time. */
  datatype Phase =
    | Idle
    | Checked(target: Target, oldSecret: string, newSecret: string)
    | HalfWritten(target: Target, oldSecret: string, newSecret: string)

  /** `torn` says which targets have a stage's first write in their files and not its second. */
  datatype State = State(admin: Pair, user: Pair, others: Others, phase: Phase, torn: set<Target>) {
    function Of(target: Target): Pair {
      match target
      case Admin => admin
      case User => user
    }

    function With(target: Target, pair: Pair): State {
      match target
      case Admin => this.(admin := pair)
      case User => this.(user := pair)
    }
  }

  /** A crash falls between two writes, a tear inside one; it leaves any text in the file being written. */
  datatype Event =
    | BeginStage(target: Target, newSecret: string, force: bool)
    | WritePrevious
    | WriteCurrent
    | Crash
    | Tear(text: string)
    | Finalize(target: Target)

  /** Two secrets that are set and equal. */
  predicate Same(a: string, b: string) {
    a != "" && a == b
  }

  predicate SharesWith(pair: Pair, secret: string) {
    Same(pair.current, secret) || Same(pair.previous, secret)
  }

  predicate PairsShare(a: Pair, b: Pair) {
    SharesWith(a, b.current) || SharesWith(a, b.previous)
  }

  /** What the rotation tool compares a new secret with, beside the four rotated ones. */
  predicate SharesCompared(pair: Pair, o: Others) {
    SharesWith(pair, o.auth) || SharesWith(pair, o.adminMfa) || SharesWith(pair, o.breakGlass)
  }

  /** The new secret is long enough and differs from everything that the tool looks at. */
  predicate Fresh(s: State, target: Target, newSecret: string) {
    32 <= Utf16Length(newSecret) && s.Of(target).current != ""
    && !PairsShare(Pair(newSecret, ""), s.admin) && !PairsShare(Pair(newSecret, ""), s.user)
    && !SharesCompared(Pair(newSecret, ""), s.others)
  }

  /** The process environment shows the secrets as the files hold them. */
  ghost predicate Mirrors(env: Env, s: State) {
    && EnvValue(env, "ADMIN_JWT_SECRET") == s.admin.current
    && EnvValue(env, "ADMIN_JWT_SECRET_PREVIOUS") == s.admin.previous
    && EnvValue(env, "USER_JWT_SECRET") == s.user.current
    && EnvValue(env, "USER_JWT_SECRET_PREVIOUS") == s.user.previous
    && EnvValue(env, "AUTH_SECRET") == s.others.auth
    && EnvValue(env, "ADMIN_MFA_ENCRYPTION_SECRET") == s.others.adminMfa
    && EnvValue(env, "ADMIN_MFA_BREAK_GLASS_SECRET") == s.others.breakGlass
  }

  lemma {:induction false} ClashFreeSeven(env: Env, target: Target, newSecret: string)
    ensures var names := ComparedNames(target);
            |names| == 7
            && (ClashFree(env, target, newSecret) <==>
                  !Clashes(env, names[0], newSecret) && !Clashes(env, names[1], newSecret)
                  && !Clashes(env, names[2], newSecret) && !Clashes(env, names[3], newSecret)
                  && !Clashes(env, names[4], newSecret) && !Clashes(env, names[5], newSecret)
                  && !Clashes(env, names[6], newSecret))
  {
    hide Clashes;
    var names := ComparedNames(target);
    assert |names| == 7;
  }

  lemma {:induction false} ClashFreeMeans(env: Env, s: State, target: Target, newSecret: string)
    requires Mirrors(env, s)
    ensures ClashFree(env, target, newSecret) <==>
              !PairsShare(Pair(newSecret, ""), s.admin) && !PairsShare(Pair(newSecret, ""), s.user)
              && !SharesCompared(Pair(newSecret, ""), s.others)
  {
    hide EnvValue, ClashFree;
    ClashFreeSeven(env, target, newSecret);
  }

  /** In an environment that shows the files, the checks of `validateNewSecret` let pass exactly the new
      secrets that are fresh. */
  lemma {:induction false} ValidExactlyFresh(env: Env, s: State, target: Target, newSecret: string)
    requires Mirrors(env, s)
    ensures ValidNewSecret(env, target, newSecret, s.Of(target).current) <==> Fresh(s, target, newSecret)
  {
    hide EnvValue, ClashFree, Mirrors;
    ClashFreeMeans(env, s, target, newSecret);
    if newSecret == "" { assert Utf16Length(newSecret) == 0; }
  }

  predicate Enabled(s: State, e: Event) {
    match e
    case BeginStage(target, newSecret, force) =>
      s.phase.Idle? && Fresh(s, target, newSecret)
      && (s.Of(target).previous == "" || s.Of(target).previous == s.Of(target).current || force)
    case WritePrevious => s.phase.Checked?
    case WriteCurrent => s.phase.HalfWritten?
    case Crash => !s.phase.Idle?
    case Tear(_) => !s.phase.Idle?
    case Finalize(_) => s.phase.Idle?
  }

  function Apply(s: State, e: Event): State
    requires Enabled(s, e)
  {
    match e
    case BeginStage(target, newSecret, _) =>
      s.(phase := Checked(target, s.Of(target).current, newSecret))
    case WritePrevious =>
      var Checked(target, oldSecret, newSecret) := s.phase;
      s.With(target, s.Of(target).(previous := oldSecret))
       .(phase := HalfWritten(target, oldSecret, newSecret), torn := s.torn + {target})
    case WriteCurrent =>
      var HalfWritten(target, _, newSecret) := s.phase;
      s.With(target, s.Of(target).(current := newSecret)).(phase := Idle, torn := s.torn - {target})
    case Crash => s.(phase := Idle)
    case Tear(text) =>
      var target := s.phase.target;
      var pair := if s.phase.Checked? then s.Of(target).(previous := text) else s.Of(target).(current := text);
      s.With(target, pair)
       .(phase := Idle,
         torn := if Same(pair.current, pair.previous) then s.torn + {target} else s.torn - {target})
    case Finalize(target) =>
      if s.Of(target).previous == "" then s
      else s.With(target, s.Of(target).(previous := "")).(torn := s.torn - {target})
  }

  ghost predicate CanRun(s: State, events: seq<Event>)
    decreases |events|
  {
    events == [] || (Enabled(s, events[0]) && CanRun(Apply(s, events[0]), events[1..]))
  }

  ghost function Run(s: State, events: seq<Event>): State
    requires CanRun(s, events)
    decreases |events|
  {
    if events == [] then s else Run(Apply(s, events[0]), events[1..])
  }

  /** What only the start-up check compares: the web secret falls back to `NEXTAUTH_SECRET`. */
  predicate SharesUncompared(pair: Pair, o: Others) {
    SharesWith(pair, o.userMfa) || SharesWith(pair, o.handHistory) || SharesWith(pair, o.reportExport)
    || (o.auth == "" && SharesWith(pair, o.nextAuth))
  }

  /** Neither secret of the pair equals one of the secrets that start-up compares it with. */
  predicate PairAccepted(pair: Pair, o: Others) {
    var web := if o.auth != "" then o.auth else o.nextAuth;
    !SharesWith(pair, web) && !SharesWith(pair, o.adminMfa) && !SharesWith(pair, o.userMfa)
    && !SharesWith(pair, o.breakGlass) && !SharesWith(pair, o.handHistory) && !SharesWith(pair, o.reportExport)
  }

  /** The part of `validateSessionSecrets` that concerns the rotated secrets: each is set where it must be,
      and none equals another one or one of the remaining secrets. */
  predicate StartUpAccepts(s: State) {
    && s.admin.current != "" && s.user.current != ""
    && !Same(s.admin.current, s.admin.previous) && !Same(s.user.current, s.user.previous)
    && !PairsShare(s.admin, s.user)
    && PairAccepted(s.admin, s.others) && PairAccepted(s.user, s.others)
  }

  /** The two pairs have no secret in common, nor one with the secrets that the tool compares. */
  predicate Apart(s: State) {
    !PairsShare(s.admin, s.user) && !SharesCompared(s.admin, s.others) && !SharesCompared(s.user, s.others)
  }

  /** A torn text that is none of the other target's secrets and none of those that the tool compares. */
  predicate TextApart(s: State, text: string)
    requires !s.phase.Idle?
  {
    !PairsShare(Pair(text, ""), s.Of(Other(s.phase.target))) && !SharesCompared(Pair(text, ""), s.others)
  }

  /** Every torn write of the run leaves such a text. */
  ghost predicate TearsApart(s: State, events: seq<Event>)
    requires CanRun(s, events)
    decreases |events|
  {
    events == []
    || ((events[0].Tear? ==> TextApart(s, events[0].text)) && TearsApart(Apply(s, events[0]), events[1..]))
  }

  ghost predicate ApartThroughout(s: State, events: seq<Event>)
    requires CanRun(s, events)
    decreases |events|
  {
    Apart(s) && (events == [] || ApartThroughout(Apply(s, events[0]), events[1..]))
  }

  ghost predicate NoTears(events: seq<Event>) {
    forall i :: 0 <= i < |events| ==> !events[i].Tear?
  }

  ghost predicate Inv(s: State) {
    && Apart(s)
    && (forall target: Target :: Same(s.Of(target).current, s.Of(target).previous) <==> target in s.torn)
    && (s.phase != Idle ==>
          var pair := s.Of(s.phase.target);
          && s.phase.newSecret != "" && s.phase.oldSecret != ""
          && s.phase.oldSecret == pair.current
          && s.phase.newSecret != pair.current && s.phase.newSecret != pair.previous
          && !PairsShare(Pair(s.phase.newSecret, ""), s.Of(Other(s.phase.target)))
          && !SharesCompared(Pair(s.phase.newSecret, ""), s.others)
          && (s.phase.HalfWritten? ==> pair.previous == pair.current))
  }

  lemma {:induction false} BeginKeepsInv(s: State, e: Event)
    requires Inv(s) && Enabled(s, e) && e.BeginStage?
    ensures Inv(Apply(s, e))
  {}

  lemma {:induction false} FirstWriteKeepsInv(s: State)
    requires Inv(s) && Enabled(s, WritePrevious)
    ensures Inv(Apply(s, WritePrevious))
  {
    hide Fresh;
  }

  lemma {:induction false} SecondWriteKeepsInv(s: State)
    requires Inv(s) && Enabled(s, WriteCurrent)
    ensures Inv(Apply(s, WriteCurrent))
  {
    hide Fresh;
  }

  lemma {:induction false} FinalizeKeepsInv(s: State, target: Target)
    requires Inv(s) && Enabled(s, Finalize(target))
    ensures Inv(Apply(s, Finalize(target)))
  {}

  /** A torn write keeps everything apart exactly when its text is apart. */
  lemma {:induction false} TearKeepsApartIff(s: State, text: string)
    requires Inv(s) && Enabled(s, Tear(text))
    ensures Apart(Apply(s, Tear(text))) <==> TextApart(s, text)
  {}

  lemma {:induction false} TearKeepsInv(s: State, text: string)
    requires Inv(s) && Enabled(s, Tear(text)) && TextApart(s, text)
    ensures Inv(Apply(s, Tear(text)))
  {
    hide Apart, TextApart;
    TearKeepsApartIff(s, text);
  }

  lemma {:induction false} StepKeepsInv(s: State, e: Event)
    requires Inv(s) && Enabled(s, e)
    requires e.Tear? ==> TextApart(s, e.text)
    ensures Inv(Apply(s, e))
  {
    hide Utf16Length;
    match e
    case BeginStage(_, _, _) => BeginKeepsInv(s, e);
    case WritePrevious => FirstWriteKeepsInv(s);
    case WriteCurrent => SecondWriteKeepsInv(s);
    case Crash => assert Inv(Apply(s, e));
    case Tear(text) => TearKeepsInv(s, text);
    case Finalize(target) => FinalizeKeepsInv(s, target);
  }

  lemma {:induction false} RunKeepsInv(s: State, events: seq<Event>)
    requires Inv(s) && CanRun(s, events) && TearsApart(s, events)
    ensures Inv(Run(s, events))
    decreases |events|
  {
    if events != [] {
      StepKeepsInv(s, events[0]);
      RunKeepsInv(Apply(s, events[0]), events[1..]);
    }
  }

  lemma {:induction false} ApartThroughoutIff(s: State, events: seq<Event>)
    requires Inv(s) && CanRun(s, events)
    ensures ApartThroughout(s, events) <==> TearsApart(s, events)
    decreases |events|
  {
    hide PairsShare, SharesCompared, TextApart, Fresh;
    if events != [] {
      if events[0].Tear? {
        TearKeepsApartIff(s, events[0].text);
        if TextApart(s, events[0].text) {
          StepKeepsInv(s, events[0]);
          ApartThroughoutIff(Apply(s, events[0]), events[1..]);
        } else {
          assert !ApartThroughout(Apply(s, events[0]), events[1..]);
        }
      } else {
        StepKeepsInv(s, events[0]);
        ApartThroughoutIff(Apply(s, events[0]), events[1..]);
      }
    }
  }

  lemma {:induction false} CurrentsStaySet(s: State, e: Event)
    requires Inv(s) && Enabled(s, e) && !e.Tear?
    requires s.admin.current != "" && s.user.current != ""
    ensures Apply(s, e).admin.current != "" && Apply(s, e).user.current != ""
  {
    hide Apart, PairsShare, SharesCompared, Fresh, Same;
  }

  lemma {:induction false} UntornIsApart(s: State, events: seq<Event>)
    requires CanRun(s, events) && NoTears(events)
    ensures TearsApart(s, events)
    ensures s.admin.current != "" && s.user.current != "" && Inv(s) ==>
              Run(s, events).admin.current != "" && Run(s, events).user.current != ""
    decreases |events|
  {
    if events != [] {
      hide Inv, Apply, Enabled, TextApart;
      if s.admin.current != "" && s.user.current != "" && Inv(s) {
        StepKeepsInv(s, events[0]);
        CurrentsStaySet(s, events[0]);
      }
      UntornIsApart(Apply(s, events[0]), events[1..]);
    }
  }

  lemma {:induction false} RunKeepsOthers(s: State, events: seq<Event>)
    requires CanRun(s, events)
    ensures Run(s, events).others == s.others
    decreases |events|
  {
    if events != [] {
      RunKeepsOthers(Apply(s, events[0]), events[1..]);
    }
  }

  /** A state that start-up accepts and in which no operation is under way. */
  predicate Steady(s: State) {
    s.phase.Idle? && s.torn == {} && StartUpAccepts(s)
  }

  /** From a steady state, over every run of stages (forced or not, interrupted or not) and finalizes on
      both targets: the targets never share a secret exactly when no torn write leaves one of the other
      target's, and then the two secrets of a target coincide exactly between the two writes of a stage. */
  lemma {:induction false} TargetsNeverShare(s: State, events: seq<Event>)
    requires Steady(s) && CanRun(s, events)
    ensures ApartThroughout(s, events) <==> TearsApart(s, events)
    ensures NoTears(events) ==> TearsApart(s, events)
    ensures TearsApart(s, events) ==>
              var end := Run(s, events);
              !PairsShare(end.admin, end.user)
              && forall target: Target :: Same(end.Of(target).current, end.Of(target).previous) <==> target in end.torn
  {
    hide ApartThroughout, TearsApart, NoTears;
    SteadyIsUnshared(s);
    ApartThroughoutIff(s, events);
    if NoTears(events) { UntornIsApart(s, events); }
    if TearsApart(s, events) { RunKeepsInv(s, events); }
  }

  /** The files that a run leaves pass the start-up check exactly when no stage was cut in half, both current
      secrets are set (as they are without torn writes), and no rotated secret equals one of the secrets that
      only start-up looks at. */
  lemma {:induction false} StartUpAfterRun(s: State, events: seq<Event>)
    requires Steady(s) && CanRun(s, events) && TearsApart(s, events)
    ensures var end := Run(s, events);
            StartUpAccepts(end) <==>
              end.torn == {} && end.admin.current != "" && end.user.current != ""
              && !SharesUncompared(end.admin, end.others) && !SharesUncompared(end.user, end.others)
    ensures NoTears(events) ==> Run(s, events).admin.current != "" && Run(s, events).user.current != ""
  {
    SteadyIsUnshared(s);
    RunKeepsInv(s, events);
    if NoTears(events) { UntornIsApart(s, events); }
    AcceptsIff(Run(s, events));
  }

  lemma {:induction false} AcceptsIff(end: State)
    requires Inv(end)
    ensures StartUpAccepts(end) <==>
              end.torn == {} && end.admin.current != "" && end.user.current != ""
              && !SharesUncompared(end.admin, end.others) && !SharesUncompared(end.user, end.others)
  {
    assert end.torn == {} <==> Admin !in end.torn && User !in end.torn by {
      if Admin !in end.torn && User !in end.torn {
        forall target: Target ensures target !in end.torn {
          assert target == Admin || target == User;
        }
      }
    }
    assert end.Of(Admin) == end.admin && end.Of(User) == end.user;
  }

  /** The text that an event may put into a file. */
  function Brought(e: Event): string {
    if e.BeginStage? then e.newSecret else if e.Tear? then e.text else ""
  }

  /** Nothing that is staged, and no torn text, is a secret that only start-up looks at. */
  ghost predicate BringsOnlyUnshared(events: seq<Event>, o: Others) {
    forall i :: 0 <= i < |events| ==> !SharesUncompared(Pair(Brought(events[i]), ""), o)
  }

  ghost predicate Unshared(s: State) {
    && !SharesUncompared(s.admin, s.others) && !SharesUncompared(s.user, s.others)
    && (s.phase != Idle ==> !SharesUncompared(Pair(s.phase.newSecret, ""), s.others))
  }

  lemma {:induction false} StepKeepsUnshared(s: State, e: Event)
    requires Inv(s) && Unshared(s) && Enabled(s, e)
    requires !SharesUncompared(Pair(Brought(e), ""), s.others)
    ensures Unshared(Apply(s, e))
  {
    hide Utf16Length, SharesCompared, PairsShare;
  }

  lemma {:induction false} RunKeepsUnshared(s: State, events: seq<Event>)
    requires Inv(s) && Unshared(s) && CanRun(s, events) && TearsApart(s, events)
    requires BringsOnlyUnshared(events, s.others)
    ensures Unshared(Run(s, events))
    decreases |events|
  {
    if events != [] {
      hide Inv, Unshared, Enabled, Apply, SharesUncompared, TextApart;
      StepKeepsInv(s, events[0]);
      StepKeepsUnshared(s, events[0]);
      RunKeepsUnshared(Apply(s, events[0]), events[1..]);
    }
  }

  /** What an operator can check beforehand: as long as nothing is staged that only start-up looks at,
      start-up accepts the files exactly when no stage was cut in half, and, after torn writes, when both
      current secrets are still set. */
  lemma {:induction false} StartUpAfterUnsharedRun(s: State, events: seq<Event>)
    requires Steady(s) && CanRun(s, events) && TearsApart(s, events)
    requires BringsOnlyUnshared(events, s.others)
    ensures var end := Run(s, events);
            StartUpAccepts(end) <==> end.torn == {} && end.admin.current != "" && end.user.current != ""
    ensures NoTears(events) ==> (StartUpAccepts(Run(s, events)) <==> Run(s, events).torn == {})
  {
    hide StartUpAccepts, SharesUncompared, TearsApart, NoTears;
    assert Inv(s) && Unshared(s) by { SteadyIsUnshared(s); }
    RunKeepsUnshared(s, events);
    StartUpAfterRun(s, events);
  }

  lemma {:induction false} SteadyIsUnshared(s: State)
    requires Steady(s)
    ensures Inv(s) && Unshared(s)
  {}

  /** What staging a secret does to the start-up check, known before it is staged: files that are cut in half
      are never accepted, and the staged ones exactly when the new secret is none of those that only start-up
      looks at. */
  lemma {:induction false} StagedSecretAtStartUp(s: State, target: Target, newSecret: string, force: bool)
    requires Steady(s) && Enabled(s, BeginStage(target, newSecret, force))
    ensures var half := Apply(Apply(s, BeginStage(target, newSecret, force)), WritePrevious);
            var whole := Apply(half, WriteCurrent);
            !StartUpAccepts(half)
            && (StartUpAccepts(whole) <==> !SharesUncompared(Pair(newSecret, ""), s.others))
            && (Steady(whole) <==> StartUpAccepts(whole))
  {
    hide Utf16Length;
    assert newSecret != "" by { NotEmpty(s, target, newSecret); }
  }

  lemma {:induction false} NotEmpty(s: State, target: Target, newSecret: string)
    requires Fresh(s, target, newSecret)
    ensures newSecret != ""
  {
    assert Utf16Length("") == 0;
  }

  /** A secret of 32 characters. */
  function Letters(c: char): string {
    seq(32, _ => c)
  }

  lemma {:induction false} LettersAreLong(c: char)
    requires c as int < 0x10000
    ensures Utf16Length(Letters(c)) == 32 && Letters(c) != "" && Letters(c)[0] == c
  {
    LengthOfRepeated(Letters(c), c);
  }

  lemma {:induction false} LengthOfRepeated(s: string, c: char)
    requires c as int < 0x10000 && forall i :: 0 <= i < |s| ==> s[i] == c
    ensures Utf16Length(s) == |s|
  {
    if s != "" {
      LengthOfRepeated(s[1..], c);
    }
  }

  /** A system in which every secret is set and long enough for production. */
  const InProduction := State(Pair(Letters('a'), ""), Pair(Letters('u'), ""),
                              Others(Letters('w'), "", Letters('m'), Letters('b'), Letters('x'), Letters('h'),
                                     Letters('r')), Idle, {})

  /** There such a secret exists: the one that encrypts the users' second factors passes every check of the
      tool, and the backend then refuses to start. */
  lemma {:induction false} ToolAcceptsStartUpRefuses()
    ensures var stage := BeginStage(User, InProduction.others.userMfa, false);
            Steady(InProduction) && Enabled(InProduction, stage)
            && !StartUpAccepts(Apply(Apply(Apply(InProduction, stage), WritePrevious), WriteCurrent))
  {
    hide Utf16Length, Letters;
    LettersAreLong('a');
    LettersAreLong('u');
    LettersAreLong('w');
    LettersAreLong('m');
    LettersAreLong('b');
    LettersAreLong('x');
    LettersAreLong('h');
    LettersAreLong('r');
    StagedSecretAtStartUp(InProduction, User, InProduction.others.userMfa, false);
  }

  /** A stage that crashes between its writes can be begun again without `--force`, whether it was forced or
      not, and ends where it would have ended. */
  lemma {:induction false} CrashedStageCanBeRepeated(s: State, target: Target, newSecret: string, force: bool)
    requires s.phase.Idle? && Enabled(s, BeginStage(target, newSecret, force))
    ensures var again := BeginStage(target, newSecret, false);
            var half := Apply(Apply(s, BeginStage(target, newSecret, force)), WritePrevious);
            var crashed := Apply(half, Crash);
            Enabled(crashed, again)
            && Apply(Apply(Apply(crashed, again), WritePrevious), WriteCurrent) == Apply(half, WriteCurrent)
  {
    hide Utf16Length;
    NotEmpty(s, target, newSecret);
  }

  // ---- the start-up check itself ----

  datatype Named = Named(name: string, value: string)

  /** The four rotated secrets as the environment has them, those that are set. */
  function ActiveSecrets(env: Env): seq<Named> {
    OnlySet([Named("ADMIN_JWT_SECRET", EnvValue(env, "ADMIN_JWT_SECRET")),
             Named("ADMIN_JWT_SECRET_PREVIOUS", EnvValue(env, "ADMIN_JWT_SECRET_PREVIOUS")),
             Named("USER_JWT_SECRET", EnvValue(env, "USER_JWT_SECRET")),
             Named("USER_JWT_SECRET_PREVIOUS", EnvValue(env, "USER_JWT_SECRET_PREVIOUS"))])
  }

  function OnlySet(secrets: seq<Named>): (r: seq<Named>)
    ensures forall s :: s in r ==> s.value != ""
  {
    if secrets == [] then []
    else (if secrets[0].value != "" then [secrets[0]] else []) + OnlySet(secrets[1..])
  }

  /** What the check reads from the environment. */
  function StateShown(env: Env): State {
    State(Pair(EnvValue(env, "ADMIN_JWT_SECRET"), EnvValue(env, "ADMIN_JWT_SECRET_PREVIOUS")),
          Pair(EnvValue(env, "USER_JWT_SECRET"), EnvValue(env, "USER_JWT_SECRET_PREVIOUS")),
          Others(EnvValue(env, "AUTH_SECRET"), EnvValue(env, "NEXTAUTH_SECRET"),
                 EnvValue(env, "ADMIN_MFA_ENCRYPTION_SECRET"), EnvValue(env, "ADMIN_MFA_BREAK_GLASS_SECRET"),
                 EnvValue(env, "USER_MFA_ENCRYPTION_SECRET"), EnvValue(env, "HAND_HISTORY_EVIDENCE_SIGNING_SECRET"),
                 EnvValue(env, "SAAS_REPORT_EXPORT_SIGNING_SECRET")), Idle, {})
  }

  /** `validateSessionSecrets`, up to the end of the loop over the rotated secrets: false where it throws. */
  method ValidateSessionSecrets(env: Env) returns (accepted: bool)
    ensures accepted <==> StartUpAccepts(StateShown(env))
  {
    hide EnvValue, OnlySet, StartUpAccepts, ActiveSecrets;
    var adminSecret, userSecret := EnvValue(env, "ADMIN_JWT_SECRET"), EnvValue(env, "USER_JWT_SECRET");
    var webSecret := if EnvValue(env, "AUTH_SECRET") != "" then EnvValue(env, "AUTH_SECRET")
                     else EnvValue(env, "NEXTAUTH_SECRET");
    var others := [webSecret, EnvValue(env, "ADMIN_MFA_ENCRYPTION_SECRET"), EnvValue(env, "USER_MFA_ENCRYPTION_SECRET"),
                   EnvValue(env, "ADMIN_MFA_BREAK_GLASS_SECRET"),
                   EnvValue(env, "HAND_HISTORY_EVIDENCE_SIGNING_SECRET"),
                   EnvValue(env, "SAAS_REPORT_EXPORT_SIGNING_SECRET")];
    var active := ActiveSecrets(env);
    AcceptedMeans(env, others);
    if adminSecret == "" || userSecret == "" {
      return false;
    }
    for index := 0 to |active|
      invariant forall i, j :: 0 <= i < index && i < j < |active| ==> active[i].value != active[j].value
      invariant forall i :: 0 <= i < index ==> active[i].value !in others
    {
      var candidate := active[index];
      for compareIndex := index + 1 to |active|
        invariant forall j :: index < j < compareIndex ==> candidate.value != active[j].value
      {
        if candidate.value == active[compareIndex].value {
          assert !PairwiseDistinct(active);
          return false;
        }
      }
      for k := 0 to |others|
        invariant candidate.value !in others[..k]
      {
        if others[k] == candidate.value {
          return false;
        }
      }
      assert others[..|others|] == others;
    }
    return true;
  }

  ghost predicate PairwiseDistinct(secrets: seq<Named>) {
    forall i, j :: 0 <= i < j < |secrets| ==> secrets[i].value != secrets[j].value
  }

  lemma {:induction false} AcceptedMeans(env: Env, others: seq<string>)
    requires var s := StateShown(env);
             others == [if s.others.auth != "" then s.others.auth else s.others.nextAuth, s.others.adminMfa,
                        s.others.userMfa, s.others.breakGlass, s.others.handHistory, s.others.reportExport]
    ensures StartUpAccepts(StateShown(env)) <==>
              EnvValue(env, "ADMIN_JWT_SECRET") != "" && EnvValue(env, "USER_JWT_SECRET") != ""
              && PairwiseDistinct(ActiveSecrets(env))
              && forall i :: 0 <= i < |ActiveSecrets(env)| ==> ActiveSecrets(env)[i].value !in others
  {
    hide EnvValue;
    FourSecrets(StateShown(env), ActiveSecrets(env), others,
                [Named("ADMIN_JWT_SECRET", EnvValue(env, "ADMIN_JWT_SECRET")),
                 Named("ADMIN_JWT_SECRET_PREVIOUS", EnvValue(env, "ADMIN_JWT_SECRET_PREVIOUS")),
                 Named("USER_JWT_SECRET", EnvValue(env, "USER_JWT_SECRET")),
                 Named("USER_JWT_SECRET_PREVIOUS", EnvValue(env, "USER_JWT_SECRET_PREVIOUS"))]);
  }

  lemma {:induction false} FourSecrets(s: State, active: seq<Named>, others: seq<string>, four: seq<Named>)
    requires |four| == 4 && active == OnlySet(four)
    requires four[0].value == s.admin.current && four[1].value == s.admin.previous
    requires four[2].value == s.user.current && four[3].value == s.user.previous
    requires others == [if s.others.auth != "" then s.others.auth else s.others.nextAuth, s.others.adminMfa,
                        s.others.userMfa, s.others.breakGlass, s.others.handHistory, s.others.reportExport]
    ensures StartUpAccepts(s) <==>
              s.admin.current != "" && s.user.current != "" && PairwiseDistinct(active)
              && forall i :: 0 <= i < |active| ==> active[i].value !in others
  {
    hide OnlySet, NoneSame, PairwiseDistinct, PairAccepted, SharesWith, PairsShare;
    SetMembers(four);
    SetDistinct(four);
    NoneSameOfFour(four, s.admin, s.user);
    PairAcceptedMeans(s.admin, s.others, others);
    PairAcceptedMeans(s.user, s.others, others);
    AvoidsMeans(active, four, others);
  }

  lemma {:induction false} AvoidsMeans(active: seq<Named>, four: seq<Named>, others: seq<string>)
    requires |four| == 4 && forall x :: x in active <==> x in four && x.value != ""
    ensures (forall i :: 0 <= i < |active| ==> active[i].value !in others)
            <==> (four[0].value == "" || four[0].value !in others) && (four[1].value == "" || four[1].value !in others)
                 && (four[2].value == "" || four[2].value !in others)
                 && (four[3].value == "" || four[3].value !in others)
  {
    forall k | 0 <= k < 4 && four[k].value != "" ensures four[k] in active {
      assert four[k] in four;
    }
    if forall i :: 0 <= i < |active| ==> active[i].value !in others {
      assert forall x :: x in active ==> x.value !in others;
    } else {
      var i :| 0 <= i < |active| && active[i].value in others;
      assert active[i] in active && active[i] in four;
    }
  }

  lemma {:induction false} PairAcceptedMeans(pair: Pair, o: Others, others: seq<string>)
    requires others == [if o.auth != "" then o.auth else o.nextAuth, o.adminMfa, o.userMfa, o.breakGlass,
                        o.handHistory, o.reportExport]
    ensures PairAccepted(pair, o) <==>
              (pair.current == "" || pair.current !in others) && (pair.previous == "" || pair.previous !in others)
  {
    forall x ensures x in others <==> x == others[0] || x == others[1] || x == others[2] || x == others[3]
                                      || x == others[4] || x == others[5] {
    }
  }

  /** No two set secrets of the list are equal. */
  ghost predicate NoneSame(secrets: seq<Named>) {
    forall i, j :: 0 <= i < j < |secrets| ==> !Same(secrets[i].value, secrets[j].value)
  }

  lemma {:induction false} NoneSameOfFour(four: seq<Named>, a: Pair, b: Pair)
    requires |four| == 4 && four[0].value == a.current && four[1].value == a.previous
    requires four[2].value == b.current && four[3].value == b.previous
    ensures NoneSame(four) <==>
              !Same(a.current, a.previous) && !Same(b.current, b.previous) && !PairsShare(a, b)
  {}

  /** Dropping what is not set keeps every set secret ... */
  lemma {:induction false} SetMembers(secrets: seq<Named>)
    ensures forall x :: x in OnlySet(secrets) <==> x in secrets && x.value != ""
  {
    if secrets != [] {
      SetMembers(secrets[1..]);
      assert secrets == [secrets[0]] + secrets[1..];
    }
  }

  /** ... and which of them are equal. */
  lemma {:induction false} SetDistinct(secrets: seq<Named>)
    ensures PairwiseDistinct(OnlySet(secrets)) <==> NoneSame(secrets)
  {
    if secrets != [] {
      hide PairwiseDistinct, NoneSame;
      var x, rest := secrets[0], secrets[1..];
      SetDistinct(rest);
      SetMembers(rest);
      assert secrets == [x] + rest;
      NoneSameCons(x, rest);
      DistinctCons(x, OnlySet(rest));
      assert x.value == "" ==> OnlySet(secrets) == OnlySet(rest);
    }
  }

  lemma {:induction false} NoneSameCons(x: Named, rest: seq<Named>)
    ensures NoneSame([x] + rest) <==> NoneSame(rest) && forall y :: y in rest ==> !Same(x.value, y.value)
  {
    var all := [x] + rest;
    assert forall j :: 0 <= j < |rest| ==> all[j + 1] == rest[j];
    if NoneSame(all) {
      forall i, j | 0 <= i < j < |rest| ensures !Same(rest[i].value, rest[j].value) {
        assert !Same(all[i + 1].value, all[j + 1].value);
      }
      forall y | y in rest ensures !Same(x.value, y.value) {
        var j :| 0 <= j < |rest| && rest[j] == y;
        assert !Same(all[0].value, all[j + 1].value);
      }
    }
  }

  lemma {:induction false} DistinctCons(x: Named, rest: seq<Named>)
    ensures PairwiseDistinct([x] + rest) <==> PairwiseDistinct(rest) && forall y :: y in rest ==> x.value != y.value
  {
    var all := [x] + rest;
    assert forall j :: 0 <= j < |rest| ==> all[j + 1] == rest[j];
    if PairwiseDistinct(all) {
      forall i, j | 0 <= i < j < |rest| ensures rest[i].value != rest[j].value {
        assert all[i + 1].value != all[j + 1].value;
      }
      forall y | y in rest ensures x.value != y.value {
        var j :| 0 <= j < |rest| && rest[j] == y;
        assert all[0].value != all[j + 1].value;
      }
    }
  }
}
