/** scripts/ops/rotate-jwt.ts: staging and finalizing a dual-secret rotation on the secret files. */
module JwtRotation {
  import opened JsText
  import opened SecretFiles

  datatype Target = Admin | User

  function CurrentKey(target: Target): SecretKey {
    match target
    case Admin => SecretKey("ADMIN_JWT_SECRET", "admin_jwt_secret")
    case User => SecretKey("USER_JWT_SECRET", "user_jwt_secret")
  }

  function PreviousKey(target: Target): SecretKey {
    match target
    case Admin => SecretKey("ADMIN_JWT_SECRET_PREVIOUS", "admin_jwt_secret_previous")
    case User => SecretKey("USER_JWT_SECRET_PREVIOUS", "user_jwt_secret_previous")
  }

  /** Where the two secrets of a target are kept. */
  datatype Places = Places(current: Place, previous: Place)

  function PlacesOf(layout: Layout, env: Env, target: Target): Places {
    Places(PlaceOf(layout, env, CurrentKey(target)), PlaceOf(layout, env, PreviousKey(target)))
  }

  /** The environment variables that a new secret must differ from, in the order they are tried. */
  function ComparedNames(target: Target): seq<string> {
    [CurrentKey(target).name]
    + (match target
       case Admin => ["ADMIN_JWT_SECRET_PREVIOUS", "USER_JWT_SECRET", "USER_JWT_SECRET_PREVIOUS"]
       case User => ["USER_JWT_SECRET_PREVIOUS", "ADMIN_JWT_SECRET", "ADMIN_JWT_SECRET_PREVIOUS"])
    + ["AUTH_SECRET", "ADMIN_MFA_ENCRYPTION_SECRET", "ADMIN_MFA_BREAK_GLASS_SECRET"]
  }

  /** Both secrets of a target, as a process with this environment reads them. */
  datatype TargetState = TargetState(current: ManagedSecret, previous: ManagedSecret)

  function ReadTarget(files: Files, places: Places): TargetState {
    TargetState(ReadSecret(files, places.current), ReadSecret(files, places.previous))
  }

  datatype Refusal =
    | MissingSecret
    | ShortSecret
    | NoCurrentSecret
    | SameAsCurrent
    | ClashesWith(name: string)
    | AlreadyStaged
    | NoPath

  datatype Outcome = Refused(why: Refusal) | Planned | NothingToDo | Done

  /** Length in UTF-16 code units. */
  function Utf16Length(s: string): nat {
    if s == "" then 0 else (if s[0] as int < 0x10000 then 1 else 2) + Utf16Length(s[1..])
  }

  /** Characters of the basic plane count once, the others twice. */
  lemma {:induction false} LengthInCodeUnits(a: string, c: char, b: string)
    ensures Utf16Length(a + [c] + b) == Utf16Length(a) + (if c < '\U{10000}' then 1 else 2) + Utf16Length(b)
    ensures Utf16Length("") == 0
  {
    if a == "" {
      assert ([] + [c] + b)[1..] == b;
    } else {
      assert (a + [c] + b)[1..] == a[1..] + [c] + b;
      LengthInCodeUnits(a[1..], c, b);
    }
  }

  predicate Clashes(env: Env, name: string, newSecret: string) {
    EnvValue(env, name) != "" && EnvValue(env, name) == newSecret
  }

  /** No variable that the new secret is compared with holds it. */
  ghost predicate ClashFree(env: Env, target: Target, newSecret: string) {
    forall i :: 0 <= i < |ComparedNames(target)| ==> !Clashes(env, ComparedNames(target)[i], newSecret)
  }

  /** A new secret that `validateNewSecret` lets pass. */
  ghost predicate ValidNewSecret(env: Env, target: Target, newSecret: string, current: string) {
    newSecret != "" && 32 <= Utf16Length(newSecret) && current != "" && newSecret != current
    && ClashFree(env, target, newSecret)
  }

  /** The first reason that applies, in the order of the checks; a clash names the first variable. */
  ghost predicate RefusalFits(env: Env, target: Target, newSecret: string, current: string, refusal: Refusal) {
    if newSecret == "" then refusal == MissingSecret
    else if Utf16Length(newSecret) < 32 then refusal == ShortSecret
    else if current == "" then refusal == NoCurrentSecret
    else if newSecret == current then refusal == SameAsCurrent
    else exists i :: 0 <= i < |ComparedNames(target)| && FirstClash(env, target, newSecret, i)
                     && refusal == ClashesWith(ComparedNames(target)[i])
  }

  ghost predicate FirstClash(env: Env, target: Target, newSecret: string, i: nat)
    requires i < |ComparedNames(target)|
  {
    Clashes(env, ComparedNames(target)[i], newSecret)
    && forall j :: 0 <= j < i ==> !Clashes(env, ComparedNames(target)[j], newSecret)
  }

  /** The guard against a rotation on top of an unfinished one. */
  predicate GuardAdmits(state: TargetState, force: bool) {
    state.previous.value == "" || state.previous.value == state.current.value || force
  }

  method ValidateNewSecret(env: Env, target: Target, newSecret: string, state: TargetState)
      returns (refusal: Option<Refusal>)
    ensures refusal == None <==> ValidNewSecret(env, target, newSecret, state.current.value)
    ensures refusal.Some? ==> RefusalFits(env, target, newSecret, state.current.value, refusal.value)
  {
    hide EnvValue, Utf16Length;
    if newSecret == "" { return Some(MissingSecret); }
    if Utf16Length(newSecret) < 32 { return Some(ShortSecret); }
    if state.current.value == "" { return Some(NoCurrentSecret); }
    if newSecret == state.current.value { return Some(SameAsCurrent); }
    var names := ComparedNames(target);
    for i := 0 to |names|
      invariant forall j :: 0 <= j < i ==> !Clashes(env, names[j], newSecret)
    {
      var candidate := EnvValue(env, names[i]);
      if candidate != "" && candidate == newSecret {
        assert FirstClash(env, target, newSecret, i);
        return Some(ClashesWith(names[i]));
      }
    }
    return None;
  }

  /** The files after the first write of a stage, and after both. */
  function PreviousWritten(files: Files, state: TargetState): Files {
    files[state.previous.filePath := WrittenText(state.current.value)]
  }

  function Staged(files: Files, state: TargetState, newSecret: string): Files {
    PreviousWritten(files, state)[state.current.filePath := WrittenText(newSecret)]
  }

  /** What `stage` answers: the checks on the secret come before the guard, the guard before the plan, and
      only a run that applies the plan looks for paths. */
  ghost predicate StageAnswer(env: Env, target: Target, newSecret: string, state: TargetState, force: bool,
                              apply: bool, outcome: Outcome)
  {
    if !ValidNewSecret(env, target, newSecret, state.current.value) then
      outcome.Refused? && RefusalFits(env, target, newSecret, state.current.value, outcome.why)
    else if !GuardAdmits(state, force) then outcome == Refused(AlreadyStaged)
    else if !apply then outcome == Planned
    else if state.current.filePath == "" || state.previous.filePath == "" then outcome == Refused(NoPath)
    else outcome == Done
  }

  /** `newSecret` is what `resolveNewSecret` returned, hence trimmed. */
  method StageRotation(host: OpsHost, target: Target, newSecret: string, force: bool, apply: bool)
      returns (outcome: Outcome)
    requires IsTrimmed(newSecret)
    modifies host
    ensures var state := ReadTarget(old(host.files), PlacesOf(host.layout, host.env, target));
            StageAnswer(host.env, target, newSecret, state, force, apply, outcome)
    ensures var state := ReadTarget(old(host.files), PlacesOf(host.layout, host.env, target));
            host.files == if outcome == Done then Staged(old(host.files), state, newSecret) else old(host.files)
  {
    hide ReadSecret, Trim, ValidNewSecret;
    var current := host.ReadManagedSecretFile(CurrentKey(target));
    var previous := host.ReadManagedSecretFile(PreviousKey(target));
    var state := TargetState(current, previous);
    var refusal := ValidateNewSecret(host.env, target, newSecret, state);
    if refusal.Some? {
      return Refused(refusal.value);
    }
    if previous.value != "" && previous.value != current.value && !force {
      return Refused(AlreadyStaged);
    }
    if !apply {
      return Planned;
    }
    if current.filePath == "" || previous.filePath == "" {
      return Refused(NoPath);
    }
    host.WriteManagedSecretFile(previous.filePath, current.value);
    host.WriteManagedSecretFile(current.filePath, newSecret);
    return Done;
  }

  method FinalizeRotation(host: OpsHost, target: Target, apply: bool) returns (outcome: Outcome)
    modifies host
    ensures var previous := ReadTarget(old(host.files), PlacesOf(host.layout, host.env, target)).previous;
            outcome == (if previous.value == "" then NothingToDo
                        else if !apply then Planned
                        else if previous.filePath == "" then Refused(NoPath)
                        else Done)
            && host.files == (if outcome == Done then old(host.files) - {previous.filePath} else old(host.files))
  {
    var previous := host.ReadManagedSecretFile(PreviousKey(target));
    if previous.value == "" {
      return NothingToDo;
    }
    if !apply {
      return Planned;
    }
    if previous.filePath == "" {
      return Refused(NoPath);
    }
    host.RemoveManagedSecretFile(previous.filePath);
    return Done;
  }

  // ---- crash safety ----

  /** Neither secret file of the target shadows the other secret, now or after the first write. */
  ghost predicate KeptApart(files: Files, places: Places) {
    var state := ReadTarget(files, places);
    var p, c := state.previous.filePath, state.current.filePath;
    p != "" && c != ""
    && !Shadows(files, places.current, p)
    && !Shadows(files[p := ""], places.previous, c)
  }

  lemma {:induction false} ReadValueTrimmed(files: Files, place: Place)
    ensures IsTrimmed(ReadSecret(files, place).value)
  {}

  /** After the first write both files hold the old secret; the paths have not moved. */
  lemma {:induction false} AfterFirstWrite(files: Files, places: Places)
    requires KeptApart(files, places)
    ensures var state := ReadTarget(files, places);
            ReadTarget(PreviousWritten(files, state), places)
            == state.(previous := ManagedSecret(state.previous.filePath, state.current.value))
  {
    hide ReadSecret, Trim, SecretPath;
    var state := ReadTarget(files, places);
    ReadPaths(files, places);
    ReadAfterWrite(files, places.previous, state.current.value);
    ReadAfterOtherWrite(files, places.current, state.previous.filePath,
                        WrittenText(state.current.value));
    ReadValueTrimmed(files, places.current);
    TrimFixesTrimmed(state.current.value);
  }

  lemma {:induction false} ReadPaths(files: Files, places: Places)
    ensures ReadTarget(files, places).current.filePath == SecretPath(files, places.current)
    ensures ReadTarget(files, places).previous.filePath
         == SecretPath(files, places.previous)
  {}

  /** After both writes the new secret is current and the old one previous. */
  lemma {:induction false} AfterStage(files: Files, places: Places, newSecret: string)
    requires KeptApart(files, places)
    requires IsTrimmed(newSecret)
    ensures var state := ReadTarget(files, places);
            ReadTarget(Staged(files, state, newSecret), places)
            == TargetState(ManagedSecret(state.current.filePath, newSecret),
                           ManagedSecret(state.previous.filePath, state.current.value))
  {
    hide ReadSecret, Trim, SecretPath, Shadows;
    var state := ReadTarget(files, places);
    var between := PreviousWritten(files, state);
    AfterFirstWrite(files, places);
    ReadPaths(between, places);
    ReadAfterWrite(between, places.current, newSecret);
    TrimFixesTrimmed(newSecret);
    ShadowsIgnoresText(files, places.previous, state.previous.filePath,
                       WrittenText(state.current.value), state.current.filePath);
    ReadAfterOtherWrite(between, places.previous, state.current.filePath, WrittenText(newSecret));
  }

  lemma {:induction false} ShadowsIgnoresText(files: Files, place: Place,
                                              written: string, text: string, path: string)
    ensures Shadows(files[written := text], place, path)
         == Shadows(files[written := ""], place, path)
  {
    hide Trim;
    assert files[written := text][path := ""].Keys == files[written := ""][path := ""].Keys;
  }

  /** The old secret is still in one of the two files however far the two writes got, also when one of them
      was torn and left any text behind. */
  lemma {:induction false} OldSecretSurvives(files: Files, places: Places, newSecret: string,
                                             torn: string, after: Files)
    requires KeptApart(files, places)
    requires IsTrimmed(newSecret)
    requires var state := ReadTarget(files, places);
             after == files
             || after == files[state.previous.filePath := torn]
             || after == PreviousWritten(files, state)
             || after == PreviousWritten(files, state)[state.current.filePath := torn]
             || after == Staged(files, state, newSecret)
    ensures var kept := ReadTarget(files, places).current.value;
            var now := ReadTarget(after, places);
            kept == now.current.value || kept == now.previous.value
  {
    hide ReadTarget, KeptApart, Staged, PreviousWritten;
    AfterFirstWrite(files, places);
    AfterTornWrite(files, places, torn);
    AfterStage(files, places, newSecret);
  }

  /** A torn first write leaves any previous secret, a torn second one any current secret.  A rerun without
      `--force` passes the guard exactly when that text reads as nothing (in the first write) or as the old
      secret. */
  lemma {:induction false} AfterTornWrite(files: Files, places: Places, torn: string)
    requires KeptApart(files, places)
    ensures var state := ReadTarget(files, places);
            var first := ReadTarget(files[state.previous.filePath := torn], places);
            first.current == state.current && first.previous.value == Trim(torn)
            && (GuardAdmits(first, false) <==> Trim(torn) == "" || Trim(torn) == state.current.value)
    ensures var state := ReadTarget(files, places);
            var second := ReadTarget(PreviousWritten(files, state)[state.current.filePath := torn], places);
            second.previous.value == state.current.value && second.current.value == Trim(torn)
            && (GuardAdmits(second, false) <==> state.current.value == "" || Trim(torn) == state.current.value)
  {
    hide ReadSecret, Trim, SecretPath, Shadows;
    var state := ReadTarget(files, places);
    var p, c := state.previous.filePath, state.current.filePath;
    var between := PreviousWritten(files, state);
    ReadPaths(files, places);
    ReadTorn(files, places.previous, torn);
    ReadAfterOtherWrite(files, places.current, p, torn);
    AfterFirstWrite(files, places);
    ReadPaths(between, places);
    ReadTorn(between, places.current, torn);
    ShadowsIgnoresText(files, places.previous, p, WrittenText(state.current.value), c);
    ReadAfterOtherWrite(between, places.previous, c, torn);
  }

  /** Whatever text is put where a secret lives is what it reads as. */
  lemma {:induction false} ReadTorn(files: Files, place: Place, text: string)
    requires SecretPath(files, place) != ""
    ensures ReadSecret(files[SecretPath(files, place) := text], place)
         == ManagedSecret(SecretPath(files, place), Trim(text))
  {
    hide Trim;
    PathAfterWrite(files, place, SecretPath(files, place), text);
  }

  /** Keeping the files apart is what it takes: a stage that is carried out leaves the old secret readable
      as the previous one exactly when the previous secret does not resolve to the current one's file. */
  lemma {:induction false} PreviousKeptIffApart(files: Files, places: Places, newSecret: string)
    requires IsTrimmed(newSecret)
    requires ReadTarget(files, places).previous.filePath != ""
    requires ReadTarget(files, places).current.filePath != ""
    requires newSecret != ReadTarget(files, places).current.value
    ensures var state := ReadTarget(files, places);
            var p, c := state.previous.filePath, state.current.filePath;
            ReadTarget(Staged(files, state, newSecret), places).previous.value == state.current.value
            <==> !Shadows(files[p := ""], places.previous, c)
  {
    hide ReadSecret, Trim, SecretPath, Shadows;
    var state := ReadTarget(files, places);
    var p, c := state.previous.filePath, state.current.filePath;
    var between := PreviousWritten(files, state);
    ReadPaths(files, places);
    ReadAfterWrite(files, places.previous, state.current.value);
    ReadValueTrimmed(files, places.current);
    TrimFixesTrimmed(state.current.value);
    ShadowsIgnoresText(files, places.previous, p, WrittenText(state.current.value), c);
    if Shadows(between, places.previous, c) {
      ReadShadowed(between, places.previous, c, newSecret);
    } else {
      ReadAfterOtherWrite(between, places.previous, c, WrittenText(newSecret));
    }
  }

  /** A secret that is shadowed by a file reads that file. */
  lemma {:induction false} ReadShadowed(files: Files, place: Place, path: string,
                                        value: string)
    requires path != "" && Shadows(files, place, path)
    requires IsTrimmed(value)
    ensures ReadSecret(files[path := WrittenText(value)], place) == ManagedSecret(path, value)
  {
    hide Trim;
    PathIgnoresText(files, place, path, WrittenText(value));
    WrittenTextTrims(value);
    TrimFixesTrimmed(value);
  }

  /** Two environments that point to the same secret files. */
  predicate SamePlaces(a: Places, b: Places) {
    SamePlace(a.current, b.current) && SamePlace(a.previous, b.previous)
  }

  predicate SamePlace(a: Place, b: Place) {
    a == b.(shown := a.shown)
  }

  /** The other secrets that a new one is compared with are the same in both environments. */
  ghost predicate SameOthers(a: Env, b: Env, target: Target) {
    forall i :: 2 <= i < |ComparedNames(target)| ==>
      EnvValue(a, ComparedNames(target)[i]) == EnvValue(b, ComparedNames(target)[i])
  }

  /** The environment shows the target's own secrets as they were read. */
  ghost predicate ShowsTarget(env: Env, target: Target, state: TargetState) {
    EnvValue(env, CurrentKey(target).name) == state.current.value
    && EnvValue(env, PreviousKey(target).name) == state.previous.value
  }

  /** After a crash between the two writes, a second run reads the old current secret, would be admitted by
      the guard without `--force`, and leaves exactly the files of an uninterrupted stage. */
  lemma {:induction false} RerunSameFiles(files: Files, places: Places, rerun: Places, newSecret: string)
    requires KeptApart(files, places)
    requires SamePlaces(places, rerun)
    requires ReadTarget(files, places).current.filePath in files || rerun.current.shown == places.current.shown
    ensures var state := ReadTarget(files, places);
            var crashed := PreviousWritten(files, state);
            var again := ReadTarget(crashed, rerun);
            again.current == state.current && again.previous.filePath == state.previous.filePath
            && GuardAdmits(again, false)
            && Staged(crashed, again, newSecret) == Staged(files, state, newSecret)
  {
    hide ReadSecret, Trim, SecretPath, Shadows;
    var state := ReadTarget(files, places);
    var crashed := PreviousWritten(files, state);
    AfterFirstWrite(files, places);
    ReadPaths(crashed, places);
    ReadPaths(crashed, rerun);
    ReadSamePlace(crashed, places.current, rerun.current);
    ReadSamePlace(crashed, places.previous, rerun.previous);
  }

  /** A secret that passed the checks once passes them again exactly when the target's own two variables
      have not come to hold it. */
  lemma {:induction false} RerunPassesChecks(env: Env, rerun: Env, target: Target, newSecret: string, current: string)
    requires SameOthers(env, rerun, target)
    requires ValidNewSecret(env, target, newSecret, current)
    ensures ValidNewSecret(rerun, target, newSecret, current) <==>
              newSecret != EnvValue(rerun, CurrentKey(target).name)
              && newSecret != EnvValue(rerun, PreviousKey(target).name)
  {
    hide EnvValue, Utf16Length;
    var names := ComparedNames(target);
    assert names[0] == CurrentKey(target).name && names[1] == PreviousKey(target).name;
    forall i | 2 <= i < |names| ensures !Clashes(rerun, names[i], newSecret) {
      assert !Clashes(env, names[i], newSecret);
    }
    assert ClashFree(rerun, target, newSecret) <==>
             !Clashes(rerun, names[0], newSecret) && !Clashes(rerun, names[1], newSecret);
  }

  /** After a crash between the two writes, a second run with the same new secret completes the stage: it
      passes every check and the guard without `--force`, answers that it is done, and leaves exactly the
      files of an uninterrupted stage.  Its environment points to the same files, shows the target's secrets
      as the first write left them, and the others as before; only a current secret that has no file of its
      own must be the same in both environments. */
  lemma {:induction false} RerunCompletes(files: Files, layout: Layout, env: Env, rerun: Env, target: Target,
                                          newSecret: string, outcome: Outcome)
    requires KeptApart(files, PlacesOf(layout, env, target))
    requires SamePlaces(PlacesOf(layout, env, target), PlacesOf(layout, rerun, target))
    requires ReadTarget(files, PlacesOf(layout, env, target)).current.filePath in files
             || EnvValue(rerun, CurrentKey(target).name) == EnvValue(env, CurrentKey(target).name)
    requires SameOthers(env, rerun, target)
    requires var state := ReadTarget(files, PlacesOf(layout, env, target));
             ValidNewSecret(env, target, newSecret, state.current.value)
             && ShowsTarget(rerun, target, ReadTarget(PreviousWritten(files, state), PlacesOf(layout, rerun, target)))
    ensures var state := ReadTarget(files, PlacesOf(layout, env, target));
            var crashed := PreviousWritten(files, state);
            var again := ReadTarget(crashed, PlacesOf(layout, rerun, target));
            (StageAnswer(rerun, target, newSecret, again, false, true, outcome) <==> outcome == Done)
            && Staged(crashed, again, newSecret) == Staged(files, state, newSecret)
  {
    hide ReadSecret, Trim, SecretPath, Shadows, ClashFree, Utf16Length, SameOthers, Staged;
    var places, second := PlacesOf(layout, env, target), PlacesOf(layout, rerun, target);
    var state := ReadTarget(files, places);
    var crashed := PreviousWritten(files, state);
    RerunSameFiles(files, places, second, newSecret);
    AfterFirstWrite(files, places);
    ReadPaths(crashed, places);
    ReadSamePrevious(crashed, places, second);
    RerunPassesChecks(env, rerun, target, newSecret, state.current.value);
  }

  lemma {:induction false} ReadSamePlace(files: Files, place: Place, rerun: Place)
    requires SamePlace(place, rerun)
    ensures SecretPath(files, rerun) == SecretPath(files, place)
    ensures (SecretPath(files, place) in files && SecretPath(files, place) != "")
            || rerun.shown == place.shown ==>
              ReadSecret(files, rerun) == ReadSecret(files, place)
  {
    hide Trim;
  }

  /** The previous secret has a file after the first write, so that both runs read the same. */
  lemma {:induction false} ReadSamePrevious(crashed: Files, places: Places, rerun: Places)
    requires SamePlaces(places, rerun)
    requires SecretPath(crashed, places.previous) in crashed && SecretPath(crashed, places.previous) != ""
    ensures ReadTarget(crashed, rerun).previous == ReadTarget(crashed, places).previous
  {
    hide ReadSecret, SecretPath;
    ReadSamePlace(crashed, places.previous, rerun.previous);
  }

  // ---- which configurations keep the files apart ----

  /** Every location that a secret can ever be read from. */
  function Candidates(place: Place): set<string> {
    if place.configured == "" then {place.fallback} else {place.configured, place.mapped, place.relative}
  }

  lemma {:induction false} PathIsCandidate(files: Files, place: Place)
    ensures SecretPath(files, place) in Candidates(place)
  {}

  /** Secrets without a common location are kept apart. */
  lemma {:induction false} NoCommonLocation(files: Files, places: Places)
    requires Candidates(places.current) !! Candidates(places.previous)
    requires ReadTarget(files, places).current.filePath != "" && ReadTarget(files, places).previous.filePath != ""
    ensures KeptApart(files, places)
  {
    hide ReadSecret, SecretPath, Candidates;
    var p, c := SecretPath(files, places.previous), SecretPath(files, places.current);
    ReadPaths(files, places);
    PathIsCandidate(files, places.previous);
    PathIsCandidate(files, places.current);
    PathIsCandidate(files[p := ""], places.current);
    PathIsCandidate(files[p := ""][c := ""], places.previous);
  }

  /** The paths of a secret in the documented set-ups: under the secret root, or the run-time path. */
  function UsualPaths(layout: Layout, key: SecretKey): set<string> {
    {JoinPath(layout.secretRoot, key.fallbackName), RUN_SECRETS + key.fallbackName}
  }

  predicate UsuallyPlaced(env: Env, key: SecretKey) {
    EnvValue(env, key.name + "_FILE") == "" || EnvValue(env, key.name + "_FILE") == RUN_SECRETS + key.fallbackName
  }

  lemma {:induction false} UsualPathsDiffer(layout: Layout, target: Target)
    ensures UsualPaths(layout, CurrentKey(target)) !! UsualPaths(layout, PreviousKey(target))
  {
    var current, previous := CurrentKey(target).fallbackName, PreviousKey(target).fallbackName;
    assert current[|current| - 1] == 't' && previous[|previous| - 1] == 's';
    forall a, b ensures a + current != b + previous {
      EndsLike(a, current);
      EndsLike(b, previous);
    }
    assert UsualPaths(layout, CurrentKey(target)) == {layout.secretRoot + "/" + current, RUN_SECRETS + current};
    assert UsualPaths(layout, PreviousKey(target)) == {layout.secretRoot + "/" + previous, RUN_SECRETS + previous};
  }

  lemma {:induction false} EndsLike(front: string, end: string)
    requires end != ""
    ensures (front + end)[|front + end| - 1] == end[|end| - 1]
  {}

  lemma {:induction false} UsualCandidates(layout: Layout, env: Env, key: SecretKey)
    requires layout.secretRoot != "" && UsuallyPlaced(env, key)
    ensures forall l :: l in Candidates(PlaceOf(layout, env, key)) ==>
              l != "" && exists path :: path in UsualPaths(layout, key) && layout.At(path) == l
  {
    hide EnvValue;
    var configured := EnvValue(env, key.name + "_FILE");
    var place := PlaceOf(layout, env, key);
    var root, run := JoinPath(layout.secretRoot, key.fallbackName), RUN_SECRETS + key.fallbackName;
    assert root in UsualPaths(layout, key) && run in UsualPaths(layout, key);
    if configured == "" {
      assert place.fallback == layout.At(root);
    } else {
      assert configured[|RUN_SECRETS|..] == key.fallbackName;
      assert "/" <= RUN_SECRETS && "/" <= configured;
      assert place.configured == layout.At(run) == place.relative && place.mapped == layout.At(root);
    }
  }

  /** With a secret root, and every secret either under it by default or at its run-time path, the files are
      kept apart, as long as no link makes one path of the current secret lead where one of the previous
      secret leads. */
  lemma {:induction false} UsualSetUpKeptApart(files: Files, layout: Layout, env: Env, target: Target)
    requires layout.secretRoot != ""
    requires UsuallyPlaced(env, CurrentKey(target)) && UsuallyPlaced(env, PreviousKey(target))
    requires forall a, b :: (a in UsualPaths(layout, CurrentKey(target)) && b in UsualPaths(layout, PreviousKey(target))
                             && layout.At(a) == layout.At(b)) ==> a == b
    ensures KeptApart(files, PlacesOf(layout, env, target))
  {
    hide ReadSecret, SecretPath, Candidates, UsualPaths, UsuallyPlaced, KeptApart;
    var places := PlacesOf(layout, env, target);
    UsualPathsDiffer(layout, target);
    UsualCandidates(layout, env, CurrentKey(target));
    UsualCandidates(layout, env, PreviousKey(target));
    ReadPaths(files, places);
    PathIsCandidate(files, places.current);
    PathIsCandidate(files, places.previous);
    NoCommonLocation(files, places);
  }

  predicate SameLocations(a: Place, b: Place) {
    a.configured == b.configured && a.mapped == b.mapped && a.relative == b.relative
  }

  lemma {:induction false} SamePaths(files: Files, a: Place, b: Place)
    requires a.configured != "" && SameLocations(a, b)
    ensures SecretPath(files, a) == SecretPath(files, b)
  {}

  lemma {:induction false} SharedPlaceLosesSecret(files: Files, places: Places, newSecret: string)
    requires places.current.configured != "" && SameLocations(places.current, places.previous)
    requires SecretPath(files, places.current) != ""
    requires IsTrimmed(newSecret)
    ensures var after := ReadTarget(Staged(files, ReadTarget(files, places), newSecret), places);
            !KeptApart(files, places) && after.current.value == newSecret && after.previous.value == newSecret
  {
    hide Trim, SecretPath, ReadSecret;
    var state := ReadTarget(files, places);
    var between := PreviousWritten(files, state);
    var path := SecretPath(files, places.current);
    ReadPaths(files, places);
    SamePaths(files, places.current, places.previous);
    SamePaths(between, places.current, places.previous);
    PathAfterWrite(files, places.current, path, "");
    PathAfterWrite(files, places.current, path, WrittenText(state.current.value));
    ReadAfterWrite(between, places.current, newSecret);
    ReadAfterWrite(between, places.previous, newSecret);
    TrimFixesTrimmed(newSecret);
  }

  /** A configuration in which both variables name one file is not kept apart, and a stage loses the old
      secret. */
  lemma {:induction false} SharedFileLosesSecret(files: Files, layout: Layout, env: Env, target: Target,
                                                 newSecret: string)
    requires EnvValue(env, CurrentKey(target).name + "_FILE") != ""
    requires EnvValue(env, PreviousKey(target).name + "_FILE") == EnvValue(env, CurrentKey(target).name + "_FILE")
    requires IsTrimmed(newSecret)
    ensures var places := PlacesOf(layout, env, target);
            var after := ReadTarget(Staged(files, ReadTarget(files, places), newSecret), places);
            !KeptApart(files, places) && after.current.value == newSecret && after.previous.value == newSecret
  {
    hide Trim, EnvValue, ReadTarget, Staged, KeptApart;
    SharedPlaceLosesSecret(files, PlacesOf(layout, env, target), newSecret);
  }

  // ---- both targets, by name ----

  function Other(target: Target): Target {
    if target.Admin? then User else Admin
  }

  /** The variables and file names of the four secrets. */
  lemma {:induction false} NamesOfSecrets(target: Target)
    ensures CurrentKey(target) == if target.Admin? then SecretKey("ADMIN_JWT_SECRET", "admin_jwt_secret")
                                  else SecretKey("USER_JWT_SECRET", "user_jwt_secret")
    ensures PreviousKey(target) == if target.Admin? then
                                     SecretKey("ADMIN_JWT_SECRET_PREVIOUS", "admin_jwt_secret_previous")
                                   else SecretKey("USER_JWT_SECRET_PREVIOUS", "user_jwt_secret_previous")
  {}

  /** A file under the secret root. */
  function InRoot(layout: Layout, name: string): string {
    layout.At(layout.secretRoot + "/" + name)
  }

  /** All four secrets are under the secret root by default. */
  predicate OnlyInRoot(layout: Layout, env: Env) {
    layout.secretRoot != ""
    && EnvValue(env, "ADMIN_JWT_SECRET_FILE") == "" && EnvValue(env, "ADMIN_JWT_SECRET_PREVIOUS_FILE") == ""
    && EnvValue(env, "USER_JWT_SECRET_FILE") == "" && EnvValue(env, "USER_JWT_SECRET_PREVIOUS_FILE") == ""
  }

  /** ... which is one of the documented set-ups, as is naming the run-time paths. */
  lemma {:induction false} RootIsUsual(layout: Layout, env: Env, target: Target)
    requires OnlyInRoot(layout, env)
             || (EnvValue(env, "ADMIN_JWT_SECRET_FILE") == "/run/secrets/admin_jwt_secret"
                 && EnvValue(env, "ADMIN_JWT_SECRET_PREVIOUS_FILE") == "/run/secrets/admin_jwt_secret_previous"
                 && EnvValue(env, "USER_JWT_SECRET_FILE") == "/run/secrets/user_jwt_secret"
                 && EnvValue(env, "USER_JWT_SECRET_PREVIOUS_FILE") == "/run/secrets/user_jwt_secret_previous")
    ensures UsuallyPlaced(env, CurrentKey(target)) && UsuallyPlaced(env, PreviousKey(target))
  {
    hide EnvValue;
    FileVariables(target);
    RunTimePaths(target);
  }

  lemma {:induction false} FileVariables(target: Target)
    ensures CurrentKey(target).name + "_FILE"
         == if target.Admin? then "ADMIN_JWT_SECRET_FILE" else "USER_JWT_SECRET_FILE"
    ensures PreviousKey(target).name + "_FILE"
         == if target.Admin? then "ADMIN_JWT_SECRET_PREVIOUS_FILE" else "USER_JWT_SECRET_PREVIOUS_FILE"
  {
    if target.Admin? {
      assert "ADMIN_JWT_SECRET" + "_FILE" == "ADMIN_JWT_SECRET_FILE";
      assert "ADMIN_JWT_SECRET_PREVIOUS" + "_FILE" == "ADMIN_JWT_SECRET_PREVIOUS_FILE";
    } else {
      assert "USER_JWT_SECRET" + "_FILE" == "USER_JWT_SECRET_FILE";
      assert "USER_JWT_SECRET_PREVIOUS" + "_FILE" == "USER_JWT_SECRET_PREVIOUS_FILE";
    }
  }

  lemma {:induction false} RunTimePaths(target: Target)
    ensures RUN_SECRETS + CurrentKey(target).fallbackName
         == if target.Admin? then "/run/secrets/admin_jwt_secret" else "/run/secrets/user_jwt_secret"
    ensures RUN_SECRETS + PreviousKey(target).fallbackName
         == if target.Admin? then "/run/secrets/admin_jwt_secret_previous" else "/run/secrets/user_jwt_secret_previous"
  {
    if target.Admin? {
      assert RUN_SECRETS + "admin_jwt_secret" == "/run/secrets/admin_jwt_secret";
      assert RUN_SECRETS + "admin_jwt_secret_previous" == "/run/secrets/admin_jwt_secret_previous";
    } else {
      assert RUN_SECRETS + "user_jwt_secret" == "/run/secrets/user_jwt_secret";
      assert RUN_SECRETS + "user_jwt_secret_previous" == "/run/secrets/user_jwt_secret_previous";
    }
  }

  lemma {:induction false} PathsInRoot(files: Files, layout: Layout, env: Env, target: Target)
    requires OnlyInRoot(layout, env)
    ensures var state := ReadTarget(files, PlacesOf(layout, env, target));
            state.current.filePath == (match target
                                       case Admin => InRoot(layout, "admin_jwt_secret")
                                       case User => InRoot(layout, "user_jwt_secret"))
            && state.previous.filePath == (match target
                                           case Admin => InRoot(layout, "admin_jwt_secret_previous")
                                           case User => InRoot(layout, "user_jwt_secret_previous"))
            && state.current.filePath != "" && state.previous.filePath != ""
  {
    hide EnvValue, SecretPath, PlaceOf;
    ReadPaths(files, PlacesOf(layout, env, target));
    FileVariables(target);
    DefaultPathLeads(files, layout, env, CurrentKey(target));
    DefaultPathLeads(files, layout, env, PreviousKey(target));
  }

  /** The two files that a stage writes, by name: the new secret goes where the current one was, the old one to
      the file of the previous secret, each with a line break; every other file stays as it was. */
  lemma {:induction false} StageWritesNamedFiles(files: Files, layout: Layout, env: Env, target: Target,
                                                 newSecret: string)
    requires OnlyInRoot(layout, env) && IsTrimmed(newSecret)
    requires InRoot(layout, "admin_jwt_secret") != InRoot(layout, "admin_jwt_secret_previous")
    requires InRoot(layout, "user_jwt_secret") != InRoot(layout, "user_jwt_secret_previous")
    ensures var state := ReadTarget(files, PlacesOf(layout, env, target));
            var after := Staged(files, state, newSecret);
            var current := InRoot(layout, if target.Admin? then "admin_jwt_secret" else "user_jwt_secret");
            var previous := InRoot(layout, if target.Admin? then "admin_jwt_secret_previous"
                                           else "user_jwt_secret_previous");
            after == files[previous := state.current.value + "\n"][current := newSecret + "\n"]
            && (current in files ==> state.current.value == Trim(files[current]))
  {
    hide EnvValue, SecretPath, PlaceOf, Trim, InRoot;
    var state := ReadTarget(files, PlacesOf(layout, env, target));
    PathsInRoot(files, layout, env, target);
    ReadValueTrimmed(files, PlacesOf(layout, env, target).current);
    TrimFixesTrimmed(newSecret);
    TrimFixesTrimmed(state.current.value);
  }

  /** Reading a secret does not depend on a file that it can never be read from. */
  lemma {:induction false} ElsewhereChanged(files: Files, place: Place, path: string, text: string)
    requires path !in Candidates(place)
    ensures ReadSecret(files[path := text], place) == ReadSecret(files, place)
    ensures ReadSecret(files - {path}, place) == ReadSecret(files, place)
  {
    hide ReadSecret, Trim, Candidates, SecretPath;
    PathIsCandidate(files[path := ""], place);
    ReadAfterOtherWrite(files, place, path, text);
    PathIsCandidate((files - {path})[path := ""], place);
    ReadAfterOtherRemoval(files, place, path);
  }

  /** The four secrets have no location in common. */
  ghost predicate AllApart(layout: Layout, env: Env) {
    forall a: Target, b: Target ::
      (a != b ==> PlacesApart(layout, env, CurrentKey(a), CurrentKey(b))
                  && PlacesApart(layout, env, PreviousKey(a), PreviousKey(b)))
      && PlacesApart(layout, env, CurrentKey(a), PreviousKey(b))
  }

  predicate PlacesApart(layout: Layout, env: Env, a: SecretKey, b: SecretKey) {
    Candidates(PlaceOf(layout, env, a)) !! Candidates(PlaceOf(layout, env, b))
  }

  /** Then staging and finalizing one target leave the other target's secrets alone. */
  lemma {:induction false} OtherTargetStays(files: Files, layout: Layout, env: Env, target: Target, newSecret: string)
    requires AllApart(layout, env)
    ensures var state := ReadTarget(files, PlacesOf(layout, env, target));
            var others := PlacesOf(layout, env, Other(target));
            ReadTarget(Staged(files, state, newSecret), others) == ReadTarget(files, others)
            && ReadTarget(files - {state.previous.filePath}, others) == ReadTarget(files, others)
  {
    hide ReadSecret, Trim, Candidates, SecretPath, CurrentKey, PreviousKey, PlaceOf, WrittenText;
    var state := ReadTarget(files, PlacesOf(layout, env, target));
    var between := PreviousWritten(files, state);
    var c, p := state.current.filePath, state.previous.filePath;
    var others := PlacesOf(layout, env, Other(target));
    ReadPaths(files, PlacesOf(layout, env, target));
    PathIsCandidate(files, PlaceOf(layout, env, CurrentKey(target)));
    PathIsCandidate(files, PlaceOf(layout, env, PreviousKey(target)));
    assert PlacesApart(layout, env, CurrentKey(target), CurrentKey(Other(target)));
    assert PlacesApart(layout, env, PreviousKey(target), PreviousKey(Other(target)));
    assert PlacesApart(layout, env, CurrentKey(target), PreviousKey(Other(target)));
    assert PlacesApart(layout, env, CurrentKey(Other(target)), PreviousKey(target));
    ElsewhereChanged(files, others.current, p, WrittenText(state.current.value));
    ElsewhereChanged(files, others.previous, p, WrittenText(state.current.value));
    ElsewhereChanged(between, others.current, c, WrittenText(newSecret));
    ElsewhereChanged(between, others.previous, c, WrittenText(newSecret));
  }

  /** No link makes a usual path of one secret lead where a usual path of another secret leads. */
  ghost predicate NoLinks(layout: Layout, a: SecretKey, b: SecretKey) {
    forall x, y :: (x in UsualPaths(layout, a) && y in UsualPaths(layout, b) && layout.At(x) == layout.At(y)) ==> x == y
  }

  lemma {:induction false} UsualApart(layout: Layout, env: Env, a: SecretKey, b: SecretKey)
    requires layout.secretRoot != "" && UsuallyPlaced(env, a) && UsuallyPlaced(env, b)
    requires UsualPaths(layout, a) !! UsualPaths(layout, b) && NoLinks(layout, a, b)
    ensures PlacesApart(layout, env, a, b)
  {
    hide Candidates, UsualPaths, UsuallyPlaced, PlaceOf;
    UsualCandidates(layout, env, a);
    UsualCandidates(layout, env, b);
  }

  lemma {:induction false} EndsLikeAt(front: string, end: string, k: nat)
    requires 0 < k <= |end|
    ensures (front + end)[|front + end| - k] == end[|end| - k]
  {}

  /** File names that differ at some distance from the end stay different behind any directories. */
  lemma {:induction false} NamesDiffer(layout: Layout, a: SecretKey, b: SecretKey, k: nat)
    requires 0 < k <= |a.fallbackName| && k <= |b.fallbackName|
    requires a.fallbackName[|a.fallbackName| - k] != b.fallbackName[|b.fallbackName| - k]
    ensures UsualPaths(layout, a) !! UsualPaths(layout, b)
  {
    var x, y := a.fallbackName, b.fallbackName;
    EndsLikeAt(layout.secretRoot + "/", x, k);
    EndsLikeAt(RUN_SECRETS, x, k);
    EndsLikeAt(layout.secretRoot + "/", y, k);
    EndsLikeAt(RUN_SECRETS, y, k);
    assert UsualPaths(layout, a) == {layout.secretRoot + "/" + x, RUN_SECRETS + x};
    assert UsualPaths(layout, b) == {layout.secretRoot + "/" + y, RUN_SECRETS + y};
  }

  lemma {:induction false} FourNamesDiffer(layout: Layout, a: Target, b: Target)
    ensures a != b ==> UsualPaths(layout, CurrentKey(a)) !! UsualPaths(layout, CurrentKey(b))
    ensures a != b ==> UsualPaths(layout, PreviousKey(a)) !! UsualPaths(layout, PreviousKey(b))
    ensures UsualPaths(layout, CurrentKey(a)) !! UsualPaths(layout, PreviousKey(b))
  {
    hide UsualPaths;
    if a != b {
      NamesDiffer(layout, CurrentKey(a), CurrentKey(b), 12);
      NamesDiffer(layout, PreviousKey(a), PreviousKey(b), 21);
    }
    NamesDiffer(layout, CurrentKey(a), PreviousKey(b), 1);
  }

  /** In the documented set-ups the four secrets of both targets have no location in common. */
  lemma {:induction false} UsualSetUpAllApart(layout: Layout, env: Env)
    requires layout.secretRoot != ""
    requires forall target: Target ::
               UsuallyPlaced(env, CurrentKey(target)) && UsuallyPlaced(env, PreviousKey(target))
    requires forall a: Target, b: Target ::
               (a != b ==> NoLinks(layout, CurrentKey(a), CurrentKey(b))
                           && NoLinks(layout, PreviousKey(a), PreviousKey(b)))
               && NoLinks(layout, CurrentKey(a), PreviousKey(b))
    ensures AllApart(layout, env)
  {
    hide UsualPaths, UsuallyPlaced, NoLinks, CurrentKey, PreviousKey, PlacesApart;
    forall a: Target, b: Target
      ensures a != b ==> PlacesApart(layout, env, CurrentKey(a), CurrentKey(b))
                         && PlacesApart(layout, env, PreviousKey(a), PreviousKey(b))
      ensures PlacesApart(layout, env, CurrentKey(a), PreviousKey(b))
    {
      FourNamesDiffer(layout, a, b);
      if a != b {
        UsualApart(layout, env, CurrentKey(a), CurrentKey(b));
        UsualApart(layout, env, PreviousKey(a), PreviousKey(b));
      }
      UsualApart(layout, env, CurrentKey(a), PreviousKey(b));
    }
  }

  // ---- what the answers mean ----

  /** A stage is carried out exactly for a valid secret, with no other previous secret in the way unless
      forced, when it is to be applied and has both paths; and it is only planned exactly when all is well but
      the will to apply it. */
  lemma {:induction false} StageDoneIff(env: Env, target: Target, newSecret: string, state: TargetState, force: bool,
                                        apply: bool, outcome: Outcome)
    requires StageAnswer(env, target, newSecret, state, force, apply, outcome)
    ensures var admitted := ValidNewSecret(env, target, newSecret, state.current.value)
                            && (state.previous.value == "" || state.previous.value == state.current.value || force);
            (outcome == Done <==> admitted && apply && state.current.filePath != "" && state.previous.filePath != "")
            && (outcome == Planned <==> admitted && !apply)
            && outcome != NothingToDo
  {
    hide ValidNewSecret, RefusalFits;
  }
}
