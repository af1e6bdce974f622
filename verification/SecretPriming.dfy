/** Priming and the secret files together: hydration finds the files of secrets where the rotation tool reads
    them, and when the primed environment, which is all that the tool compares a new secret with, shows them. */
module SecretPriming {
  import opened JsText
  import opened SecretFiles
  import opened JwtRotation
  import OpsEnv
  import Separation = TargetSeparation

  /** The file system, the repository root, and how the secret root follows from its variables. */
  datatype Machine = Machine(files: Files, projectRoot: string, locate: string -> Location,
                             rootOf: OpsEnv.Roots -> string) {
    function LayoutFor(roots: OpsEnv.Roots): Layout {
      Layout(rootOf(roots), projectRoot, locate)
    }

    function LayoutIn(env: Env): Layout {
      LayoutFor(OpsEnv.RootsOf(env))
    }

    /** Where `resolveRuntimePath` leads. */
    function Resolve(roots: OpsEnv.Roots, path: string): string {
      LayoutFor(roots).At(ResolveRuntimePath(LayoutFor(roots), files, path))
    }

    /** The file system as hydration sees it. */
    function Disk(): OpsEnv.Disk {
      OpsEnv.Disk((roots, path) => Resolve(roots, path), files)
    }

    function Read(env: Env, key: SecretKey): ManagedSecret {
      ReadSecret(files, PlaceOf(LayoutIn(env), env, key))
    }
  }

  /** Hydration looks for the file of a secret where the tool reads and writes it. */
  lemma {:induction false} SameResolver(m: Machine, env: Env, key: SecretKey)
    requires OpsEnv.IsSet(env, OpsEnv.FileKey(key.name))
    ensures m.Disk().resolve(OpsEnv.RootsOf(env), env[OpsEnv.FileKey(key.name)]) == m.Read(env, key).filePath != ""
  {
    hide Trim, OpsEnv.RootsOf;
    var path := env[OpsEnv.FileKey(key.name)];
    assert EnvValue(env, key.name + "_FILE") == Trim(path);
    TrimFixesTrimmed(Trim(path));
  }

  /** The primed environment shows a secret as the tool reads it: its file was configured and its variable
      had no value, or there is no file, or the variable agrees with the file anyway. */
  predicate WillShow(m: Machine, before: Env, after: Env, key: SecretKey) {
    var path := m.Read(after, key).filePath;
    (OpsEnv.IsSet(before, OpsEnv.FileKey(key.name)) && !OpsEnv.IsSet(before, key.name))
    || path == "" || path !in m.files || Trim(m.files[path]) == EnvValue(before, key.name)
  }

  lemma {:induction false} ConfiguredStays(m: Machine, before: Env, after: Env, key: SecretKey)
    requires OpsEnv.IsHydrated(before, after, m.Disk(), before.Keys)
    requires m.LayoutIn(after) == m.LayoutIn(before)
    requires OpsEnv.IsSet(before, OpsEnv.FileKey(key.name))
    ensures m.Read(after, key).filePath == m.Read(before, key).filePath
  {
    hide Trim, OpsEnv.RootsOf, OpsEnv.FileKey;
    var name := OpsEnv.FileKey(key.name);
    assert name == key.name + "_FILE" by { FileKeyName(key.name); }
    assert OpsEnv.Get(after, name) == OpsEnv.HydratedValue(before, m.Disk(), before.Keys, name);
    assert EnvValue(after, name) == EnvValue(before, name);
  }

  lemma {:induction false} FileKeyName(name: string)
    ensures OpsEnv.FileKey(name) == name + "_FILE"
  {}

  /** Exactly then it does. */
  lemma {:induction false} PrimedShowsSecretIff(m: Machine, before: Env, after: Env, key: SecretKey)
    requires OpsEnv.IsHydrated(before, after, m.Disk(), before.Keys)
    requires m.LayoutIn(after) == m.LayoutIn(before)
    ensures EnvValue(after, key.name) == m.Read(after, key).value <==> WillShow(m, before, after, key)
  {
    hide Trim, OpsEnv.RootsOf, OpsEnv.FileKey, SecretPath;
    var path := m.Read(after, key).filePath;
    assert OpsEnv.Get(after, key.name) == OpsEnv.HydratedValue(before, m.Disk(), before.Keys, key.name);
    if OpsEnv.IsSet(before, OpsEnv.FileKey(key.name)) {
      SameResolver(m, before, key);
      ConfiguredStays(m, before, after, key);
      if path in m.files {
        TrimFixesTrimmed(Trim(m.files[path]));
      }
    }
  }

  /** The state of both targets as the tool reads it, with the other secrets as the environment has them. */
  function StateRead(m: Machine, env: Env): Separation.State {
    Separation.State(PairRead(m, env, Admin), PairRead(m, env, User),
                     Separation.Others(EnvValue(env, "AUTH_SECRET"), EnvValue(env, "NEXTAUTH_SECRET"),
                                       EnvValue(env, "ADMIN_MFA_ENCRYPTION_SECRET"),
                                       EnvValue(env, "ADMIN_MFA_BREAK_GLASS_SECRET"),
                                       EnvValue(env, "USER_MFA_ENCRYPTION_SECRET"),
                                       EnvValue(env, "HAND_HISTORY_EVIDENCE_SIGNING_SECRET"),
                                       EnvValue(env, "SAAS_REPORT_EXPORT_SIGNING_SECRET")),
                     Separation.Idle, {})
  }

  function PairRead(m: Machine, env: Env, target: Target): Separation.Pair {
    Separation.Pair(m.Read(env, CurrentKey(target)).value, m.Read(env, PreviousKey(target)).value)
  }

  predicate Shows(m: Machine, env: Env, key: SecretKey) {
    EnvValue(env, key.name) == m.Read(env, key).value
  }

  lemma {:induction false} MirrorsMeans(m: Machine, env: Env)
    ensures Separation.Mirrors(env, StateRead(m, env)) <==>
              Shows(m, env, CurrentKey(Admin)) && Shows(m, env, PreviousKey(Admin))
              && Shows(m, env, CurrentKey(User)) && Shows(m, env, PreviousKey(User))
  {
    hide EnvValue, ReadSecret, PlaceOf;
  }

  predicate WillShowAll(m: Machine, before: Env, after: Env) {
    WillShow(m, before, after, CurrentKey(Admin)) && WillShow(m, before, after, PreviousKey(Admin))
    && WillShow(m, before, after, CurrentKey(User)) && WillShow(m, before, after, PreviousKey(User))
  }

  /** The checks of the tool see both targets' secrets as their files hold them exactly when priming makes all
      four of them show. */
  lemma {:induction false} MirrorsIff(m: Machine, before: Env, after: Env)
    requires OpsEnv.IsHydrated(before, after, m.Disk(), before.Keys)
    requires m.LayoutIn(after) == m.LayoutIn(before)
    ensures Separation.Mirrors(after, StateRead(m, after)) <==> WillShowAll(m, before, after)
  {
    hide WillShow, Shows, OpsEnv.IsHydrated, CurrentKey, PreviousKey, Separation.Mirrors, StateRead;
    MirrorsMeans(m, after);
    ShowsIff(m, before, after, CurrentKey(Admin));
    ShowsIff(m, before, after, PreviousKey(Admin));
    ShowsIff(m, before, after, CurrentKey(User));
    ShowsIff(m, before, after, PreviousKey(User));
  }

  lemma {:induction false} ShowsIff(m: Machine, before: Env, after: Env, key: SecretKey)
    requires OpsEnv.IsHydrated(before, after, m.Disk(), before.Keys)
    requires m.LayoutIn(after) == m.LayoutIn(before)
    ensures Shows(m, after, key) <==> WillShow(m, before, after, key)
  {
    PrimedShowsSecretIff(m, before, after, key);
  }

  /** Secrets that the environment does not show are not compared: with the files only in the secret root and
      no variable set, the tool stages the user's secret for the admins. */
  lemma {:induction false} HiddenSecretIsStaged(m: Machine, env: Env, newSecret: string)
    requires forall i :: 0 <= i < |ComparedNames(Admin)| ==> EnvValue(env, ComparedNames(Admin)[i]) == ""
    requires newSecret == m.Read(env, CurrentKey(User)).value && 32 <= Utf16Length(newSecret)
    requires m.Read(env, CurrentKey(Admin)).value != "" && m.Read(env, CurrentKey(Admin)).value != newSecret
    requires KeptApart(m.files, PlacesOf(m.LayoutIn(env), env, Admin))
    ensures var places := PlacesOf(m.LayoutIn(env), env, Admin);
            var state := ReadTarget(m.files, places);
            ValidNewSecret(env, Admin, newSecret, state.current.value)
            && ReadTarget(Staged(m.files, state, newSecret), places).current.value
               == m.Read(env, CurrentKey(User)).value
  {
    hide ReadSecret, KeptApart, Staged, PlaceOf, EnvValue, ComparedNames;
    assert Utf16Length("") == 0;
    assert IsTrimmed(newSecret) by {
      ReadValueTrimmed(m.files, PlaceOf(m.LayoutIn(env), env, CurrentKey(User)));
    }
    AfterStage(m.files, PlacesOf(m.LayoutIn(env), env, Admin), newSecret);
  }
}
