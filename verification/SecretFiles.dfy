/** The managed secret files of scripts/ops/_shared.ts: where a secret lives, and reading, writing and
    removing it.  Different paths may lead to the same file; the directory that holds the secrets is given. */
module SecretFiles {
  import opened JsText

  /** Where a path leads, dot segments and links followed. */
  type Location = s: string | s != "" witness "/"

  /** Texts by location. */
  type Files = map<string, string>
  type Env = map<string, string>

  /** The answer of `resolveSecretRoot` (empty when there is none), the repository root, and the locations
      of paths. */
  datatype Layout = Layout(secretRoot: string, projectRoot: string, locate: string -> Location) {
    /** No path leads nowhere. */
    function At(path: string): string {
      if path == "" then "" else locate(path)
    }
  }

  /** A secret: its environment variable, and its file name under the secret root.  The variable that
      points to a file is called `name + "_FILE"`. */
  datatype SecretKey = SecretKey(name: string, fallbackName: string)

  /** `filePath` is the location of the path that the tool resolved. */
  datatype ManagedSecret = ManagedSecret(filePath: string, value: string)

  const RUN_SECRETS := "/run/secrets/"

  type Trimmed = s: string | IsTrimmed(s)

  function EnvValue(env: Env, name: string): Trimmed {
    if name in env then Trim(env[name]) else ""
  }

  function JoinPath(dir: string, name: string): string {
    dir + "/" + name
  }

  function ResolveFrom(root: string, path: string): string {
    if "/" <= path then path else JoinPath(root, path)
  }

  function ResolveRuntimePath(layout: Layout, files: Files, filePath: string): string {
    var trimmed := Trim(filePath);
    if trimmed == "" then ""
    else if layout.At(trimmed) in files then trimmed
    else if RUN_SECRETS <= trimmed && layout.secretRoot != "" then
      JoinPath(layout.secretRoot, trimmed[|RUN_SECRETS|..])
    else if layout.At(ResolveFrom(layout.projectRoot, trimmed)) in files then
      ResolveFrom(layout.projectRoot, trimmed)
    else trimmed
  }

  /** All that the environment and the layout say about a secret; each part is empty when absent: the
      location configured for its file, the one that it is mapped to when it is a run-time path without a
      file, the one relative to the repository, the one under the secret root, and the variable's own value. */
  datatype Place = Place(configured: string, mapped: string, relative: string, fallback: string, shown: Trimmed)

  function PlaceOf(layout: Layout, env: Env, key: SecretKey): Place {
    var configured := EnvValue(env, key.name + "_FILE");
    Place(layout.At(configured),
          if RUN_SECRETS <= configured && layout.secretRoot != "" then
            layout.At(JoinPath(layout.secretRoot, configured[|RUN_SECRETS|..]))
          else "",
          layout.At(ResolveFrom(layout.projectRoot, configured)),
          if layout.secretRoot != "" then layout.At(JoinPath(layout.secretRoot, key.fallbackName)) else "",
          EnvValue(env, key.name))
  }

  /** Where the secret is read and written. */
  function SecretPath(files: Files, place: Place): string {
    if place.configured == "" then place.fallback
    else if place.configured in files then place.configured
    else if place.mapped != "" then place.mapped
    else if place.relative in files then place.relative
    else place.configured
  }

  function ReadSecret(files: Files, place: Place): ManagedSecret {
    var path := SecretPath(files, place);
    ManagedSecret(path, if path == "" || path !in files then place.shown else Trim(files[path]))
  }

  function WrittenText(value: string): string {
    Trim(value) + "\n"
  }

  /** One operations process: the file system it works on, and its fixed environment. */
  class OpsHost {
    var files: Files
    const env: Env
    const layout: Layout

    constructor (files: Files, env: Env, layout: Layout)
      ensures this.files == files && this.env == env && this.layout == layout
    {
      this.files, this.env, this.layout := files, env, layout;
    }

    method ReadManagedSecretFile(key: SecretKey) returns (secret: ManagedSecret)
      ensures secret == ReadSecret(files, PlaceOf(layout, env, key))
    {
      hide Trim;
      TrimFixesTrimmed(EnvValue(env, key.name + "_FILE"));
      var configuredPath := EnvValue(env, key.name + "_FILE");
      var fallbackPath := if layout.secretRoot != "" then JoinPath(layout.secretRoot, key.fallbackName) else "";
      var resolvedPath :=
        if configuredPath != "" then ResolveRuntimePath(layout, files, configuredPath) else fallbackPath;
      var location := layout.At(resolvedPath);
      if location == "" || location !in files {
        return ManagedSecret(location, EnvValue(env, key.name));
      }
      return ManagedSecret(location, Trim(files[location]));
    }

    method WriteManagedSecretFile(filePath: string, value: string)
      modifies this
      ensures files == old(files)[filePath := WrittenText(value)]
    {
      files := files[filePath := Trim(value) + "\n"];
    }

    method RemoveManagedSecretFile(filePath: string)
      modifies this
      ensures files == old(files) - {filePath}
    {
      files := files - {filePath};
    }
  }

  // ---- what a write or a removal does to later reads ----

  /** The text that a write leaves behind reads as the trimmed value. */
  lemma {:induction false} WrittenTextTrims(value: string)
    ensures Trim(WrittenText(value)) == Trim(value)
  {
    TrimDropsTrailing(Trim(value), '\n');
    TrimFixesTrimmed(Trim(value));
  }

  /** Creating a file moves a secret at most onto that file. */
  lemma {:induction false} PathAfterWrite(files: Files, place: Place, path: string,
                                          text: string)
    ensures var moved := SecretPath(files[path := text], place);
            moved == SecretPath(files, place) || moved == path
    ensures path == SecretPath(files, place) ==>
            SecretPath(files[path := text], place) == path
  {
    hide Trim;
  }

  /** Writing a secret where it lives, then reading it, gives the trimmed value from the same path. */
  lemma {:induction false} ReadAfterWrite(files: Files, place: Place, value: string)
    requires SecretPath(files, place) != ""
    ensures var path := SecretPath(files, place);
            ReadSecret(files[path := WrittenText(value)], place) == ManagedSecret(path, Trim(value))
  {
    var path := SecretPath(files, place);
    PathAfterWrite(files, place, path, WrittenText(value));
    WrittenTextTrims(value);
  }

  /** Does `path`, if it exists, get between the secret and the place it is read from now? */
  predicate Shadows(files: Files, place: Place, path: string) {
    SecretPath(files[path := ""], place) == path
  }

  /** Writing a file that does not shadow a secret leaves that secret alone, path and value. */
  lemma {:induction false} ReadAfterOtherWrite(files: Files, place: Place,
                                               path: string, text: string)
    requires !Shadows(files, place, path)
    ensures ReadSecret(files[path := text], place) == ReadSecret(files, place)
  {
    PathIgnoresText(files, place, path, text);
    PathAfterWrite(files, place, path, text);
  }

  lemma {:induction false} PathIgnoresText(files: Files, place: Place,
                                           path: string, text: string)
    ensures SecretPath(files[path := text], place) == SecretPath(files[path := ""], place)
  {
    hide Trim;
    assert files[path := text].Keys == files[path := ""].Keys;
  }

  /** The file that comes to light when the configured one is removed. */
  function Behind(place: Place): string {
    if place.mapped != "" then place.mapped else place.relative
  }

  /** After its file was removed, a secret reads as its variable shows it; only when the removed file was the
      one configured can another file take its place, the one behind it. */
  lemma {:induction false} ReadAfterRemoval(files: Files, place: Place)
    ensures var path := SecretPath(files, place);
            var left := files - {path};
            ReadSecret(left, place).value
            == if path == place.configured != "" && Behind(place) in left && Behind(place) != "" then
                 Trim(files[Behind(place)])
               else place.shown
  {
    hide Trim;
  }

  /** Removing a file that a secret is not read from, and that would not shadow it, leaves the secret alone. */
  lemma {:induction false} ReadAfterOtherRemoval(files: Files, place: Place, path: string)
    requires !Shadows(files - {path}, place, path)
    ensures ReadSecret(files - {path}, place) == ReadSecret(files, place)
  {
    if path in files {
      assert files == (files - {path})[path := files[path]];
      ReadAfterOtherWrite(files - {path}, place, path, files[path]);
    } else {
      assert files - {path} == files;
    }
  }

  // ---- where paths lead ----

  /** A variable that is not set reads as nothing, and any other one without the white space at its ends. */
  lemma {:induction false} EnvValueIs(env: Env, name: string, front: string, value: string, back: string)
    requires name in env ==> env[name] == front + value + back && AllSpace(front) && AllSpace(back) && IsTrimmed(value)
    ensures EnvValue(env, name) == if name in env then value else ""
  {
    if name in env { TrimIsInner(front, value, back); }
  }

  /** A run-time path leads to its own file if there is one, and else into the secret root. */
  lemma {:induction false} RunTimePathLeads(files: Files, layout: Layout, env: Env, key: SecretKey, name: string)
    requires EnvValue(env, key.name + "_FILE") == "/run/secrets/" + name && layout.secretRoot != ""
    ensures SecretPath(files, PlaceOf(layout, env, key))
         == if layout.At("/run/secrets/" + name) in files then layout.At("/run/secrets/" + name)
            else layout.At(layout.secretRoot + "/" + name)
  {
    var configured := "/run/secrets/" + name;
    assert configured[|RUN_SECRETS|..] == name;
    assert layout.secretRoot + "/" + name != "";
  }

  /** Any other path leads to its own file, to the one relative to the repository, or to where one could be. */
  lemma {:induction false} OtherPathLeads(files: Files, layout: Layout, env: Env, key: SecretKey)
    requires var configured := EnvValue(env, key.name + "_FILE");
             configured != "" && !("/run/secrets/" <= configured && layout.secretRoot != "")
    ensures var configured := EnvValue(env, key.name + "_FILE");
            var relative := if configured[0] == '/' then configured else layout.projectRoot + "/" + configured;
            SecretPath(files, PlaceOf(layout, env, key))
            == if layout.At(configured) in files then layout.At(configured)
               else if layout.At(relative) in files then layout.At(relative)
               else layout.At(configured)
  {
    hide EnvValue;
  }

  /** Without a configured path the secret is under the secret root. */
  lemma {:induction false} DefaultPathLeads(files: Files, layout: Layout, env: Env, key: SecretKey)
    requires EnvValue(env, key.name + "_FILE") == ""
    ensures SecretPath(files, PlaceOf(layout, env, key))
         == if layout.secretRoot == "" then "" else layout.At(layout.secretRoot + "/" + key.fallbackName)
  {
    hide EnvValue;
  }
}
