/** `primeOpsEnvironment` of scripts/ops/_shared.ts: environment files are loaded in order, and variables
    that point to files are replaced by the files' contents.

    The path resolver is given; like the one in the code it depends on the three variables that the secret
    root is looked up from. */
module OpsEnv {
  import opened JsText
  import opened EnvFile

  type Env = map<string, string>

  // ---- first definition wins ----

  /** Definitions processed one after the other: a variable that is set keeps its value. */
  function Loaded(env: Env, defs: seq<Definition>): Env
    decreases |defs|
  {
    if defs == [] then env
    else Loaded(if defs[0].key in env then env else env[defs[0].key := defs[0].value], defs[1..])
  }

  function FirstValue(defs: seq<Definition>, key: string): Option<string> {
    if defs == [] then None
    else if defs[0].key == key then Some(defs[0].value)
    else FirstValue(defs[1..], key)
  }

  /** The value a variable ends with: the one it had, else that of its first definition, else none. */
  function Settled(env: Env, defs: seq<Definition>, key: string): Option<string> {
    if key in env then Some(env[key]) else FirstValue(defs, key)
  }

  function Get(env: Env, key: string): Option<string> {
    if key in env then Some(env[key]) else None
  }

  /** Loading is the same as giving every variable its first definition. */
  lemma {:induction false} FirstDefinitionWins(env: Env, defs: seq<Definition>, key: string)
    ensures Get(Loaded(env, defs), key) == Settled(env, defs, key)
    decreases |defs|
  {
    if defs != [] {
      FirstDefinitionWins(if defs[0].key in env then env else env[defs[0].key := defs[0].value], defs[1..], key);
    }
  }

  lemma {:induction false} NothingLoaded(env: Env)
    ensures Loaded(env, []) == env
  {}

  lemma {:induction false} LoadedConcat(env: Env, a: seq<Definition>, b: seq<Definition>)
    ensures Loaded(env, a + b) == Loaded(Loaded(env, a), b)
    decreases |a|
  {
    if a == [] {
      assert a + b == b;
    } else {
      assert (a + b)[1..] == a[1..] + b;
      LoadedConcat(if a[0].key in env then env else env[a[0].key := a[0].value], a[1..], b);
    }
  }

  /** Every key defined in `defs` is set. */
  ghost predicate Covers(env: Env, defs: seq<Definition>) {
    forall i :: 0 <= i < |defs| ==> defs[i].key in env
  }

  lemma {:induction false} CoveredLoadsNothing(env: Env, defs: seq<Definition>)
    requires Covers(env, defs)
    ensures Loaded(env, defs) == env
    decreases |defs|
  {
    if defs != [] {
      CoveredLoadsNothing(env, defs[1..]);
    }
  }

  lemma {:induction false} LoadedCovers(env: Env, defs: seq<Definition>)
    ensures Covers(Loaded(env, defs), defs)
    ensures env.Keys <= Loaded(env, defs).Keys
    decreases |defs|
  {
    if defs != [] {
      LoadedCovers(if defs[0].key in env then env else env[defs[0].key := defs[0].value], defs[1..]);
    }
  }

  lemma {:induction false} CoversMore(env: Env, more: Env, defs: seq<Definition>)
    requires Covers(env, defs) && env.Keys <= more.Keys
    ensures Covers(more, defs)
  {}

  /** Loading the definitions of some lines begins with the first line. */
  lemma {:induction false} LoadedLine(env: Env, lines: seq<string>)
    requires lines != []
    ensures Loaded(env, ParseLines(lines))
         == match ParseLine(lines[0])
            case None => Loaded(env, ParseLines(lines[1..]))
            case Some(def) =>
              Loaded(if def.key in env then env else env[def.key := def.value], ParseLines(lines[1..]))
  {
    hide ParseLine;
    var rest := ParseLines(lines[1..]);
    if ParseLine(lines[0]).Some? {
      assert ([ParseLine(lines[0]).value] + rest)[1..] == rest;
    }
  }

  lemma {:induction false} NoLines(env: Env)
    ensures Loaded(env, ParseLines([])) == env
  {}

  // ---- which files ----

  /** Where the first piece of a list ends. */
  function ListCut(text: string): (cut: nat)
    ensures cut <= |text|
  {
    if IndexOf(text, ',') < IndexOf(text, '\n') then IndexOf(text, ',') else IndexOf(text, '\n')
  }

  function SplitList(text: string): seq<string>
    decreases |text|
  {
    var cut := ListCut(text);
    var piece := Trim(text[..cut]);
    (if piece != "" then [piece] else []) + (if cut < |text| then SplitList(text[cut + 1..]) else [])
  }

  function Unique(names: seq<string>): (r: seq<string>)
    ensures forall n :: n in r <==> n in names
    ensures forall i, j :: 0 <= i < j < |r| ==> r[i] != r[j]
    decreases |names|
  {
    if names == [] then []
    else
      var front := Unique(names[..|names| - 1]);
      assert names == names[..|names| - 1] + [names[|names| - 1]];
      if names[|names| - 1] in front then front else front + [names[|names| - 1]]
  }

  function JoinWith(names: seq<string>, c: char): string {
    if names == [] then "" else if |names| == 1 then names[0] else names[0] + [c] + JoinWith(names[1..], c)
  }

  /** Names that a list can carry: trimmed, not empty, without separators. */
  ghost predicate Listable(names: seq<string>) {
    forall i :: 0 <= i < |names| ==>
      names[i] != "" && IsTrimmed(names[i]) && ',' !in names[i] && '\n' !in names[i]
  }

  lemma {:induction false} SplitOff(name: string, c: char, rest: string)
    requires name != "" && IsTrimmed(name) && ',' !in name && '\n' !in name
    requires c == ',' || c == '\n'
    ensures SplitList(name + [c] + rest) == [name] + SplitList(rest)
  {
    var text := name + [c] + rest;
    IndexOfFirst(name, c, rest);
    TrimFixesTrimmed(name);
    assert text[..|name|] == name && text[|name| + 1..] == rest;
    var other := if c == ',' then '\n' else ',';
    NotBefore(name, text, other);
  }

  lemma {:induction false} NotBefore(name: string, text: string, c: char)
    requires name <= text && c !in name
    ensures |name| <= IndexOf(text, c)
  {
    assert forall i :: 0 <= i < |name| ==> text[i] == name[i];
  }

  lemma {:induction false} SplitNothing()
    ensures SplitList("") == []
  {}

  lemma {:induction false} SplitSingle(name: string)
    requires name != "" && IsTrimmed(name) && ',' !in name && '\n' !in name
    ensures SplitList(name) == [name]
  {
    NotBefore(name, name, ',');
    NotBefore(name, name, '\n');
    TrimFixesTrimmed(name);
    assert name[..|name|] == name;
  }

  /** A list written with commas or line breaks is read back name by name. */
  lemma {:induction false} SplitUndoesJoin(names: seq<string>, c: char)
    requires Listable(names) && (c == ',' || c == '\n')
    ensures SplitList(JoinWith(names, c)) == names
    decreases |names|
  {
    hide SplitList;
    if names == [] {
      SplitNothing();
    } else if |names| == 1 {
      SplitSingle(names[0]);
    } else {
      SplitOff(names[0], c, JoinWith(names[1..], c));
      SplitUndoesJoin(names[1..], c);
    }
  }

  /** A list is read piece by piece: a comma or a line break separates, and a piece is dropped when it is blank
      and trimmed when it is not. */
  lemma {:induction false} SplitListPieces(front: string, c: char, rest: string)
    requires c == ',' || c == '\n'
    ensures SplitList(front + [c] + rest) == SplitList(front) + SplitList(rest)
    ensures ',' !in front && '\n' !in front ==> SplitList(front) == if Trim(front) == "" then [] else [Trim(front)]
    decreases |front|
  {
    hide SplitList, ListCut, Trim;
    var cut, text := ListCut(front), front + [c] + rest;
    CutAt(front, c, rest);
    SlicesAt(front, c, rest, cut);
    SplitListStep(text);
    SplitListStep(front);
    if cut < |front| {
      SplitListPieces(front[cut + 1..], c, rest);
    }
  }

  lemma {:induction false} SlicesAt(front: string, c: char, rest: string, cut: nat)
    requires cut <= |front|
    ensures var text := front + [c] + rest;
            text[..cut] == front[..cut]
            && text[cut + 1..] == if cut < |front| then front[cut + 1..] + [c] + rest else rest
    ensures front[..|front|] == front
  {}

  lemma {:induction false} SplitListStep(text: string)
    ensures var cut := ListCut(text);
            SplitList(text) == (if Trim(text[..cut]) != "" then [Trim(text[..cut])] else [])
                               + (if cut < |text| then SplitList(text[cut + 1..]) else [])
  {}

  lemma {:induction false} CutAt(front: string, c: char, rest: string)
    requires c == ',' || c == '\n'
    ensures ListCut(front + [c] + rest) == ListCut(front)
    ensures ',' !in front && '\n' !in front ==> ListCut(front) == |front|
    ensures ListCut(front) < |front| ==> ',' in front || '\n' in front
  {
    hide IndexOf;
    FirstKept(front, c, rest, ',');
    FirstKept(front, c, rest, '\n');
  }

  lemma {:induction false} FirstKept(front: string, c: char, rest: string, x: char)
    ensures var text := front + [c] + rest;
            if IndexOf(front, x) < |front| then IndexOf(text, x) == IndexOf(front, x)
            else if x == c then IndexOf(text, x) == |front| else IndexOf(text, x) > |front|
  {
    hide IndexOf;
    var text := front + [c] + rest;
    var i, k := IndexOf(front, x), IndexOf(text, x);
    assert forall j :: 0 <= j < |front| ==> text[j] == front[j];
    assert text[|front|] == c;
    assert forall j :: 0 <= j < i ==> front[j] != x by {
      assert forall j :: 0 <= j < i ==> front[j] == front[..i][j];
    }
    assert forall j :: 0 <= j < k ==> text[j] != x by {
      assert forall j :: 0 <= j < k ==> text[j] == text[..k][j];
    }
  }

  lemma {:induction false} NothingUnique()
    ensures Unique([]) == []
  {}

  lemma {:induction false} UniqueFixesDistinct(names: seq<string>)
    requires forall i, j :: 0 <= i < j < |names| ==> names[i] != names[j]
    ensures Unique(names) == names
  {
    if names != [] {
      var front := names[..|names| - 1];
      UniqueFixesDistinct(front);
      assert names == front + [names[|names| - 1]];
    }
  }

  /** Which files are loaded: the default ones exactly when neither variable names any; and else what is listed
      in `OPS_ENV_FILES`, followed by the one in `OPS_ENV_FILE`, each once. */
  lemma {:induction false} EnvFilesChosen(env: Env, defaults: seq<string>, listed: seq<string>, single: seq<string>)
    requires listed == if "OPS_ENV_FILES" in env then SplitList(env["OPS_ENV_FILES"]) else []
    requires single == if "OPS_ENV_FILE" !in env || env["OPS_ENV_FILE"] == "" then [] else [env["OPS_ENV_FILE"]]
    ensures listed == [] && single == [] ==> EnvFiles(env, defaults) == defaults
    ensures listed != [] || single != [] ==>
              forall name :: name in EnvFiles(env, defaults) <==> name in listed || name in single
    ensures listed + single != [] && (forall i, j :: 0 <= i < j < |listed + single| ==>
              (listed + single)[i] != (listed + single)[j]) ==>
              EnvFiles(env, defaults) == listed + single
  {
    hide SplitList, Unique;
    var explicit := Unique(listed + single);
    if listed + single == [] {
      NothingUnique();
    } else {
      assert (listed + single)[0] in explicit;
    }
    if forall i, j :: 0 <= i < j < |listed + single| ==> (listed + single)[i] != (listed + single)[j] {
      UniqueFixesDistinct(listed + single);
    }
  }

  const DEFAULT_ENV_FILES := [".env.d/compose.env", ".env.d/backend.env", ".env.d/frontend.env", ".env.d/admin.env",
                              "apps/backend/.env", "apps/frontend/.env", "apps/admin/.env", "apps/mobile/.env"]

  function DefaultEnvFiles(projectRoot: string): seq<string> {
    seq(|DEFAULT_ENV_FILES|, i requires 0 <= i < |DEFAULT_ENV_FILES| => projectRoot + "/" + DEFAULT_ENV_FILES[i])
  }

  lemma {:induction false} DefaultsInOrder(projectRoot: string, i: nat)
    requires i < 8
    ensures |DefaultEnvFiles(projectRoot)| == 8
    ensures DefaultEnvFiles(projectRoot)[i]
         == projectRoot + "/" + [".env.d/compose.env", ".env.d/backend.env", ".env.d/frontend.env", ".env.d/admin.env",
                                 "apps/backend/.env", "apps/frontend/.env", "apps/admin/.env", "apps/mobile/.env"][i]
  {}

  /** The files that are loaded: those the environment names, else the default ones. */
  function EnvFiles(env: Env, defaults: seq<string>): seq<string> {
    var listed := if "OPS_ENV_FILES" in env then SplitList(env["OPS_ENV_FILES"]) else [];
    var single := if "OPS_ENV_FILE" in env && env["OPS_ENV_FILE"] != "" then [env["OPS_ENV_FILE"]] else [];
    var explicit := Unique(listed + single);
    if explicit != [] then explicit else defaults
  }

  // ---- hydration ----

  const FILE_SUFFIX := "_FILE"

  predicate NamesFile(key: string) {
    |FILE_SUFFIX| <= |key| && key[|key| - |FILE_SUFFIX|..] == FILE_SUFFIX
  }

  function FileKey(target: string): string {
    target + FILE_SUFFIX
  }

  function TargetOf(key: string): (target: string)
    requires NamesFile(key)
    ensures FileKey(target) == key
  {
    key[..|key| - |FILE_SUFFIX|]
  }

  predicate IsSet(env: Env, key: string) {
    key in env && Trim(env[key]) != ""
  }

  /** The variables that decide where the secret root is; unset and empty are the same. */
  datatype Roots = Roots(secretsDir: string, deployPath: string, deployEnvironment: string)

  const ROOT_NAMES: set<string> := {"OPS_SECRETS_DIR", "DEPLOY_PATH", "DEPLOY_ENVIRONMENT"}

  function TextOf(env: Env, key: string): string {
    if key in env then env[key] else ""
  }

  function RootsOf(env: Env): Roots {
    Roots(TextOf(env, "OPS_SECRETS_DIR"), TextOf(env, "DEPLOY_PATH"), TextOf(env, "DEPLOY_ENVIRONMENT"))
  }

  /** The file system as hydration sees it: where a path leads, and what is there. */
  datatype Disk = Disk(resolve: (Roots, string) -> string, texts: map<string, string>)

  /** Is `target` given the text of a file, in an environment that has not been hydrated? */
  predicate Hydrates(env: Env, disk: Disk, target: string) {
    IsSet(env, FileKey(target)) && !IsSet(env, target)
    && disk.resolve(RootsOf(env), env[FileKey(target)]) in disk.texts
  }

  function FileValue(env: Env, disk: Disk, target: string): string
    requires Hydrates(env, disk, target)
  {
    Trim(disk.texts[disk.resolve(RootsOf(env), env[FileKey(target)])])
  }

  /** Hydration leaves the secret root where it is. */
  ghost predicate RootsStay(env: Env, disk: Disk) {
    forall name :: name in ROOT_NAMES ==> !Hydrates(env, disk, name)
  }

  /** One step of the loop: the file variable `key` of the snapshot is looked at. */
  function HydrateOne(env: Env, snapshot: Env, disk: Disk, key: string): Env
    requires key in snapshot
  {
    if !NamesFile(key) || Trim(snapshot[key]) == "" || IsSet(env, TargetOf(key)) then env
    else
      var path := disk.resolve(RootsOf(env), snapshot[key]);
      if path !in disk.texts then env else env[TargetOf(key) := Trim(disk.texts[path])]
  }

  /** The whole loop, with the variables in this order. */
  function HydratedAlong(env: Env, snapshot: Env, disk: Disk, order: seq<string>): Env
    requires forall key :: key in order ==> key in snapshot
    decreases |order|
  {
    if order == [] then env
    else HydratedAlong(HydrateOne(env, snapshot, disk, order[0]), snapshot, disk, order[1..])
  }

  /** `order` goes through every variable once. */
  ghost predicate Enumerates(order: seq<string>, env: Env) {
    (forall key :: key in order <==> key in env)
    && forall i, j :: 0 <= i < j < |order| ==> order[i] != order[j]
  }

  function HydratedValue(env: Env, disk: Disk, keys: set<string>, target: string): Option<string> {
    if FileKey(target) in keys && Hydrates(env, disk, target) then Some(FileValue(env, disk, target))
    else Get(env, target)
  }

  /** `after` is `before` hydrated with the file variables in `keys`: every variable gets the text of its
      file exactly when it had no value before, and keeps what it had otherwise. */
  ghost predicate IsHydrated(before: Env, after: Env, disk: Disk, keys: set<string>) {
    forall target :: Get(after, target) == HydratedValue(before, disk, keys, target)
  }

  /** The condition leaves no choice, so the order in which variables are looked at cannot matter. */
  lemma {:induction false} HydrationIsDetermined(before: Env, a: Env, b: Env, disk: Disk, keys: set<string>)
    requires IsHydrated(before, a, disk, keys) && IsHydrated(before, b, disk, keys)
    ensures a == b
  {
    hide HydratedValue;
    forall target ensures Get(a, target) == Get(b, target) {
      assert Get(a, target) == HydratedValue(before, disk, keys, target);
    }
    forall target ensures target in a <==> target in b {
      assert Get(a, target) == Get(b, target);
    }
    forall target | target in a ensures a[target] == b[target] {
      assert Get(a, target) == Get(b, target);
    }
  }

  lemma {:induction false} FileKeyInjective(a: string, b: string)
    requires FileKey(a) == FileKey(b)
    ensures a == b
  {
    assert a == FileKey(a)[..|a|];
    assert b == FileKey(b)[..|b|];
  }

  lemma {:induction false} FileKeyNamesFile(target: string)
    ensures NamesFile(FileKey(target)) && TargetOf(FileKey(target)) == target
  {
    assert FileKey(target)[|target|..] == FILE_SUFFIX;
  }

  /** Before its own file variable is looked at, a target still has the value it started with. */
  lemma {:induction false} TargetUntouched(before: Env, now: Env, disk: Disk, seen: set<string>, target: string)
    requires IsHydrated(before, now, disk, seen) && FileKey(target) !in seen
    ensures Get(now, target) == Get(before, target)
    ensures IsSet(now, target) <==> IsSet(before, target)
  {
    hide Trim, Hydrates;
    assert Get(now, target) == HydratedValue(before, disk, seen, target);
  }

  /** A variable that does not hydrate a target changes nothing. */
  lemma {:induction false} LookedAtInVain(before: Env, now: Env, disk: Disk, seen: set<string>, key: string)
    requires IsHydrated(before, now, disk, seen)
    requires NamesFile(key) ==> !Hydrates(before, disk, TargetOf(key))
    ensures IsHydrated(before, now, disk, seen + {key})
  {
    hide Hydrates;
    forall target ensures Get(now, target) == HydratedValue(before, disk, seen + {key}, target) {
      assert Get(now, target) == HydratedValue(before, disk, seen, target);
      if FileKey(target) == key {
        FileKeyNamesFile(target);
      }
    }
  }

  lemma {:induction false} LookedAtWithEffect(before: Env, now: Env, disk: Disk, seen: set<string>, target: string)
    requires IsHydrated(before, now, disk, seen)
    requires Hydrates(before, disk, target)
    ensures IsHydrated(before, now[target := FileValue(before, disk, target)], disk, seen + {FileKey(target)})
  {
    hide Hydrates, FileValue;
    var next := now[target := FileValue(before, disk, target)];
    forall t ensures Get(next, t) == HydratedValue(before, disk, seen + {FileKey(target)}, t) {
      assert Get(now, t) == HydratedValue(before, disk, seen, t);
      if FileKey(t) == FileKey(target) {
        FileKeyInjective(t, target);
      }
    }
  }

  // ---- when the order of the variables does not matter ----

  /** The file variables that can move the secret root. */
  const ROOT_KEYS: set<string> := {FileKey("OPS_SECRETS_DIR"), FileKey("DEPLOY_PATH"), FileKey("DEPLOY_ENVIRONMENT")}

  function TextWith(env: Env, disk: Disk, seen: set<string>, name: string): string {
    match HydratedValue(env, disk, seen, name)
    case None => ""
    case Some(text) => text
  }

  /** The roots once the file variables in `seen` have been looked at. */
  function RootsWith(env: Env, disk: Disk, seen: set<string>): Roots {
    Roots(TextWith(env, disk, seen, "OPS_SECRETS_DIR"), TextWith(env, disk, seen, "DEPLOY_PATH"),
          TextWith(env, disk, seen, "DEPLOY_ENVIRONMENT"))
  }

  /** A file is configured for the target, and it has no value yet. */
  predicate Pending(env: Env, target: string) {
    IsSet(env, FileKey(target)) && !IsSet(env, target)
  }

  /** What a pending target ends up with when its path is resolved under these roots. */
  function ValueUnder(env: Env, disk: Disk, roots: Roots, target: string): Option<string>
    requires Pending(env, target)
  {
    var path := disk.resolve(roots, env[FileKey(target)]);
    if path in disk.texts then Some(Trim(disk.texts[path])) else Get(env, target)
  }

  /** The target gets the same value before and after the file variables in `seen`. */
  predicate Indifferent(env: Env, disk: Disk, seen: set<string>, target: string) {
    Pending(env, target) && FileKey(target) !in seen ==>
      ValueUnder(env, disk, RootsWith(env, disk, seen), target) == ValueUnder(env, disk, RootsOf(env), target)
  }

  /** Whichever of the (at most three) file variables of the secret root come first, every target gets the
      same value: eight sets to check, before anything is hydrated. */
  ghost predicate RootsDoNotMatter(env: Env, disk: Disk) {
    forall seen, target :: seen <= ROOT_KEYS ==> Indifferent(env, disk, seen, target)
  }

  ghost predicate AllOrdersAgree(env: Env, disk: Disk) {
    forall a, b :: Enumerates(a, env) && Enumerates(b, env) ==>
      HydratedAlong(env, env, disk, a) == HydratedAlong(env, env, disk, b)
  }

  function Elements(order: seq<string>): set<string> {
    set key | key in order
  }

  lemma {:induction false} RootsAreWith(before: Env, now: Env, disk: Disk, seen: set<string>)
    requires IsHydrated(before, now, disk, seen)
    ensures RootsOf(now) == RootsWith(before, disk, seen * ROOT_KEYS)
  {
    hide Hydrates, FileValue, FileKey;
    forall name | name in ROOT_NAMES ensures TextOf(now, name) == TextWith(before, disk, seen * ROOT_KEYS, name) {
      assert Get(now, name) == HydratedValue(before, disk, seen, name);
      assert FileKey(name) in ROOT_KEYS;
    }
  }

  /** A step has the same effect on its target as at the start, provided the target is indifferent to the
      roots that were looked at before. */
  lemma {:induction false} HydrateStep(before: Env, now: Env, disk: Disk, seen: set<string>, key: string)
    requires IsHydrated(before, now, disk, seen)
    requires key in before && key !in seen
    requires NamesFile(key) ==> Indifferent(before, disk, seen * ROOT_KEYS, TargetOf(key))
    ensures IsHydrated(before, HydrateOne(now, before, disk, key), disk, seen + {key})
  {
    hide IsHydrated, NamesFile, Trim, FileKey, RootsOf, RootsWith, Get;
    if !NamesFile(key) || !Pending(before, TargetOf(key)) {
      if NamesFile(key) { TargetUntouched(before, now, disk, seen, TargetOf(key)); }
      LookedAtInVain(before, now, disk, seen, key);
    } else {
      PendingStep(before, now, disk, seen, TargetOf(key));
    }
  }

  /** What one step does to a pending target, and to no other variable. */
  lemma {:induction false} PendingEffect(before: Env, now: Env, disk: Disk, seen: set<string>, target: string)
    requires IsHydrated(before, now, disk, seen)
    requires Pending(before, target) && FileKey(target) !in seen
    ensures var next := HydrateOne(now, before, disk, FileKey(target));
            Get(next, target) == ValueUnder(before, disk, RootsWith(before, disk, seen * ROOT_KEYS), target)
            && forall t :: t != target ==> Get(next, t) == Get(now, t)
  {
    hide IsHydrated, NamesFile, Trim, FileKey, RootsOf, RootsWith;
    FileKeyNamesFile(target);
    RootsAreWith(before, now, disk, seen);
    TargetUntouched(before, now, disk, seen, target);
  }

  lemma {:induction false} PendingStep(before: Env, now: Env, disk: Disk, seen: set<string>, target: string)
    requires IsHydrated(before, now, disk, seen)
    requires Pending(before, target) && FileKey(target) !in seen
    requires Indifferent(before, disk, seen * ROOT_KEYS, target)
    ensures IsHydrated(before, HydrateOne(now, before, disk, FileKey(target)), disk, seen + {FileKey(target)})
  {
    var next := HydrateOne(now, before, disk, FileKey(target));
    PendingEffect(before, now, disk, seen, target);
    hide HydrateOne, FileKey, Trim, RootsOf, RootsWith, Get;
    forall t ensures Get(next, t) == HydratedValue(before, disk, seen + {FileKey(target)}, t) {
      assert Get(now, t) == HydratedValue(before, disk, seen, t);
      if t != target && FileKey(t) == FileKey(target) {
        FileKeyInjective(t, target);
      }
    }
  }

  lemma {:induction false} HydratedRest(before: Env, now: Env, disk: Disk, seen: set<string>, order: seq<string>)
    requires IsHydrated(before, now, disk, seen)
    requires forall key :: key in order ==> key in before && key !in seen
    requires forall i, j :: 0 <= i < j < |order| ==> order[i] != order[j]
    requires forall sub, t :: sub <= ROOT_KEYS && sub < seen + Elements(order) ==> Indifferent(before, disk, sub, t)
    ensures IsHydrated(before, HydratedAlong(now, before, disk, order), disk, seen + Elements(order))
    decreases |order|
  {
    hide IsHydrated, Indifferent, HydrateOne, NamesFile, ROOT_KEYS;
    if order == [] {
      assert seen + Elements(order) == seen;
    } else {
      var key := order[0];
      assert order == [key] + order[1..];
      assert seen + Elements(order) == seen + {key} + Elements(order[1..]);
      assert seen * ROOT_KEYS < seen + Elements(order) by {
        assert key !in seen * ROOT_KEYS && key in seen + Elements(order);
      }
      HydrateStep(before, now, disk, seen, key);
      HydratedRest(before, HydrateOne(now, before, disk, key), disk, seen + {key}, order[1..]);
    }
  }

  /** When the roots do not matter, neither does the order of the variables: every target gets the text of
      its file exactly when it had no value. */
  lemma {:induction false} OrderDoesNotMatter(before: Env, disk: Disk, order: seq<string>)
    requires RootsDoNotMatter(before, disk) && Enumerates(order, before)
    ensures IsHydrated(before, HydratedAlong(before, before, disk, order), disk, before.Keys)
  {
    hide Indifferent, Hydrates;
    assert IsHydrated(before, before, disk, {});
    HydratedRest(before, before, disk, {}, order);
    assert {} + Elements(order) == before.Keys;
  }

  // ---- and when it does ----

  lemma {:induction false} AlongConcat(env: Env, snapshot: Env, disk: Disk, a: seq<string>, b: seq<string>)
    requires forall key :: key in a + b ==> key in snapshot
    ensures HydratedAlong(env, snapshot, disk, a + b)
         == HydratedAlong(HydratedAlong(env, snapshot, disk, a), snapshot, disk, b)
    decreases |a|
  {
    hide HydrateOne;
    if a == [] {
      assert a + b == b;
    } else {
      assert (a + b)[1..] == a[1..] + b;
      AlongConcat(HydrateOne(env, snapshot, disk, a[0]), snapshot, disk, a[1..], b);
    }
  }

  /** Only its own file variable sets a target. */
  lemma {:induction false} NotVisited(env: Env, snapshot: Env, disk: Disk, order: seq<string>, target: string)
    requires forall key :: key in order ==> key in snapshot
    requires FileKey(target) !in order
    ensures Get(HydratedAlong(env, snapshot, disk, order), target) == Get(env, target)
    decreases |order|
  {
    hide NamesFile, FileKey, Trim, RootsOf;
    if order != [] {
      NotVisited(HydrateOne(env, snapshot, disk, order[0]), snapshot, disk, order[1..], target);
    }
  }

  lemma {:induction false} Listing(keys: set<string>) returns (order: seq<string>)
    ensures Elements(order) == keys
    ensures forall i, j :: 0 <= i < j < |order| ==> order[i] != order[j]
    decreases keys
  {
    order := [];
    if keys != {} {
      var key :| key in keys;
      var rest := Listing(keys - {key});
      order := [key] + rest;
      assert forall k :: k in rest <==> k in keys - {key} by {
        assert forall k :: k in rest <==> k in Elements(rest);
      }
      assert Elements(order) == keys;
    }
  }

  /** Among the sets of root variables that change some target's value there is a smallest one; all of its
      members are there to be looked at. */
  lemma {:induction false} SmallestChange(env: Env, disk: Disk, seen: set<string>, target: string)
      returns (least: set<string>, t: string)
    requires !Indifferent(env, disk, seen, target)
    ensures least <= seen && least <= env.Keys && !Indifferent(env, disk, least, t)
    ensures forall sub, u :: sub < least ==> Indifferent(env, disk, sub, u)
    decreases |seen|
  {
    if exists sub, u :: sub < seen && !Indifferent(env, disk, sub, u) {
      var sub, u :| sub < seen && !Indifferent(env, disk, sub, u);
      SmallerSet(sub, seen);
      least, t := SmallestChange(env, disk, sub, u);
    } else {
      least, t := seen, target;
      forall key | key in least ensures key in env {
        if key !in env {
          AbsentKey(env, disk, least, target, key);
        }
      }
    }
  }

  lemma {:induction false} SmallerSet(a: set<string>, b: set<string>)
    requires a < b
    ensures |a| < |b|
  {
    var more := b - a;
    assert b == a + more && a !! more && more != {};
    assert |b| == |a| + |more|;
  }

  lemma {:induction false} AbsentKey(env: Env, disk: Disk, seen: set<string>, target: string, key: string)
    requires key in seen && key !in env && !Indifferent(env, disk, seen, target)
    ensures seen - {key} < seen && !Indifferent(env, disk, seen - {key}, target)
  {
    hide FileKey, Trim;
    forall name ensures TextWith(env, disk, seen, name) == TextWith(env, disk, seen - {key}, name) {
      if FileKey(name) == key { assert !IsSet(env, FileKey(name)); }
    }
  }

  /** A target that gets different values under the roots before and after some root variables, in two orders
      of all variables: right after those, and first of all. */
  lemma {:induction false} ChangeShows(env: Env, disk: Disk, least: set<string>, t: string)
    requires least <= ROOT_KEYS && least <= env.Keys && !Indifferent(env, disk, least, t)
    requires forall sub, u :: sub < least ==> Indifferent(env, disk, sub, u)
    ensures !AllOrdersAgree(env, disk)
  {
    hide HydratedAlong, Indifferent, ValueUnder, RootsWith, RootsOf, FileKey, IsHydrated, Get, Pending;
    var key := FileKey(t);
    PendingKey(env, disk, least, t);
    var roots := Listing(least);
    var rest := Listing(env.Keys - least - {key});
    var late, early := roots + [key] + rest, [key] + roots + rest;
    BothEnumerate(env, least, key, roots, rest);
    NothingLookedAt(env, disk);
    HydratedRest(env, env, disk, {}, roots);
    assert {} + Elements(roots) == least;
    ValueInOrder(env, disk, {}, [], roots + rest, t);
    ValueInOrder(env, disk, least, roots, rest, t);
    assert [] + [key] + (roots + rest) == early;
    assert {} * ROOT_KEYS == {} && least * ROOT_KEYS == least;
    RootsAreWith(env, env, disk, {});
  }

  lemma {:induction false} PendingKey(env: Env, disk: Disk, seen: set<string>, t: string)
    requires !Indifferent(env, disk, seen, t)
    ensures Pending(env, t) && FileKey(t) in env && FileKey(t) !in seen
    ensures ValueUnder(env, disk, RootsWith(env, disk, seen), t) != ValueUnder(env, disk, RootsOf(env), t)
  {}

  lemma {:induction false} NothingLookedAt(env: Env, disk: Disk)
    ensures HydratedAlong(env, env, disk, []) == env && IsHydrated(env, env, disk, {})
  {}

  lemma {:induction false} DistinctConcat(a: seq<string>, b: seq<string>)
    requires forall i, j :: 0 <= i < j < |a| ==> a[i] != a[j]
    requires forall i, j :: 0 <= i < j < |b| ==> b[i] != b[j]
    requires forall key :: key in a ==> key !in b
    ensures forall i, j :: 0 <= i < j < |a + b| ==> (a + b)[i] != (a + b)[j]
  {
    forall i, j | 0 <= i < j < |a + b| ensures (a + b)[i] != (a + b)[j] {
      if i < |a| <= j {
        assert (a + b)[i] in a && (a + b)[j] == b[j - |a|];
      }
    }
  }

  lemma {:induction false} BothEnumerate(env: Env, least: set<string>, key: string, roots: seq<string>,
                                         rest: seq<string>)
    requires least <= env.Keys && key in env && key !in least
    requires Elements(roots) == least && Elements(rest) == env.Keys - least - {key}
    requires forall i, j :: 0 <= i < j < |roots| ==> roots[i] != roots[j]
    requires forall i, j :: 0 <= i < j < |rest| ==> rest[i] != rest[j]
    ensures Enumerates(roots + [key] + rest, env) && Enumerates([key] + roots + rest, env)
    ensures forall k :: k in roots ==> k in env
    ensures key !in roots && key !in rest
  {
    assert forall k :: k in roots <==> k in Elements(roots);
    assert forall k :: k in rest <==> k in Elements(rest);
    DistinctConcat(roots, [key]);
    DistinctConcat([key], roots);
    DistinctConcat(roots + [key], rest);
    DistinctConcat([key] + roots, rest);
  }

  /** The value that a pending target ends with when it comes after the variables in `front`. */
  lemma {:induction false} ValueInOrder(env: Env, disk: Disk, seen: set<string>, front: seq<string>,
                                        rest: seq<string>, t: string)
    requires forall key :: key in front + [FileKey(t)] + rest ==> key in env
    requires IsHydrated(env, HydratedAlong(env, env, disk, front), disk, seen)
    requires Pending(env, t) && FileKey(t) !in seen && FileKey(t) !in rest
    ensures Get(HydratedAlong(env, env, disk, front + [FileKey(t)] + rest), t)
         == ValueUnder(env, disk, RootsWith(env, disk, seen * ROOT_KEYS), t)
  {
    hide HydratedAlong, HydrateOne, IsHydrated, RootsWith, ValueUnder, FileKey, Get, Pending;
    var now := HydratedAlong(env, env, disk, front);
    AlongConcat(env, env, disk, front + [FileKey(t)], rest);
    HydratedAppend(env, env, disk, front, FileKey(t));
    PendingEffect(env, now, disk, seen, t);
    NotVisited(HydrateOne(now, env, disk, FileKey(t)), env, disk, rest, t);
  }

  /** All orders of the variables lead to the same environment exactly when the roots do not matter. */
  lemma {:induction false} OrdersAgreeIff(env: Env, disk: Disk)
    ensures AllOrdersAgree(env, disk) <==> RootsDoNotMatter(env, disk)
  {
    hide Indifferent, HydratedAlong, IsHydrated, ROOT_KEYS;
    if RootsDoNotMatter(env, disk) {
      forall a, b | Enumerates(a, env) && Enumerates(b, env)
        ensures HydratedAlong(env, env, disk, a) == HydratedAlong(env, env, disk, b)
      {
        OrderDoesNotMatter(env, disk, a);
        OrderDoesNotMatter(env, disk, b);
        HydrationIsDetermined(env, HydratedAlong(env, env, disk, a), HydratedAlong(env, env, disk, b), disk, env.Keys);
      }
    } else {
      var seen, target :| seen <= ROOT_KEYS && !Indifferent(env, disk, seen, target);
      var least, t := SmallestChange(env, disk, seen, target);
      ChangeShows(env, disk, least, t);
    }
  }

  /** So it is for a resolver that does not look at the roots, whatever is hydrated ... */
  lemma {:induction false} FixedResolverAgrees(env: Env, disk: Disk)
    requires forall a, b, path :: disk.resolve(a, path) == disk.resolve(b, path)
    ensures AllOrdersAgree(env, disk)
  {
    hide AllOrdersAgree, RootsWith, RootsOf;
    OrdersAgreeIff(env, disk);
  }

  /** ... and for every resolver when no variable of the secret root is itself hydrated. */
  lemma {:induction false} StayingRootsAgree(env: Env, disk: Disk)
    requires RootsStay(env, disk)
    ensures AllOrdersAgree(env, disk)
  {
    hide AllOrdersAgree, ValueUnder, FileKey, Hydrates;
    forall seen ensures RootsWith(env, disk, seen) == RootsOf(env) {
      assert forall name :: name in ROOT_NAMES ==> TextWith(env, disk, seen, name) == TextOf(env, name);
    }
    OrdersAgreeIff(env, disk);
  }

  /** A resolver that finds the run-time path of `A` once the secret root is known. */
  function RootedResolve(roots: Roots, path: string): string {
    if path == "a" && roots.secretsDir == "r" then "r/a" else path
  }

  /** Otherwise it can matter: when the secret root comes from a file too, a secret under it is found or not,
      depending on which of the two variables is looked at first. */
  lemma {:induction false} OrderCanMatter()
    ensures var root, a := FileKey("OPS_SECRETS_DIR"), FileKey("A");
            var env := map[root := "d", a := "a"];
            var disk := Disk(RootedResolve, map["d" := "r", "r/a" := "v"]);
            Enumerates([root, a], env) && Enumerates([a, root], env) && !RootsStay(env, disk)
            && Get(HydratedAlong(env, env, disk, [root, a]), "A") == Some("v")
            && Get(HydratedAlong(env, env, disk, [a, root]), "A") == None
  {
    hide HydratedAlong, HydrateOne, Enumerates, Trim, FileKey, NamesFile;
    var root, a := FileKey("OPS_SECRETS_DIR"), FileKey("A");
    var env := map[root := "d", a := "a"];
    var disk := Disk(RootedResolve, map["d" := "r", "r/a" := "v"]);
    NotAnotherName(root, a);
    RootIsHydrated(root, a, env, disk);
    var rooted := env["OPS_SECRETS_DIR" := "r"];
    SecretUnderRoot(root, a, env, disk, rooted);
    BothOrders(root, a, env);
    AlongTwo(env, env, disk, root, a);
    AlongTwo(env, env, disk, a, root);
  }

  lemma {:induction false} AlongTwo(env: Env, snapshot: Env, disk: Disk, first: string, second: string)
    requires first in snapshot && second in snapshot
    ensures HydratedAlong(env, snapshot, disk, [first, second])
         == HydrateOne(HydrateOne(env, snapshot, disk, first), snapshot, disk, second)
  {
    hide HydrateOne;
    var next := HydrateOne(env, snapshot, disk, first);
    assert [first, second][1..] == [second] && [second][1..] == [];
    assert HydratedAlong(env, snapshot, disk, [first, second]) == HydratedAlong(next, snapshot, disk, [second]);
    assert HydratedAlong(next, snapshot, disk, [second]) == HydrateOne(next, snapshot, disk, second);
  }

  lemma {:induction false} BothOrders(root: string, a: string, env: Env)
    requires root != a && env == map[root := "d", a := "a"]
    ensures Enumerates([root, a], env) && Enumerates([a, root], env)
  {}

  lemma {:induction false} RootIsHydrated(root: string, a: string, env: Env, disk: Disk)
    requires root == FileKey("OPS_SECRETS_DIR") && a == FileKey("A")
    requires env == map[root := "d", a := "a"]
    requires disk == Disk(RootedResolve, map["d" := "r", "r/a" := "v"])
    ensures !RootsStay(env, disk)
    ensures HydrateOne(env, env, disk, root) == env["OPS_SECRETS_DIR" := "r"]
  {
    hide FileKey, NamesFile, Trim;
    NotAnotherName(root, a);
    FileKeyNamesFile("OPS_SECRETS_DIR");
    TrimFixesTrimmed("d");
    TrimFixesTrimmed("r");
    assert Hydrates(env, disk, "OPS_SECRETS_DIR");
  }

  lemma {:induction false} SecretUnderRoot(root: string, a: string, env: Env, disk: Disk, rooted: Env)
    requires root == FileKey("OPS_SECRETS_DIR") && a == FileKey("A")
    requires env == map[root := "d", a := "a"] && rooted == env["OPS_SECRETS_DIR" := "r"]
    requires disk == Disk(RootedResolve, map["d" := "r", "r/a" := "v"])
    ensures HydrateOne(rooted, env, disk, a) == rooted["A" := "v"]
    ensures HydrateOne(env, env, disk, a) == env
  {
    hide FileKey, NamesFile, Trim;
    NotAnotherName(root, a);
    FileKeyNamesFile("A");
    TrimFixesTrimmed("a");
    TrimFixesTrimmed("v");
    assert "a" != "d" by { assert "a"[0] != "d"[0]; }
    assert |"r/a"| == 3;
  }

  lemma {:induction false} NotAnotherName(root: string, a: string)
    requires root == FileKey("OPS_SECRETS_DIR") && a == FileKey("A")
    ensures root !in {"OPS_SECRETS_DIR", "DEPLOY_PATH", "DEPLOY_ENVIRONMENT", "A"}
    ensures a !in {"OPS_SECRETS_DIR", "DEPLOY_PATH", "DEPLOY_ENVIRONMENT", "A"}
    ensures root != a && "A" != "OPS_SECRETS_DIR"
  {
    assert |root| == 20 && |a| == 6;
    assert |"OPS_SECRETS_DIR"| == 15 && |"DEPLOY_PATH"| == 11 && |"DEPLOY_ENVIRONMENT"| == 18;
  }

  lemma {:induction false} HydratedAppend(env: Env, snapshot: Env, disk: Disk, order: seq<string>, key: string)
    requires key in snapshot && forall k :: k in order ==> k in snapshot
    ensures HydratedAlong(env, snapshot, disk, order + [key])
         == HydrateOne(HydratedAlong(env, snapshot, disk, order), snapshot, disk, key)
    decreases |order|
  {
    hide HydrateOne;
    if order == [] {
      assert [] + [key] == [key] && [key][1..] == [];
    } else {
      assert (order + [key])[1..] == order[1..] + [key];
      HydratedAppend(HydrateOne(env, snapshot, disk, order[0]), snapshot, disk, order[1..], key);
    }
  }

  // ---- the environment of the process ----

  class OpsEnvironment {
    var env: Env
    var loadedEnvFiles: set<string>
    var envPrimed: bool
    const files: map<string, string>
    const disk: Disk
    const cwd: string
    const projectRoot: string

    constructor (env: Env, files: map<string, string>, disk: Disk, cwd: string, projectRoot: string)
      ensures Valid() && !envPrimed
      ensures this.env == env && this.files == files && this.disk == disk && this.cwd == cwd
      ensures this.projectRoot == projectRoot
    {
      this.env, this.files, this.disk, this.cwd, this.projectRoot := env, files, disk, cwd, projectRoot;
      loadedEnvFiles, envPrimed := {}, false;
    }

    /** Every definition of a file that was loaded has been seen. */
    ghost predicate Valid()
      reads this`env, this`loadedEnvFiles
    {
      forall path :: path in loadedEnvFiles ==> Covers(env, DefinitionsAt(path))
    }

    function ResolvedPath(filePath: string): string {
      if "/" <= filePath then filePath else cwd + "/" + filePath
    }

    function DefinitionsAt(path: string): seq<Definition> {
      if path in files then Definitions(files[path]) else []
    }

    /** All definitions of the listed files, one file after the other, repeated files included. */
    function DefinitionsOf(names: seq<string>): seq<Definition> {
      if names == [] then []
      else DefinitionsOf(names[..|names| - 1]) + DefinitionsAt(ResolvedPath(names[|names| - 1]))
    }

    lemma {:induction false} NoDefinitions()
      ensures DefinitionsOf([]) == []
    {}

    lemma {:induction false} DefinitionsStep(names: seq<string>, i: nat)
      requires i < |names|
      ensures DefinitionsOf(names[..i + 1]) == DefinitionsOf(names[..i]) + DefinitionsAt(ResolvedPath(names[i]))
    {
      assert names[..i + 1][..i] == names[..i];
    }

    lemma {:induction false} NamedIsCovered(names: seq<string>, name: string, env: Env)
      requires name in names
      ensures Covers(Loaded(env, DefinitionsOf(names)), DefinitionsAt(ResolvedPath(name)))
      decreases |names|
    {
      var front, last := names[..|names| - 1], names[|names| - 1];
      assert names == front + [last];
      var before, at := DefinitionsOf(front), DefinitionsAt(ResolvedPath(last));
      LoadedConcat(env, before, at);
      LoadedCovers(Loaded(env, before), at);
      if name != last {
        NamedIsCovered(front, name, env);
      }
    }

    /** Dropping repeated names, as the tool does, leads to the same environment. */
    lemma {:induction false} RepeatedNamesDoNotMatter(names: seq<string>, env: Env)
      ensures Loaded(env, DefinitionsOf(Unique(names))) == Loaded(env, DefinitionsOf(names))
      decreases |names|
    {
      if names != [] {
        var front, last := names[..|names| - 1], names[|names| - 1];
        var at := DefinitionsAt(ResolvedPath(last));
        RepeatedNamesDoNotMatter(front, env);
        LoadedConcat(env, DefinitionsOf(front), at);
        if last in Unique(front) {
          NamedIsCovered(Unique(front), last, env);
          CoveredLoadsNothing(Loaded(env, DefinitionsOf(front)), at);
        } else {
          assert (Unique(front) + [last])[..|Unique(front)|] == Unique(front);
          LoadedConcat(env, DefinitionsOf(Unique(front)), at);
        }
      }
    }

    /** The check for files that were loaded before makes no difference. */
    method LoadEnvFile(filePath: string)
      requires Valid()
      modifies this`env, this`loadedEnvFiles
      ensures Valid()
      ensures env == Loaded(old(env), DefinitionsAt(ResolvedPath(filePath)))
      ensures ResolvedPath(filePath) == if filePath != "" && filePath[0] == '/' then filePath else cwd + "/" + filePath
    {
      var resolvedPath := if "/" <= filePath then filePath else cwd + "/" + filePath;
      ghost var defs := DefinitionsAt(resolvedPath);
      if resolvedPath in loadedEnvFiles || resolvedPath !in files {
        CoveredLoadsNothing(env, defs);
        return;
      }
      hide Loaded, Covers, ParseLines, MatchLine, Trim, Lines;
      var lines := Lines(files[resolvedPath]);
      assert defs == ParseLines(lines);
      loadedEnvFiles := loadedEnvFiles + {resolvedPath};
      assert lines[0..] == lines;
      for i := 0 to |lines|
        invariant Loaded(env, ParseLines(lines[i..])) == Loaded(old(env), defs)
        invariant loadedEnvFiles == old(loadedEnvFiles) + {resolvedPath}
      {
        var rawLine := lines[i];
        LoadedLine(env, lines[i..]);
        assert lines[i..][0] == rawLine && lines[i..][1..] == lines[i + 1..];
        var line := Trim(rawLine);
        if line == "" || line[0] == '#' {
          continue;
        }
        var found := MatchLine(rawLine);
        if found.None? {
          continue;
        }
        if found.value.key in env {
          continue;
        }
        env := env[found.value.key := found.value.value];
      }
      assert lines[|lines|..] == [];
      NoLines(env);
      LoadedCovers(old(env), defs);
      forall path | path in old(loadedEnvFiles) ensures Covers(env, DefinitionsAt(path)) {
        CoversMore(old(env), env, DefinitionsAt(path));
      }
    }

    /** The snapshot of the environment is gone through in some order. */
    method HydrateEnvFromFileRefs()
      modifies this`env
      ensures exists order :: Enumerates(order, old(env)) && env == HydratedAlong(old(env), old(env), disk, order)
      ensures RootsDoNotMatter(old(env), disk) ==> IsHydrated(old(env), env, disk, old(env).Keys)
    {
      var snapshot := env;
      var rest := snapshot.Keys;
      ghost var order: seq<string> := [];
      while rest != {}
        invariant forall key :: key in order <==> key in snapshot && key !in rest
        invariant rest <= snapshot.Keys
        invariant forall i, j :: 0 <= i < j < |order| ==> order[i] != order[j]
        invariant env == HydratedAlong(snapshot, snapshot, disk, order)
        decreases rest
      {
        hide Trim, NamesFile, HydratedAlong;
        var key :| key in rest;
        rest := rest - {key};
        HydratedAppend(snapshot, snapshot, disk, order, key);
        order := order + [key];
        if !NamesFile(key) || Trim(snapshot[key]) == "" {
          continue;
        }
        var targetKey := TargetOf(key);
        if IsSet(env, targetKey) {
          continue;
        }
        var resolvedPath := disk.resolve(RootsOf(env), snapshot[key]);
        if resolvedPath !in disk.texts {
          continue;
        }
        env := env[targetKey := Trim(disk.texts[resolvedPath])];
      }
      assert Enumerates(order, snapshot);
      if RootsDoNotMatter(snapshot, disk) {
        OrderDoesNotMatter(snapshot, disk, order);
      }
    }

    /** The first call loads the listed files, first definition first, and then hydrates; later calls do
        nothing. */
    method PrimeOpsEnvironment()
      requires Valid()
      modifies this
      ensures envPrimed
      ensures old(envPrimed) ==> env == old(env)
      ensures !old(envPrimed) ==>
                var settled := Loaded(old(env), DefinitionsOf(EnvFiles(old(env), DefaultEnvFiles(projectRoot))));
                (exists order :: Enumerates(order, settled) && env == HydratedAlong(settled, settled, disk, order))
                && (RootsDoNotMatter(settled, disk) ==> IsHydrated(settled, env, disk, settled.Keys))
    {
      if envPrimed {
        return;
      }
      hide EnvFiles, Loaded, IsHydrated, Valid, ResolvedPath, DefinitionsAt, DefinitionsOf;
      assert DefinitionsOf([]) == [] by { NoDefinitions(); }
      assert Loaded(env, []) == env by { NothingLoaded(env); }
      envPrimed := true;
      var envFiles := EnvFiles(env, DefaultEnvFiles(projectRoot));
      for i := 0 to |envFiles|
        invariant Valid() && envPrimed
        invariant env == Loaded(old(env), DefinitionsOf(envFiles[..i]))
      {
        DefinitionsStep(envFiles, i);
        LoadedConcat(old(env), DefinitionsOf(envFiles[..i]), DefinitionsAt(ResolvedPath(envFiles[i])));
        LoadEnvFile(envFiles[i]);
      }
      assert envFiles[..|envFiles|] == envFiles;
      HydrateEnvFromFileRefs();
    }
  }
}
