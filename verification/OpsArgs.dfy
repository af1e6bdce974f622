/** `parseArgs` of scripts/ops/_shared.ts, and the texts that it reads back. */
module OpsArgs {
  import opened JsText

  datatype FlagValue = Switch(on: bool) | Text(text: string)

  type Flags = map<string, FlagValue>

  datatype ParsedArgs = ParsedArgs(flags: Flags, positionals: seq<string>)

  const DASHES := "--"
  const NO_PREFIX := "--no-"

  // ---- the parser ----

  /** What one argument says, and how many arguments it takes. */
  datatype Item =
    | Rest
    | Positional
    | Flag(key: string, value: FlagValue, width: nat)

  function FirstItem(args: seq<string>): (item: Item)
    requires args != []
    ensures item.Flag? ==> 1 <= item.width <= |args|
  {
    var current := args[0];
    if current == DASHES then Rest
    else if !(DASHES <= current) then Positional
    else if NO_PREFIX <= current then Flag(current[|NO_PREFIX|..], Switch(false), 1)
    else
      var equals := IndexOf(current, '=');
      if equals < |current| then
        assert current[0] != '=' && current[1] != '=';
        Flag(current[2..equals], Text(current[equals + 1..]), 1)
      else if 1 < |args| && args[1] != "" && !(DASHES <= args[1]) then Flag(current[2..], Text(args[1]), 2)
      else Flag(current[2..], Switch(true), 1)
  }

  /** The parse, given what was read before. */
  function ParseFrom(args: seq<string>, sofar: ParsedArgs): ParsedArgs
    decreases |args|
  {
    if args == [] then sofar
    else
      match FirstItem(args)
      case Rest => sofar.(positionals := sofar.positionals + args[1..])
      case Positional => ParseFrom(args[1..], sofar.(positionals := sofar.positionals + [args[0]]))
      case Flag(key, value, width) => ParseFrom(args[width..], sofar.(flags := sofar.flags[key := value]))
  }

  const NOTHING := ParsedArgs(map[], [])

  function Parse(args: seq<string>): ParsedArgs {
    ParseFrom(args, NOTHING)
  }

  lemma {:induction false} ParseStarts(args: seq<string>)
    ensures Parse(args) == ParseFrom(args, ParsedArgs(map[], []))
  {}

  method ParseArgs(argv: seq<string>) returns (parsed: ParsedArgs)
    ensures parsed == Parse(argv)
  {
    hide IndexOf, Parse;
    var flags: Flags := map[];
    var positionals: seq<string> := [];
    var index := 0;
    assert argv[0..] == argv;
    assert ParseFrom(argv, ParsedArgs(flags, positionals)) == Parse(argv) by { ParseStarts(argv); }
    while index < |argv|
      invariant index <= |argv|
      invariant ParseFrom(argv[index..], ParsedArgs(flags, positionals)) == Parse(argv)
    {
      var current := argv[index];
      assert argv[index..][0] == current && argv[index..][1..] == argv[index + 1..];
      if current == DASHES {
        positionals := positionals + argv[index + 1..];
        return ParsedArgs(flags, positionals);
      }
      if !(DASHES <= current) {
        positionals := positionals + [current];
        index := index + 1;
        continue;
      }
      if NO_PREFIX <= current {
        flags := flags[current[|NO_PREFIX|..] := Switch(false)];
        index := index + 1;
        continue;
      }
      var equalsIndex := IndexOf(current, '=');
      if equalsIndex < |current| {
        flags := flags[current[2..equalsIndex] := Text(current[equalsIndex + 1..])];
        index := index + 1;
        continue;
      }
      if index + 1 < |argv| {
        var next := argv[index + 1];
        assert argv[index..][1] == next && argv[index..][2..] == argv[index + 2..];
        if next != "" && !(DASHES <= next) {
          flags := flags[current[2..] := Text(next)];
          index := index + 2;
          continue;
        }
      }
      flags := flags[current[2..] := Switch(true)];
      index := index + 1;
    }
    return ParsedArgs(flags, positionals);
  }

  // ---- printing ----

  /** A flag to print; a text may stand `apart`, as an argument of its own. */
  datatype Setting = Setting(key: string, value: FlagValue, apart: bool)

  /** `--no-k`, `--k`, `--k=v`, or `--k` and `v`. */
  function Printed(s: Setting): seq<string> {
    match s.value
    case Switch(on) => [if on then "--" + s.key else "--no-" + s.key]
    case Text(text) => if s.apart then ["--" + s.key, text] else ["--" + s.key + "=" + text]
  }

  function PrintedAll(settings: seq<Setting>): seq<string> {
    if settings == [] then [] else Printed(settings[0]) + PrintedAll(settings[1..])
  }

  function Print(settings: seq<Setting>, positionals: seq<string>): seq<string> {
    PrintedAll(settings) + ["--"] + positionals
  }

  /** Settings applied in order, later ones over earlier ones. */
  function Applied(settings: seq<Setting>, flags: Flags): Flags {
    if settings == [] then flags else Applied(settings[1..], flags[settings[0].key := settings[0].value])
  }

  /** Settings that the printed form can carry: anything can be switched off; a key that is switched on or
      has a text has no `=` and does not begin with `no-`, and is not empty unless a text is joined to it; a
      text that stands apart is not empty and has no dashes in front. */
  predicate Printable(s: Setting) {
    match s.value
    case Switch(on) => !on || ('=' !in s.key && !("no-" <= s.key) && s.key != "")
    case Text(text) =>
      '=' !in s.key && !("no-" <= s.key)
      && (s.apart ==> s.key != "" && text != "" && !("--" <= text))
  }

  /** What may follow a switch: nothing, an empty argument, or one with dashes. */
  predicate NoText(rest: seq<string>) {
    rest == [] || rest[0] == "" || "--" <= rest[0]
  }

  lemma {:induction false} AfterDashes(key: string)
    ensures "--" <= "--" + key && ("--" + key)[2..] == key
    ensures NO_PREFIX <= "--" + key <==> "no-" <= key
    ensures '=' in "--" + key <==> '=' in key
    ensures "--" + key == DASHES <==> key == ""
  {
    var p := "--" + key;
    assert p[2..] == key;
    assert NO_PREFIX[..2] == DASHES && NO_PREFIX[2..] == "no-";
    if '=' in key {
      var i :| 0 <= i < |key| && key[i] == '=';
      assert p[i + 2] == '=';
    }
  }

  lemma {:induction false} EqualsFound(s: string)
    ensures IndexOf(s, '=') < |s| <==> '=' in s
  {
    if IndexOf(s, '=') == |s| { assert s[..|s|] == s; }
  }

  /** A switch is read as one exactly when nothing follows that could be its text. */
  lemma {:induction false} SwitchOnReads(key: string, rest: seq<string>)
    ensures FirstItem(["--" + key] + rest) == Flag(key, Switch(true), 1)
            <==> '=' !in key && !("no-" <= key) && key != "" && NoText(rest)
  {
    AfterDashes(key);
    EqualsFound("--" + key);
    if rest != [] { assert (["--" + key] + rest)[1] == rest[0]; }
  }

  lemma {:induction false} SwitchOffReads(key: string, rest: seq<string>)
    ensures FirstItem(["--no-" + key] + rest) == Flag(key, Switch(false), 1)
  {
    var p := "--no-" + key;
    assert p[2] == 'n' && p[|NO_PREFIX|..] == key;
  }

  /** `--key value`: two arguments in front of any others are read as the flag with that text, and nothing
      else is taken, exactly when the key has no `=`, does not begin with `no-` and is not empty, and the text
      is not empty and has no dashes in front. */
  lemma {:induction false} TextApartReads(key: string, text: string, rest: seq<string>)
    ensures FirstItem(["--" + key, text] + rest) == Flag(key, Text(text), 2)
            <==> '=' !in key && !("no-" <= key) && key != "" && text != "" && !("--" <= text)
  {
    AfterDashes(key);
    EqualsFound("--" + key);
    assert (["--" + key, text] + rest)[1] == text;
  }

  lemma {:induction false} TextNoPrefix(key: string, text: string)
    ensures "no-" <= key + "=" + text <==> "no-" <= key
  {
    var w := key + "=" + text;
    assert w[|key|] == '=';
  }

  /** `--key=value`, in front of any others. */
  lemma {:induction false} TextJoinedReads(key: string, text: string, rest: seq<string>)
    ensures FirstItem(["--" + key + "=" + text] + rest) == Flag(key, Text(text), 1)
            <==> '=' !in key && !("no-" <= key)
  {
    hide IndexOf;
    var p := "--" + key + "=" + text;
    assert p == "--" + (key + "=" + text);
    AfterDashes(key + "=" + text);
    TextNoPrefix(key, text);
    EqualsAfterKey(key, text);
    var i := IndexOf(p, '=');
    if '=' !in key {
      assert p[2..i] == key && p[i + 1..] == text;
    } else {
      assert |p[2..i]| < |key|;
    }
  }

  lemma {:induction false} EqualsAfterKey(key: string, text: string)
    ensures 2 <= IndexOf("--" + key + "=" + text, '=') <= |key| + 2
    ensures IndexOf("--" + key + "=" + text, '=') == |key| + 2 <==> '=' !in key
  {
    hide IndexOf;
    var p := "--" + key + "=" + text;
    var i := IndexOf(p, '=');
    assert p[|key| + 2] == '=' && p[0] == '-' && p[1] == '-';
    assert forall j :: 0 <= j < |key| ==> p[j + 2] == key[j];
    if '=' in key {
      var j :| 0 <= j < |key| && key[j] == '=';
      assert p[j + 2] == '=';
      assert i <= j + 2;
    } else {
      assert forall j :: 2 <= j < |key| + 2 ==> p[j] == key[j - 2] && p[j] != '=';
    }
  }

  /** One printed setting is read as that setting, and takes what was printed for it, whatever flag or
      terminator follows, exactly when it is printable. */
  lemma {:induction false} PrintedReads(s: Setting, rest: seq<string>)
    requires rest != [] && "--" <= rest[0]
    ensures FirstItem(Printed(s) + rest) == Flag(s.key, s.value, |Printed(s)|) <==> Printable(s)
  {
    hide FirstItem;
    match s.value
    case Switch(on) =>
      if on { SwitchOnReads(s.key, rest); } else { SwitchOffReads(s.key, rest); }
    case Text(text) =>
      if s.apart { TextApartReads(s.key, text, rest); } else { TextJoinedReads(s.key, text, rest); }
  }

  lemma {:induction false} PrintedHasDashes(s: Setting)
    ensures Printed(s) != [] && "--" <= Printed(s)[0]
  {}

  lemma {:induction false} PrintStep(settings: seq<Setting>, positionals: seq<string>)
    requires settings != []
    ensures Print(settings, positionals) == Printed(settings[0]) + Print(settings[1..], positionals)
    ensures "--" <= Print(settings[1..], positionals)[0]
  {
    if 1 < |settings| { PrintedHasDashes(settings[1]); }
  }

  lemma {:induction false} ParsePrinted(settings: seq<Setting>, positionals: seq<string>, sofar: ParsedArgs)
    requires forall i :: 0 <= i < |settings| ==> Printable(settings[i])
    ensures ParseFrom(Print(settings, positionals), sofar)
         == ParsedArgs(Applied(settings, sofar.flags), sofar.positionals + positionals)
    decreases |settings|
  {
    hide Printable, FirstItem;
    var args := Print(settings, positionals);
    if settings == [] {
      assert args == ["--"] + positionals;
      FirstRest(args);
      assert args[1..] == positionals;
    } else {
      var rest := Print(settings[1..], positionals);
      PrintStep(settings, positionals);
      PrintedReads(settings[0], rest);
      assert args[|Printed(settings[0])|..] == rest;
      ParsePrinted(settings[1..], positionals, sofar.(flags := sofar.flags[settings[0].key := settings[0].value]));
    }
  }

  /** Settings that spell out a map of flags, in any order. */
  ghost predicate Spells(settings: seq<Setting>, flags: Flags) {
    (forall i, j :: 0 <= i < j < |settings| ==> settings[i].key != settings[j].key)
    && (forall i :: 0 <= i < |settings| ==> settings[i].key in flags && flags[settings[i].key] == settings[i].value)
    && (forall k :: k in flags ==> exists i :: 0 <= i < |settings| && settings[i].key == k)
  }

  lemma {:induction false} AppliedLooksUp(settings: seq<Setting>, flags: Flags, k: string)
    requires forall i, j :: 0 <= i < j < |settings| ==> settings[i].key != settings[j].key
    ensures k in Applied(settings, flags) <==> k in flags || exists i :: 0 <= i < |settings| && settings[i].key == k
    ensures (forall i :: 0 <= i < |settings| ==> settings[i].key != k) && k in flags ==>
              Applied(settings, flags)[k] == flags[k]
    ensures forall i :: 0 <= i < |settings| && settings[i].key == k ==> Applied(settings, flags)[k] == settings[i].value
    decreases |settings|
  {
    if settings != [] {
      AppliedLooksUp(settings[1..], flags[settings[0].key := settings[0].value], k);
      assert forall i :: 1 <= i < |settings| ==> settings[i] == settings[1..][i - 1];
    }
  }

  /** Every map of flags and all positionals, printed in any order and each text in either form, as long as the
      form can carry it, parse back to themselves. */
  lemma {:induction false} ParseUndoesPrint(settings: seq<Setting>, flags: Flags, positionals: seq<string>)
    requires Spells(settings, flags)
    requires forall i :: 0 <= i < |settings| ==> Printable(settings[i])
    ensures Parse(Print(settings, positionals)) == ParsedArgs(flags, positionals)
  {
    ParsePrinted(settings, positionals, NOTHING);
    forall k ensures k in Applied(settings, map[]) <==> k in flags {
      AppliedLooksUp(settings, map[], k);
    }
    forall k | k in flags ensures Applied(settings, map[])[k] == flags[k] {
      AppliedLooksUp(settings, map[], k);
    }
    assert Applied(settings, map[]) == flags;
    assert [] + positionals == positionals;
  }

  // ---- dropping the leading word ----

  lemma {:induction false} ParseFromPrepends(args: seq<string>, sofar: ParsedArgs, front: seq<string>)
    ensures ParseFrom(args, sofar.(positionals := front + sofar.positionals))
         == ParseFrom(args, sofar).(positionals := front + ParseFrom(args, sofar).positionals)
    decreases |args|
  {
    if args != [] {
      match FirstItem(args)
      case Rest =>
        assert front + sofar.positionals + args[1..] == front + (sofar.positionals + args[1..]);
      case Positional =>
        assert front + sofar.positionals + [args[0]] == front + (sofar.positionals + [args[0]]);
        ParseFromPrepends(args[1..], sofar.(positionals := sofar.positionals + [args[0]]), front);
      case Flag(key, value, width) =>
        ParseFromPrepends(args[width..], sofar.(flags := sofar.flags[key := value]), front);
    }
  }

  /** A leading positional is the first positional of the parse, and dropping it from the arguments drops
      just that: what dispatching on the first word and passing on the rest relies on. */
  lemma {:induction false} LeadingWordDistributes(word: string, args: seq<string>)
    requires !(DASHES <= word)
    ensures Parse([word] + args) == ParsedArgs(Parse(args).flags, [word] + Parse(args).positionals)
  {
    hide FirstItem;
    assert ([word] + args)[1..] == args;
    assert FirstItem([word] + args) == Positional by { FirstWord(word, args); }
    assert [] + [word] == [word] + [];
    ParseFromPrepends(args, NOTHING, [word]);
  }

  lemma {:induction false} FirstWord(word: string, args: seq<string>)
    requires !(DASHES <= word)
    ensures FirstItem([word] + args) == Positional
  {}

  lemma {:induction false} FirstFlag(args: seq<string>)
    requires args != [] && DASHES <= args[0] && args[0] != DASHES
    ensures FirstItem(args).Flag?
    ensures FirstItem(args).width == 1 || (FirstItem(args).width == 2 && !(DASHES <= args[1]))
  {}

  /** A list that begins with a word never parses to its own tail. */
  lemma {:induction false} WordIsKept(args: seq<string>)
    requires args != [] && !(DASHES <= args[0])
    ensures Parse(args).positionals != args[1..]
    decreases |args|
  {
    LeadingWordDistributes(args[0], args[1..]);
    assert args == [args[0]] + args[1..];
    if 1 < |args| && args[1] == args[0] {
      WordIsKept(args[1..]);
      assert args[1..][1..] == args[2..];
      assert args[1..] == [args[1]] + args[2..];
    }
  }

  /** Where the first word is read from the parse and the arguments are passed on without their first one,
      the command sees the remaining words exactly when the first argument is that word: a flag or `--` in
      front of it is what gets lost instead. */
  lemma {:induction false} DispatchDropsTheWordIff(argv: seq<string>)
    requires Parse(argv).positionals != [] && !(DASHES <= Parse(argv).positionals[0])
    ensures Parse(argv[1..]).positionals == Parse(argv).positionals[1..] <==> !(DASHES <= argv[0])
  {
    hide FirstItem;
    if !(DASHES <= argv[0]) {
      LeadingWordDistributes(argv[0], argv[1..]);
      assert argv == [argv[0]] + argv[1..];
    } else if argv[0] == DASHES {
      assert FirstItem(argv) == Rest by { FirstRest(argv); }
      assert [] + argv[1..] == argv[1..];
      WordIsKept(argv[1..]);
    } else {
      FirstFlag(argv);
      var Flag(key, value, width) := FirstItem(argv);
      PositionalsIgnoreFlags(argv[width..], map[key := value]);
      if width == 2 {
        LeadingWordDistributes(argv[1], argv[2..]);
        assert argv[1..] == [argv[1]] + argv[2..];
      }
    }
  }

  lemma {:induction false} FirstRest(args: seq<string>)
    requires args != [] && args[0] == DASHES
    ensures FirstItem(args) == Rest
  {}

  lemma {:induction false} PositionalsIgnoreFlags(args: seq<string>, flags: Flags)
    ensures ParseFrom(args, ParsedArgs(flags, [])).positionals == Parse(args).positionals
  {
    PositionalsFrom(args, ParsedArgs(flags, []), NOTHING);
  }

  lemma {:induction false} PositionalsFrom(args: seq<string>, a: ParsedArgs, b: ParsedArgs)
    requires a.positionals == b.positionals
    ensures ParseFrom(args, a).positionals == ParseFrom(args, b).positionals
    decreases |args|
  {
    if args != [] {
      match FirstItem(args)
      case Rest =>
      case Positional =>
        PositionalsFrom(args[1..], a.(positionals := a.positionals + [args[0]]),
                        b.(positionals := b.positionals + [args[0]]));
      case Flag(key, value, width) =>
        PositionalsFrom(args[width..], a.(flags := a.flags[key := value]), b.(flags := b.flags[key := value]));
    }
  }
}
