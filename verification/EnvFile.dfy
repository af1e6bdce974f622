/** Environment files as `loadEnvFile` of scripts/ops/_shared.ts reads them: lines, comments, the line
    pattern, quotes and inline comments; and what has to be written to be read back. */
module EnvFile {
  import opened JsText

  datatype Definition = Definition(key: string, value: string)

  // ---- lines ----

  function WithoutReturn(s: string): string {
    if s != "" && s[|s| - 1] == '\r' then s[..|s| - 1] else s
  }

  /** `split(/\r?\n/)`. */
  function Lines(text: string): seq<string>
    decreases |text|
  {
    var i := IndexOf(text, '\n');
    if i < |text| then [WithoutReturn(text[..i])] + Lines(text[i + 1..]) else [text]
  }

  // ---- values ----

  predicate QuotedBy(s: string, quote: char) {
    s != "" && s[0] == quote && s[|s| - 1] == quote
  }

  predicate Quoted(s: string) {
    QuotedBy(s, '"') || QuotedBy(s, '\'')
  }

  /** `slice(1, -1)`. */
  function Inner(s: string): string {
    if |s| < 2 then "" else s[1..|s| - 1]
  }

  /** White space followed by a number sign. */
  predicate StartsComment(s: string) {
    s != "" && IsSpace(s[0]) && TrimStart(s) != "" && TrimStart(s)[0] == '#'
  }

  /** Position of the first inline comment, or the length when there is none. */
  function CommentIndex(s: string): (i: nat)
    ensures i <= |s|
  {
    if s == "" || StartsComment(s) then 0 else 1 + CommentIndex(s[1..])
  }

  function ParseValue(raw: string): string {
    var trimmed := Trim(raw);
    if Quoted(trimmed) then Inner(trimmed)
    else if CommentIndex(trimmed) < |trimmed| then Trim(trimmed[..CommentIndex(trimmed)])
    else trimmed
  }

  // ---- the line pattern ----

  predicate IsWordStart(c: char) {
    'a' <= c <= 'z' || 'A' <= c <= 'Z' || c == '_'
  }

  predicate IsWordChar(c: char) {
    IsWordStart(c) || '0' <= c <= '9'
  }

  /** Letters, digits and underscores, and no digit at the start. */
  lemma {:induction false} NameCharacters(c: char)
    ensures IsWordStart(c) <==> c in LOWER || c in UPPER || c == '_'
    ensures IsWordChar(c) <==> c in LOWER || c in UPPER || c in DIGITS || c == '_'
  {
    UpperAre(c);
    LowerAre(c);
    DigitsAre(c);
  }

  function WordChars(s: string): (w: string)
    ensures w <= s
  {
    if s != "" && IsWordChar(s[0]) then [s[0]] + WordChars(s[1..]) else ""
  }

  function LeadingName(s: string): (w: string)
    ensures w <= s
  {
    if s != "" && IsWordStart(s[0]) then WordChars(s) else ""
  }

  /** What `.` does not match. */
  predicate IsTerminator(c: char) {
    c == '\n' || c == '\r' || c == 0x2028 as char || c == 0x2029 as char
  }

  function TerminatorIndex(s: string): (i: nat)
    ensures i <= |s|
    ensures forall j :: 0 <= j < i ==> !IsTerminator(s[j])
    ensures i < |s| ==> IsTerminator(s[i])
  {
    if s == "" || IsTerminator(s[0]) then 0 else 1 + TerminatorIndex(s[1..])
  }

  /** Name, equals sign and value; after a line terminator only white space may follow. */
  function MatchAssignment(s: string): Option<Definition> {
    var key := LeadingName(s);
    var rest := TrimStart(s[|key|..]);
    if key == "" || rest == "" || rest[0] != '=' then None
    else
      var value := TrimStart(rest[1..]);
      var i := TerminatorIndex(value);
      if TrimStart(value[i..]) != "" then None
      else Some(Definition(key, ParseValue(value[..i])))
  }

  const EXPORT := "export"

  /** The whole pattern: `export` may stand in front, but may also be the name itself. */
  function MatchLine(rawLine: string): Option<Definition> {
    var s := TrimStart(rawLine);
    if EXPORT <= s && |EXPORT| < |s| && IsSpace(s[|EXPORT|]) && MatchAssignment(TrimStart(s[|EXPORT|..])).Some? then
      MatchAssignment(TrimStart(s[|EXPORT|..]))
    else MatchAssignment(s)
  }

  predicate IsBlankOrComment(rawLine: string) {
    var line := Trim(rawLine);
    line == "" || line[0] == '#'
  }

  function ParseLine(rawLine: string): Option<Definition> {
    if IsBlankOrComment(rawLine) then None else MatchLine(rawLine)
  }

  function ParseLines(lines: seq<string>): seq<Definition> {
    if lines == [] then []
    else
      match ParseLine(lines[0])
      case None => ParseLines(lines[1..])
      case Some(def) => [def] + ParseLines(lines[1..])
  }

  function Definitions(text: string): seq<Definition> {
    ParseLines(Lines(text))
  }

  // ---- what reads back ----

  ghost predicate IsName(s: string) {
    s != "" && IsWordStart(s[0]) && forall i :: 0 <= i < |s| ==> IsWordChar(s[i])
  }

  ghost predicate OneLine(s: string) {
    forall i :: 0 <= i < |s| ==> !IsTerminator(s[i])
  }

  lemma {:induction false} WordCharsStop(w: string, rest: string)
    requires forall i :: 0 <= i < |w| ==> IsWordChar(w[i])
    requires rest != "" && !IsWordChar(rest[0])
    ensures WordChars(w + rest) == w
  {
    if w == "" {
      assert w + rest == rest;
    } else {
      assert (w + rest)[1..] == w[1..] + rest;
      WordCharsStop(w[1..], rest);
    }
  }

  lemma {:induction false} NameStops(key: string, rest: string)
    requires IsName(key) && rest != "" && !IsWordChar(rest[0])
    ensures LeadingName(key + rest) == key
  {
    WordCharsStop(key, rest);
  }

  lemma {:induction false} TerminatorNowhere(s: string)
    requires OneLine(s)
    ensures TerminatorIndex(s) == |s|
  {}

  lemma {:induction false} StartFixed(s: string)
    requires s == "" || !IsSpace(s[0])
    ensures TrimStart(s) == s
  {}

  /** What an assignment without white space before the equals sign gives. */
  function Assigned(key: string, value: string): Option<Definition> {
    var v := TrimStart(value);
    var i := TerminatorIndex(v);
    if TrimStart(v[i..]) != "" then None else Some(Definition(key, ParseValue(v[..i])))
  }

  lemma {:induction false} AssignmentReads(key: string, value: string)
    requires IsName(key)
    ensures MatchAssignment(key + "=" + value) == Assigned(key, value)
  {
    hide ParseValue, Trim;
    var s := key + "=" + value;
    assert s == key + ("=" + value);
    NameStops(key, "=" + value);
    assert s[|key|..] == "=" + value;
    StartFixed("=" + value);
    assert ("=" + value)[1..] == value;
  }

  lemma {:induction false} AssignedOneLine(key: string, value: string)
    requires OneLine(value)
    ensures Assigned(key, value) == Some(Definition(key, ParseValue(TrimStart(value))))
  {
    hide ParseValue, Trim;
    StartOnOneLine(value);
    var v := TrimStart(value);
    TerminatorNowhere(v);
    assert v[..|v|] == v && v[|v|..] == "";
  }

  /** Of a value on several lines something is always lost. */
  lemma {:induction false} AssignedLosesLines(key: string, value: string)
    requires !OneLine(value)
    ensures Assigned(key, value).Some? ==> |Assigned(key, value).value.value| < |value|
  {
    hide ParseValue, Trim;
    var v := TrimStart(value);
    var i := TerminatorIndex(v);
    TrimStartTrims(value);
    ValueNoLonger(v[..i]);
    if i == |v| {
      assert OneLine(v);
      assert v != value;
      StartShorter(value);
    }
  }

  lemma {:induction false} StartShorter(s: string)
    ensures TrimStart(s) == s || |TrimStart(s)| < |s|
  {
    if s != "" && IsSpace(s[0]) {
      TrimStartTrims(s[1..]);
    }
  }

  lemma {:induction false} StartOnOneLine(s: string)
    requires OneLine(s)
    ensures OneLine(TrimStart(s))
  {
    if s != "" && IsSpace(s[0]) {
      StartOnOneLine(s[1..]);
    }
  }

  /** A line that starts with a name is neither blank nor a comment. */
  lemma {:induction false} NameIsNoComment(s: string)
    requires s != "" && IsWordStart(s[0])
    ensures !IsBlankOrComment(s) && TrimStart(s) == s
  {
    StartFixed(s);
    TrimEndKeepsFirst(s);
  }

  lemma {:induction false} TrimEndKeepsFirst(s: string)
    requires s != "" && !IsSpace(s[0])
    ensures TrimEnd(s) != "" && TrimEnd(s)[0] == s[0]
  {
    if IsSpace(s[|s| - 1]) {
      TrimEndKeepsFirst(s[..|s| - 1]);
    }
  }

  /** A name before the equals sign is a name, also when it is `export`. */
  lemma {:induction false} PlainLineParses(key: string, value: string)
    requires IsName(key)
    ensures ParseLine(key + "=" + value) == Assigned(key, value)
  {
    hide Assigned, MatchAssignment, IsBlankOrComment;
    var s := key + "=" + value;
    assert s[0] == key[0];
    NameIsNoComment(s);
    AssignmentReads(key, value);
    assert s[|key|] == '=';
    assert forall i :: 0 <= i < |EXPORT| ==> EXPORT[i] != '=';
    assert EXPORT <= s ==> forall i :: 0 <= i < |EXPORT| ==> s[i] == EXPORT[i];
    assert |EXPORT| < |key| ==> s[|EXPORT|] == key[|EXPORT|];
  }

  /** With `export` and white space in front the line means the same. */
  lemma {:induction false} ExportLineParses(key: string, value: string)
    requires IsName(key)
    ensures ParseLine(EXPORT + " " + (key + "=" + value)) == Assigned(key, value)
  {
    hide Assigned, MatchAssignment, IsBlankOrComment;
    var rest := key + "=" + value;
    var s := EXPORT + " " + rest;
    assert s[0] == EXPORT[0];
    NameIsNoComment(s);
    AssignmentReads(key, value);
    assert s[|EXPORT|] == ' ' && s[|EXPORT|..] == " " + rest && (" " + rest)[1..] == rest;
    assert rest[0] == key[0];
    StartFixed(rest);
    ExportIsNoName(rest);
  }

  lemma {:induction false} ExportIsNoName(rest: string)
    requires rest != "" && IsWordStart(rest[0])
    ensures MatchAssignment(EXPORT + " " + rest) == None
  {
    hide ParseValue;
    assert EXPORT + " " + rest == EXPORT + (" " + rest);
    NameStops(EXPORT, " " + rest);
    assert (EXPORT + (" " + rest))[|EXPORT|..] == " " + rest && (" " + rest)[1..] == rest;
    StartFixed(rest);
  }

  /** Quotes around a value keep everything between them, white space, number signs and quotes included. */
  lemma {:induction false} QuotedValueReads(value: string, quote: char)
    requires quote == '"' || quote == '\''
    ensures TrimStart([quote] + value + [quote]) == [quote] + value + [quote]
    ensures ParseValue([quote] + value + [quote]) == value
  {
    var s := [quote] + value + [quote];
    StartFixed(s);
    TrimFixesTrimmed(s);
    assert s[1..|s| - 1] == value;
  }

  /** After a line terminator inside the quotes, the closing quote is left over. */
  lemma {:induction false} QuotedOnMoreLines(key: string, value: string, quote: char)
    requires quote == '"' || quote == '\''
    requires !OneLine(value)
    ensures Assigned(key, [quote] + value + [quote]) == None
  {
    hide ParseValue;
    var s := [quote] + value + [quote];
    StartFixed(s);
    var i :| 0 <= i < |value| && IsTerminator(value[i]);
    assert IsTerminator(s[i + 1]);
    var j := TerminatorIndex(s);
    assert j < |s| - 1;
    EndNotSpace(s[j..]);
  }

  lemma {:induction false} EndNotSpace(s: string)
    requires s != "" && !IsSpace(s[|s| - 1])
    ensures TrimStart(s) != ""
  {
    if IsSpace(s[0]) {
      EndNotSpace(s[1..]);
    }
  }

  lemma {:induction false} QuotedOnOneLine(value: string, quote: char)
    requires quote == '"' || quote == '\''
    requires OneLine(value)
    ensures OneLine([quote] + value + [quote])
  {}

  /** A quoted definition, with or without `export`, reads back exactly when its value stays on one line,
      whatever else is in it; else it is no definition at all. */
  lemma {:induction false} QuotedLineReads(def: Definition, quote: char)
    requires quote == '"' || quote == '\''
    requires IsName(def.key)
    ensures var text := def.key + "=" + ([quote] + def.value + [quote]);
            var read := if OneLine(def.value) then Some(def) else None;
            ParseLine(text) == read && ParseLine("export " + text) == read
  {
    hide ParseValue, ParseLine, Assigned, OneLine;
    assert EXPORT + " " == "export ";
    var quoted := [quote] + def.value + [quote];
    PlainLineParses(def.key, quoted);
    ExportLineParses(def.key, quoted);
    if OneLine(def.value) {
      QuotedValueReads(def.value, quote);
      QuotedOnOneLine(def.value, quote);
      AssignedOneLine(def.key, quoted);
    } else {
      QuotedOnMoreLines(def.key, def.value, quote);
    }
  }

  lemma {:induction false} ValueNoLonger(raw: string)
    ensures |ParseValue(raw)| <= |Trim(raw)|
    ensures Quoted(Trim(raw)) || CommentIndex(Trim(raw)) < |Trim(raw)| ==> |ParseValue(raw)| < |Trim(raw)|
  {}

  lemma {:induction false} UntrimmedIsLonger(s: string)
    requires !IsTrimmed(s)
    ensures |Trim(s)| < |s|
  {
    TrimStartTrims(s);
    TrimEndTrims(TrimStart(s));
    if IsSpace(s[0]) {
      TrimStartTrims(s[1..]);
    } else {
      StartFixed(s);
      TrimEndTrims(s[..|s| - 1]);
    }
  }

  lemma {:induction false} TrimAfterStart(s: string)
    ensures Trim(TrimStart(s)) == Trim(s)
  {
    TrimStartTrims(s);
    StartFixed(TrimStart(s));
  }

  /** Written without quotes, a value reads back exactly when it stays on one line, has no white space at its
      ends, is not quoted itself, and no inline comment starts in it. */
  lemma {:induction false} PlainLineReadsIff(key: string, value: string)
    requires IsName(key)
    ensures ParseLine(key + "=" + value) == Some(Definition(key, value))
            <==> OneLine(value) && IsTrimmed(value) && !Quoted(value) && !HasComment(value)
  {
    hide ParseLine, Quoted, CommentIndex, Trim, Assigned, OneLine, IsTrimmed, HasComment;
    CommentIndexIff(value);
    PlainLineParses(key, value);
    if OneLine(value) {
      AssignedOneLine(key, value);
      TrimAfterStart(value);
      ValueNoLonger(TrimStart(value));
      if IsTrimmed(value) {
        TrimFixesTrimmed(value);
      } else {
        UntrimmedIsLonger(value);
      }
    } else {
      AssignedLosesLines(key, value);
    }
  }

  // ---- comments and white space ----

  /** White space and then a number sign, anywhere. */
  ghost predicate HasComment(s: string) {
    exists i :: 0 <= i < |s| - 1 && IsSpace(s[i]) && s[i + 1] == '#'
  }

  lemma {:induction false} HasCommentTail(s: string)
    requires s != ""
    ensures HasComment(s) <==> HasComment(s[1..]) || (|s| > 1 && IsSpace(s[0]) && s[1] == '#')
  {
    var t := s[1..];
    assert forall i :: 0 <= i < |t| - 1 && IsSpace(t[i]) && t[i + 1] == '#' ==> IsSpace(s[i + 1]) && s[i + 2] == '#';
    assert forall i :: 0 < i < |s| - 1 && IsSpace(s[i]) && s[i + 1] == '#' ==> IsSpace(t[i - 1]) && t[i - 1 + 1] == '#';
  }

  lemma {:induction false} StartsCommentStep(s: string)
    ensures StartsComment(s) <==> |s| > 1 && IsSpace(s[0]) && (s[1] == '#' || StartsComment(s[1..]))
  {
    if s != "" && IsSpace(s[0]) {
      assert TrimStart(s) == TrimStart(s[1..]);
      if |s| > 1 && !IsSpace(s[1]) { StartFixed(s[1..]); }
    }
  }

  lemma {:induction false} CommentIndexIff(s: string)
    ensures CommentIndex(s) < |s| <==> HasComment(s)
    ensures StartsComment(s) ==> HasComment(s)
  {
    if s != "" {
      hide StartsComment, HasComment;
      CommentIndexIff(s[1..]);
      StartsCommentStep(s);
      HasCommentTail(s);
      assert CommentIndex(s) == if StartsComment(s) then 0 else 1 + CommentIndex(s[1..]);
    }
  }

  lemma {:induction false} CommentAfter(value: string, gap: string, comment: string)
    requires value != "" && !IsSpace(value[|value| - 1]) && !HasComment(value)
    requires gap != "" && AllSpace(gap)
    ensures CommentIndex(value + gap + "#" + comment) == |value|
    decreases |value|
  {
    var s := value + gap + "#" + comment;
    NoCommentStart(value, gap, comment);
    if |value| == 1 {
      assert s[1..] == gap + "#" + comment;
      GapStarts(gap, comment);
    } else {
      assert s[1..] == value[1..] + gap + "#" + comment;
      HasCommentTail(value);
      CommentAfter(value[1..], gap, comment);
    }
  }

  lemma {:induction false} GapStarts(gap: string, comment: string)
    requires gap != "" && AllSpace(gap)
    ensures StartsComment(gap + "#" + comment) && TrimStart(gap + "#" + comment) == "#" + comment
    decreases |gap|
  {
    var s := gap + "#" + comment;
    if |gap| == 1 {
      assert s[1..] == "#" + comment;
      StartFixed(s[1..]);
    } else {
      assert s[1..] == gap[1..] + "#" + comment;
      GapStarts(gap[1..], comment);
    }
  }

  lemma {:induction false} NoCommentStart(value: string, gap: string, comment: string)
    requires value != "" && !IsSpace(value[|value| - 1]) && !HasComment(value)
    ensures !StartsComment(value + gap + "#" + comment)
    decreases |value|
  {
    hide StartsComment, HasComment;
    var s := value + gap + "#" + comment;
    StartsCommentStep(s);
    if IsSpace(s[0]) {
      assert |value| > 1;
      assert s[1..] == value[1..] + gap + "#" + comment && s[1] == value[1];
      HasCommentTail(value);
      NoCommentStart(value[1..], gap, comment);
    }
  }

  /** Of an unquoted value with an inline comment exactly what stands before the comment is kept, without the
      white space in between. */
  lemma {:induction false} InlineCommentIsDropped(key: string, value: string, gap: string, comment: string)
    requires IsName(key) && OneLine(value + gap + "#" + comment)
    requires value != "" && IsTrimmed(value) && !HasComment(value) && gap != "" && AllSpace(gap)
    requires !Quoted(Trim(value + gap + "#" + comment))
    ensures ParseLine(key + "=" + (value + gap + "#" + comment)) == Some(Definition(key, value))
  {
    hide ParseLine, Assigned, OneLine, HasComment, Quoted;
    var raw := value + gap + "#" + comment;
    PlainLineParses(key, raw);
    AssignedOneLine(key, raw);
    StartFixed(raw);
    TrimEndBehind(value + gap + "#", comment);
    var shorter := TrimEnd(comment);
    assert Trim(raw) == value + gap + "#" + shorter;
    CommentAfter(value, gap, shorter);
    assert Trim(raw)[..|value|] == value;
    TrimFixesTrimmed(value);
  }

  lemma {:induction false} TrimEndBehind(front: string, s: string)
    requires front != "" && !IsSpace(front[|front| - 1])
    ensures TrimEnd(front + s) == front + TrimEnd(s)
  {
    if s == "" {
      assert front + s == front;
    } else if IsSpace(s[|s| - 1]) {
      assert (front + s)[..|front + s| - 1] == front + s[..|s| - 1];
      TrimEndBehind(front, s[..|s| - 1]);
    }
  }

  /** Blank lines and comments define nothing, however far they are indented. */
  lemma {:induction false} CommentDefinesNothing(indent: string, comment: string)
    requires AllSpace(indent)
    ensures ParseLine(indent) == None && ParseLine(indent + "#" + comment) == None
  {
    SpaceTrims(indent, "");
    assert indent + "" == indent;
    SpaceTrims(indent, "#" + comment);
    assert indent + ("#" + comment) == indent + "#" + comment;
    StartFixed("#" + comment);
    TrimEndKeepsFirst("#" + comment);
  }

  lemma {:induction false} SpaceTrims(indent: string, s: string)
    requires AllSpace(indent)
    ensures TrimStart(indent + s) == TrimStart(s)
  {
    if indent == "" {
      assert indent + s == s;
    } else {
      assert (indent + s)[1..] == indent[1..] + s;
      SpaceTrims(indent[1..], s);
    }
  }

  /** White space in front of the name and around the equals sign does not matter. */
  lemma {:induction false} WhiteSpaceAround(indent: string, key: string, left: string, right: string, value: string)
    requires IsName(key) && AllSpace(indent) && AllSpace(left) && AllSpace(right)
    ensures ParseLine(indent + (key + (left + ("=" + (right + value))))) == ParseLine(key + "=" + value)
  {
    hide Assigned, MatchAssignment, ParseValue;
    var tail := left + ("=" + (right + value));
    var s := key + tail;
    PlainLineParses(key, value);
    SpaceTrims(indent, s);
    assert s[0] == key[0];
    NameIsNoComment(s);
    SpacedAssignment(key, left, right, value);
    ExportNeedsName(key, left, right, value);
  }

  lemma {:induction false} SpacedAssignment(key: string, left: string, right: string, value: string)
    requires IsName(key) && AllSpace(left) && AllSpace(right)
    ensures MatchAssignment(key + (left + ("=" + (right + value)))) == Assigned(key, value)
  {
    hide ParseValue, Trim;
    var tail := left + ("=" + (right + value));
    assert tail[0] == (if left == "" then '=' else left[0]);
    NameStops(key, tail);
    assert (key + tail)[|key|..] == tail;
    SpaceTrims(left, "=" + (right + value));
    StartFixed("=" + (right + value));
    assert ("=" + (right + value))[1..] == right + value;
    SpaceTrims(right, value);
  }

  /** After a name that is `export` itself comes no other name. */
  lemma {:induction false} ExportNeedsName(key: string, left: string, right: string, value: string)
    requires IsName(key) && AllSpace(left) && AllSpace(right)
    ensures var s := key + (left + ("=" + (right + value)));
            EXPORT <= s && |EXPORT| < |s| && IsSpace(s[|EXPORT|]) ==>
              MatchAssignment(TrimStart(s[|EXPORT|..])) == None
  {
    var tail := left + ("=" + (right + value));
    var s := key + tail;
    if EXPORT <= s && |EXPORT| < |s| && IsSpace(s[|EXPORT|]) {
      assert forall i :: 0 <= i < |key| ==> s[i] == key[i];
      assert forall i :: 0 <= i < |EXPORT| ==> s[i] == EXPORT[i];
      assert forall i :: 0 <= i < |EXPORT| ==> EXPORT[i] != '=' && !IsSpace(EXPORT[i]);
      assert s[|key|] == tail[0] && (tail[0] == '=' || IsSpace(tail[0]));
      assert |key| == |EXPORT|;
      assert s[|EXPORT|..] == tail;
      SpaceTrims(left, "=" + (right + value));
      StartFixed("=" + (right + value));
    }
  }

  // ---- whole files ----

  /** One quoted definition per line, with either line end. */
  function Printed(defs: seq<Definition>, end: string): string {
    if defs == [] then "" else PrintedLine(defs[0]) + end + Printed(defs[1..], end)
  }

  function PrintedLine(def: Definition): string {
    def.key + "=" + ("\"" + def.value + "\"")
  }

  lemma {:induction false} PrintedOnOneLine(def: Definition)
    requires IsName(def.key) && OneLine(def.value)
    ensures '\n' !in PrintedLine(def) && WithoutReturn(PrintedLine(def)) == PrintedLine(def)
  {
    var line := PrintedLine(def);
    forall i | 0 <= i < |line| ensures line[i] != '\n' {
      if i < |def.key| {
        assert line[i] == def.key[i];
      } else if |def.key| + 2 <= i < |line| - 1 {
        assert line[i] == def.value[i - |def.key| - 2];
      }
    }
    assert line[|line| - 1] == '"';
  }

  lemma {:induction false} BlankEnd()
    ensures Definitions("") == []
  {
    assert Lines("") == [""];
    assert Trim("") == "";
    assert ParseLine("") == None;
    assert [""][1..] == [];
  }

  lemma {:induction false} DefinitionsStep(line: string, end: string, rest: string)
    requires '\n' !in line && WithoutReturn(line) == line
    requires end == "\n" || end == "\r\n"
    ensures Definitions(line + end + rest)
         == (match ParseLine(line) case None => [] case Some(def) => [def]) + Definitions(rest)
  {
    hide ParseLine;
    var text := line + end + rest;
    var front := if end == "\n" then line else line + "\r";
    assert text == front + ['\n'] + rest;
    IndexOfFirst(front, '\n', rest);
    assert text[..|front|] == front && text[|front| + 1..] == rest;
    assert WithoutReturn(front) == line;
    assert Lines(text) == [line] + Lines(rest);
    assert ([line] + Lines(rest))[1..] == Lines(rest);
  }

  /** A printed file, with either line end, gives back every definition, in order. */
  lemma {:induction false} PrintedFileReads(defs: seq<Definition>, end: string)
    requires end == "\n" || end == "\r\n"
    requires forall i :: 0 <= i < |defs| ==> IsName(defs[i].key) && OneLine(defs[i].value)
    ensures Definitions(Printed(defs, end)) == defs
  {
    if defs == [] {
      BlankEnd();
    } else {
      hide ParseLine, Definitions;
      PrintedOnOneLine(defs[0]);
      QuotedLineReads(defs[0], '"');
      DefinitionsStep(PrintedLine(defs[0]), end, Printed(defs[1..], end));
      PrintedFileReads(defs[1..], end);
      assert defs == [defs[0]] + defs[1..];
    }
  }
}
