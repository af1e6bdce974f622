/** The string normalizers `normalizeApiErrorCode` of apps/shared-types/src/api.ts and `buildTestId` of
    apps/mobile/src/testing.ts: runs of other characters become one separator, and none is left at the
    ends.  Case mapping is an arbitrary function that leaves finished texts alone. */
module TextSlugs {
  import opened JsText

  /** Which characters are kept, and the separator. */
  datatype Style = ErrorCode | TestId {
    predicate Keeps(c: char) {
      '0' <= c <= '9' || (if ErrorCode? then 'A' <= c <= 'Z' else 'a' <= c <= 'z')
    }

    function Separator(): char {
      if ErrorCode? then '_' else '-'
    }
  }

  // ---- the replacements ----

  function DropRun(style: Style, s: string): (r: string)
    ensures |r| <= |s|
    ensures r == "" || style.Keeps(r[0])
  {
    if s != "" && !style.Keeps(s[0]) then DropRun(style, s[1..]) else s
  }

  /** Every maximal run of characters that are not kept becomes one separator. */
  function Collapse(style: Style, s: string): string
    decreases |s|
  {
    if s == "" then ""
    else if style.Keeps(s[0]) then [s[0]] + Collapse(style, s[1..])
    else [style.Separator()] + Collapse(style, DropRun(style, s))
  }

  function StripStart(style: Style, s: string): string {
    if s != "" && s[0] == style.Separator() then StripStart(style, s[1..]) else s
  }

  function StripEnd(style: Style, s: string): string {
    if s != "" && s[|s| - 1] == style.Separator() then StripEnd(style, s[..|s| - 1]) else s
  }

  function Slug(style: Style, s: string): string {
    StripEnd(style, StripStart(style, Collapse(style, s)))
  }

  /** Non-empty runs of kept characters with single separators between them. */
  ghost predicate IsSlug(style: Style, s: string) {
    && s != "" && style.Keeps(s[0]) && style.Keeps(s[|s| - 1])
    && (forall i :: 0 <= i < |s| ==> style.Keeps(s[i]) || s[i] == style.Separator())
    && (forall i :: 0 <= i < |s| - 1 ==> style.Keeps(s[i]) || style.Keeps(s[i + 1]))
  }

  /** No two separators in a row, and nothing else that is not kept. */
  ghost predicate IsCollapsed(style: Style, s: string) {
    && (forall i :: 0 <= i < |s| ==> style.Keeps(s[i]) || s[i] == style.Separator())
    && (forall i :: 0 <= i < |s| - 1 ==> style.Keeps(s[i]) || style.Keeps(s[i + 1]))
  }

  lemma {:induction false} CollapseCollapses(style: Style, s: string)
    ensures IsCollapsed(style, Collapse(style, s))
    ensures s != "" && style.Keeps(s[0]) ==> Collapse(style, s) != "" && style.Keeps(Collapse(style, s)[0])
    decreases |s|
  {
    if s != "" {
      if style.Keeps(s[0]) {
        CollapseCollapses(style, s[1..]);
      } else {
        CollapseCollapses(style, DropRun(style, s));
      }
    }
  }

  lemma {:induction false} CollapseFixes(style: Style, s: string)
    requires IsCollapsed(style, s)
    ensures Collapse(style, s) == s
    decreases |s|
  {
    if s != "" {
      CollapseFixes(style, s[1..]);
      if !style.Keeps(s[0]) {
        assert 1 < |s| ==> style.Keeps(s[1]);
        assert DropRun(style, s) == DropRun(style, s[1..]) == s[1..];
      }
    }
  }

  lemma {:induction false} StripStartKeeps(style: Style, s: string)
    requires IsCollapsed(style, s)
    ensures IsCollapsed(style, StripStart(style, s))
    ensures StripStart(style, s) == "" || style.Keeps(StripStart(style, s)[0])
  {
    if s != "" && s[0] == style.Separator() {
      StripStartKeeps(style, s[1..]);
    }
  }

  lemma {:induction false} StripEndKeeps(style: Style, s: string)
    requires IsCollapsed(style, s)
    requires s == "" || style.Keeps(s[0])
    ensures StripEnd(style, s) == "" || IsSlug(style, StripEnd(style, s))
  {
    if s != "" && s[|s| - 1] == style.Separator() {
      StripEndKeeps(style, s[..|s| - 1]);
    }
  }

  /** The result is empty or a slug, and a slug is its own result. */
  lemma {:induction false} SlugIsSlug(style: Style, s: string)
    ensures Slug(style, s) == "" || IsSlug(style, Slug(style, s))
  {
    CollapseCollapses(style, s);
    StripStartKeeps(style, Collapse(style, s));
    StripEndKeeps(style, StripStart(style, Collapse(style, s)));
  }

  lemma {:induction false} SlugFixesSlugs(style: Style, s: string)
    requires IsSlug(style, s)
    ensures Slug(style, s) == s
  {
    CollapseFixes(style, s);
  }

  lemma {:induction false} SlugIsTrimmed(style: Style, s: string)
    requires IsSlug(style, s)
    ensures Trim(s) == s
  {
    TrimFixesTrimmed(s);
  }

  /** A case map that leaves slugs and the empty text alone. */
  ghost predicate MapsCase(style: Style, mapCase: string -> string) {
    mapCase("") == "" && forall s :: IsSlug(style, s) ==> mapCase(s) == s
  }

  // ---- a slug is made of words ----

  /** Digits and the letters of one case are kept, and the separators are an underscore and a dash. */
  lemma {:induction false} KeptCharacters(c: char)
    ensures ErrorCode.Keeps(c) <==> c in UPPER || c in DIGITS
    ensures TestId.Keeps(c) <==> c in LOWER || c in DIGITS
    ensures ErrorCode.Separator() == '_' && TestId.Separator() == '-'
  {
    UpperAre(c);
    LowerAre(c);
    DigitsAre(c);
  }

  function LeadingWord(style: Style, s: string): (w: string)
    ensures w <= s
    ensures s != "" && style.Keeps(s[0]) ==> w != ""
  {
    if s != "" && style.Keeps(s[0]) then [s[0]] + LeadingWord(style, s[1..]) else ""
  }

  /** The maximal runs of kept characters. */
  function Words(style: Style, s: string): seq<string>
    decreases |s|
  {
    if s == "" then []
    else if !style.Keeps(s[0]) then Words(style, s[1..])
    else [LeadingWord(style, s)] + Words(style, s[|LeadingWord(style, s)|..])
  }

  function JoinedWith(words: seq<string>, c: char): string {
    if words == [] then "" else if |words| == 1 then words[0] else words[0] + [c] + JoinedWith(words[1..], c)
  }

  lemma {:induction false} CollapseWord(style: Style, s: string)
    ensures var w := LeadingWord(style, s);
            Collapse(style, s) == w + Collapse(style, s[|w|..])
            && (|w| < |s| ==> !style.Keeps(s[|w|]))
  {
    hide DropRun;
    if s != "" && style.Keeps(s[0]) {
      CollapseWord(style, s[1..]);
      var w := LeadingWord(style, s[1..]);
      assert s[1..][|w|..] == s[1 + |w|..];
    }
  }

  lemma {:induction false} WordsAfterRun(style: Style, s: string)
    ensures Words(style, DropRun(style, s)) == Words(style, s)
  {
    if s != "" && !style.Keeps(s[0]) {
      WordsAfterRun(style, s[1..]);
    }
  }

  /** From a kept character on, collapsing gives the joined words, and a separator when something else follows
      the last one. */
  lemma {:induction false} CollapseJoins(style: Style, s: string) returns (end: string)
    requires s == "" || style.Keeps(s[0])
    ensures end == "" || end == [style.Separator()]
    ensures Collapse(style, s) == JoinedWith(Words(style, s), style.Separator()) + end
    ensures (s == "" <==> Words(style, s) == []) && (s == "" ==> end == "")
    decreases |s|
  {
    hide Collapse, Words, JoinedWith, DropRun;
    end := "";
    if s == "" {
      NothingCollapsed(style);
    } else {
      var c := style.Separator();
      var w := LeadingWord(style, s);
      var rest := s[|w|..];
      CollapseWord(style, s);
      WordsStep(style, s);
      JoinedStep(w, Words(style, rest), c);
      NothingCollapsed(style);
      if rest != "" {
        var next := DropRun(style, rest);
        assert rest[0] == s[|w|];
        WordsAfterRun(style, rest);
        CollapseRun(style, rest);
        end := CollapseJoins(style, next);
        if next == "" {
          end := [c];
        }
      }
    }
  }

  lemma {:induction false} NothingCollapsed(style: Style)
    ensures Collapse(style, "") == "" && Words(style, "") == [] && JoinedWith([], style.Separator()) == ""
  {}

  lemma {:induction false} WordsStep(style: Style, s: string)
    requires s != "" && style.Keeps(s[0])
    ensures Words(style, s) == [LeadingWord(style, s)] + Words(style, s[|LeadingWord(style, s)|..])
  {}

  lemma {:induction false} CollapseRun(style: Style, s: string)
    requires s != "" && !style.Keeps(s[0])
    ensures Collapse(style, s) == [style.Separator()] + Collapse(style, DropRun(style, s))
    ensures |DropRun(style, s)| < |s|
  {}

  lemma {:induction false} JoinedStep(w: string, words: seq<string>, c: char)
    ensures JoinedWith([w] + words, c) == if words == [] then w else w + [c] + JoinedWith(words, c)
  {
    assert ([w] + words)[1..] == words;
  }

  lemma {:induction false} JoinedIsSlug(style: Style, s: string)
    requires s == "" || style.Keeps(s[0])
    ensures var joined := JoinedWith(Words(style, s), style.Separator());
            joined == "" || (style.Keeps(joined[0]) && style.Keeps(joined[|joined| - 1]))
    decreases |s|
  {
    if s != "" {
      var w := LeadingWord(style, s);
      var rest := s[|w|..];
      LeadingWordKept(style, s);
      CollapseWord(style, s);
      WordsAfterRun(style, rest);
      JoinedIsSlug(style, DropRun(style, rest));
      var words := Words(style, rest);
      assert ([w] + words)[1..] == words;
      WordsNotEmpty(style, rest);
    }
  }

  lemma {:induction false} LeadingWordKept(style: Style, s: string)
    ensures forall i :: 0 <= i < |LeadingWord(style, s)| ==> style.Keeps(LeadingWord(style, s)[i])
  {
    if s != "" && style.Keeps(s[0]) {
      LeadingWordKept(style, s[1..]);
    }
  }

  lemma {:induction false} WordsNotEmpty(style: Style, s: string)
    ensures Words(style, s) != [] ==> JoinedWith(Words(style, s), style.Separator()) != ""
    decreases |s|
  {
    if s != "" {
      if style.Keeps(s[0]) {
        var w := LeadingWord(style, s);
        WordsNotEmpty(style, s[|w|..]);
      } else {
        WordsNotEmpty(style, s[1..]);
      }
    }
  }

  /** What becomes of a text: its words, joined by single separators. */
  lemma {:induction false} SlugJoinsWords(style: Style, s: string)
    ensures Slug(style, s) == JoinedWith(Words(style, s), style.Separator())
  {
    hide Words, JoinedWith;
    var d := DropRun(style, s);
    WordsAfterRun(style, s);
    var end := CollapseJoins(style, d);
    JoinedIsSlug(style, d);
    WordsNotEmpty(style, d);
    var joined := JoinedWith(Words(style, d), style.Separator());
    StripJoined(style, joined, end);
    if s != "" && !style.Keeps(s[0]) {
      assert ([style.Separator()] + Collapse(style, d))[1..] == Collapse(style, d);
    }
  }

  lemma {:induction false} StripJoined(style: Style, joined: string, end: string)
    requires joined == "" || (style.Keeps(joined[0]) && style.Keeps(joined[|joined| - 1]))
    requires end == "" || (end == [style.Separator()] && joined != "")
    ensures StripStart(style, joined + end) == joined + end && StripEnd(style, joined + end) == joined
  {
    assert joined + "" == joined;
    if end != "" {
      assert (joined + end)[..|joined|] == joined;
    }
  }

  // ---- error codes ----

  const DEFAULT_CODE := "DOMAIN_ERROR"

  function NormalizeApiErrorCode(upper: string -> string, value: string): string {
    var code := Slug(ErrorCode, upper(Trim(value)));
    if code == "" then DEFAULT_CODE else code
  }

  lemma {:induction false} DefaultIsSlug()
    ensures IsSlug(ErrorCode, DEFAULT_CODE)
  {}

  /** Normalizing twice is normalizing once. */
  lemma {:induction false} NormalizeIdempotent(upper: string -> string, value: string)
    requires MapsCase(ErrorCode, upper)
    ensures NormalizeApiErrorCode(upper, NormalizeApiErrorCode(upper, value)) == NormalizeApiErrorCode(upper, value)
  {
    NormalizedExactly(upper, NormalizeApiErrorCode(upper, value));
    assert IsSlug(ErrorCode, NormalizeApiErrorCode(upper, value)) by {
      SlugIsSlug(ErrorCode, upper(Trim(value)));
      DefaultIsSlug();
    }
  }

  /** The codes that normalizing returns are exactly the non-empty runs of A-Z and 0-9 joined by single
      underscores; those are returned as they are. */
  lemma {:induction false} NormalizedExactly(upper: string -> string, code: string)
    requires MapsCase(ErrorCode, upper)
    ensures IsSlug(ErrorCode, code) ==> NormalizeApiErrorCode(upper, code) == code
    ensures IsSlug(ErrorCode, code) <==> exists value :: NormalizeApiErrorCode(upper, value) == code
  {
    if IsSlug(ErrorCode, code) {
      SlugIsTrimmed(ErrorCode, code);
      SlugFixesSlugs(ErrorCode, code);
      assert NormalizeApiErrorCode(upper, code) == code;
    } else {
      forall value ensures NormalizeApiErrorCode(upper, value) != code {
        SlugIsSlug(ErrorCode, upper(Trim(value)));
        DefaultIsSlug();
      }
    }
  }

  /** The code of any text: the words of its upper-case form joined by underscores, and `DOMAIN_ERROR` when it
      has none. */
  lemma {:induction false} CodeJoinsWords(upper: string -> string, value: string)
    ensures var words := Words(ErrorCode, upper(Trim(value)));
            NormalizeApiErrorCode(upper, value) == if words == [] then "DOMAIN_ERROR" else JoinedWith(words, '_')
  {
    hide Words, JoinedWith, Slug;
    SlugJoinsWords(ErrorCode, upper(Trim(value)));
    WordsNotEmpty(ErrorCode, upper(Trim(value)));
    NoWords('_');
  }

  lemma {:induction false} NoWords(c: char)
    ensures JoinedWith([], c) == ""
  {}

  // ---- test ids ----

  /** A part that is missing is left out; numbers come as their texts. */
  type Part = Option<string>

  function PartSlug(lower: string -> string, part: Part): string {
    if part.None? then "" else Slug(TestId, lower(Trim(part.value)))
  }

  function PartSlugs(lower: string -> string, parts: seq<Part>): seq<string> {
    if parts == [] then []
    else (if PartSlug(lower, parts[0]) == "" then [] else [PartSlug(lower, parts[0])])
         + PartSlugs(lower, parts[1..])
  }

  function Join(pieces: seq<string>): string {
    if pieces == [] then "" else if |pieces| == 1 then pieces[0] else pieces[0] + "-" + Join(pieces[1..])
  }

  function BuildTestId(lower: string -> string, parts: seq<Part>): string {
    Join(PartSlugs(lower, parts))
  }

  ghost predicate AllSlugs(pieces: seq<string>) {
    forall i :: 0 <= i < |pieces| ==> IsSlug(TestId, pieces[i])
  }

  lemma {:induction false} PartSlugsAreSlugs(lower: string -> string, parts: seq<Part>)
    ensures AllSlugs(PartSlugs(lower, parts))
  {
    if parts != [] {
      PartSlugsAreSlugs(lower, parts[1..]);
      if parts[0].Some? { SlugIsSlug(TestId, lower(Trim(parts[0].value))); }
    }
  }

  lemma {:induction false} SlugsJoin(a: string, b: string)
    requires IsSlug(TestId, a) && IsSlug(TestId, b)
    ensures IsSlug(TestId, a + "-" + b)
  {
    var w := a + "-" + b;
    forall i | 0 <= i < |w| - 1 ensures TestId.Keeps(w[i]) || TestId.Keeps(w[i + 1]) {
      if i < |a| - 1 {
        assert w[i] == a[i] && w[i + 1] == a[i + 1];
      } else if |a| < i {
        assert w[i] == b[i - |a| - 1] && w[i + 1] == b[i - |a|];
      }
    }
  }

  lemma {:induction false} JoinIsSlug(pieces: seq<string>)
    requires AllSlugs(pieces) && pieces != []
    ensures IsSlug(TestId, Join(pieces))
  {
    if 1 < |pieces| {
      JoinIsSlug(pieces[1..]);
      SlugsJoin(pieces[0], Join(pieces[1..]));
    }
  }

  lemma {:induction false} JoinConcat(a: seq<string>, b: seq<string>)
    requires a != [] && b != []
    ensures Join(a + b) == Join(a) + "-" + Join(b)
  {
    assert (a + b)[1..] == a[1..] + b;
    if 1 < |a| {
      JoinConcat(a[1..], b);
      assert a[0] + "-" + (Join(a[1..]) + "-" + Join(b)) == a[0] + "-" + Join(a[1..]) + "-" + Join(b);
    } else {
      assert a[1..] + b == b;
    }
  }

  /** Joining is associative: a joined group counts as its pieces. */
  lemma {:induction false} JoinFlattens(a: seq<string>, b: seq<string>, c: seq<string>)
    requires b != []
    ensures Join(a + [Join(b)] + c) == Join(a + b + c)
  {
    assert Join([Join(b)]) == Join(b);
    JoinSame(a, [Join(b)], b);
    assert a + [Join(b)] != [] && a + b != [];
    if c == [] {
      assert a + [Join(b)] + c == a + [Join(b)] && a + b + c == a + b;
    } else {
      JoinConcat(a + [Join(b)], c);
      JoinConcat(a + b, c);
    }
  }

  lemma {:induction false} JoinSame(a: seq<string>, b: seq<string>, b': seq<string>)
    requires b != [] && b' != [] && Join(b) == Join(b')
    ensures Join(a + b) == Join(a + b')
  {
    if a == [] {
      assert a + b == b && a + b' == b';
    } else {
      JoinConcat(a, b);
      JoinConcat(a, b');
    }
  }

  lemma {:induction false} PartSlugsConcat(lower: string -> string, a: seq<Part>, b: seq<Part>)
    ensures PartSlugs(lower, a + b) == PartSlugs(lower, a) + PartSlugs(lower, b)
  {
    hide PartSlug;
    if a == [] {
      assert a + b == b;
    } else {
      var head := if PartSlug(lower, a[0]) == "" then [] else [PartSlug(lower, a[0])];
      assert (a + b)[1..] == a[1..] + b;
      PartSlugsConcat(lower, a[1..], b);
      var rest, tail := PartSlugs(lower, a[1..]), PartSlugs(lower, b);
      assert head + (rest + tail) == head + rest + tail;
    }
  }

  /** A test id is empty or a slug. */
  lemma {:induction false} TestIdIsSlug(lower: string -> string, parts: seq<Part>)
    ensures BuildTestId(lower, parts) == "" || IsSlug(TestId, BuildTestId(lower, parts))
  {
    PartSlugsAreSlugs(lower, parts);
    if PartSlugs(lower, parts) != [] { JoinIsSlug(PartSlugs(lower, parts)); }
  }

  lemma {:induction false} NestedPart(lower: string -> string, inner: seq<Part>)
    requires MapsCase(TestId, lower)
    ensures var id := BuildTestId(lower, inner);
            PartSlugs(lower, [Some(id)]) == if PartSlugs(lower, inner) == [] then [] else [id]
  {
    var id := BuildTestId(lower, inner);
    PartSlugsAreSlugs(lower, inner);
    assert [Some(id)][1..] == [];
    if PartSlugs(lower, inner) == [] {
      assert Trim("") == "";
      assert Slug(TestId, "") == "";
    } else {
      JoinIsSlug(PartSlugs(lower, inner));
      SlugIsTrimmed(TestId, id);
      SlugFixesSlugs(TestId, id);
    }
  }

  /** Nesting flattens: a test id used as one of the parts counts as the parts it was built from. */
  lemma {:induction false} NestingFlattens(lower: string -> string, before: seq<Part>, inner: seq<Part>,
                                           after: seq<Part>)
    requires MapsCase(TestId, lower)
    ensures BuildTestId(lower, before + [Some(BuildTestId(lower, inner))] + after)
         == BuildTestId(lower, before + inner + after)
  {
    hide PartSlugs, Join, MapsCase;
    var a, b, c := PartSlugs(lower, before), PartSlugs(lower, inner), PartSlugs(lower, after);
    var nested := [Some(BuildTestId(lower, inner))];
    NestedPart(lower, inner);
    PartSlugsConcat(lower, before + nested, after);
    PartSlugsConcat(lower, before, nested);
    PartSlugsConcat(lower, before + inner, after);
    PartSlugsConcat(lower, before, inner);
    if b == [] {
      assert a + [] + c == a + c;
    } else {
      JoinFlattens(a, b, c);
    }
  }

  /** How a test id is built, part by part: a missing part and one without words count for nothing, any other
      one puts its words, joined by dashes, in front. */
  lemma {:induction false} TestIdPartByPart(lower: string -> string, part: Part, rest: seq<Part>)
    ensures BuildTestId(lower, []) == ""
    ensures var id := BuildTestId(lower, rest);
            var x := if part.None? then "" else JoinedWith(Words(TestId, lower(Trim(part.value))), '-');
            BuildTestId(lower, [part] + rest) == if x == "" then id else if id == "" then x else x + "-" + id
  {
    hide Words, JoinedWith, Slug;
    assert ([part] + rest)[1..] == rest;
    if part.Some? { SlugJoinsWords(TestId, lower(Trim(part.value))); }
    PartSlugsAreSlugs(lower, rest);
    var pieces := PartSlugs(lower, rest);
    var own := PartSlug(lower, part);
    assert PartSlugs(lower, [part] + rest) == (if own == "" then [] else [own]) + pieces;
    if pieces != [] {
      JoinIsSlug(pieces);
      assert ([own] + pieces)[1..] == pieces;
    }
    if own == "" {
      assert [] + pieces == pieces;
    }
  }
}
