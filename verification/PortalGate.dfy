/** apps/saas-portal/lib/auth.config.ts: the `authorized` callback as a redirect machine over URLs.

    A URL is its path and its raw query.  How the URL parser rewrites a path (dot segments, escapes,
    back-slashes) is an arbitrary function `norm`; what it does to the rest is modelled. */
module PortalGate {
  import opened JsText
  import opened Utf8
  import opened PercentCoding
  import opened PortalNavigation

  /** `query` is the part after `?`, empty when there is none. */
  datatype Url = Url(path: string, query: string)

  /** What the session lookup answered. */
  datatype Outcome = LoggedOut | SessionMissing | LegalPending | Clear

  // ---- the URL parser ----

  function DropTabs(s: string): (r: string)
    ensures |r| <= |s|
    ensures forall c :: c in r ==> c in s
  {
    if s == [] then []
    else (if IsTab(s[0]) then [] else [s[0]]) + DropTabs(s[1..])
  }

  function DropTrailingControls(s: string): (r: string)
    ensures r <= s
  {
    if s != [] && s[|s| - 1] <= ' ' then DropTrailingControls(s[..|s| - 1]) else s
  }

  /** The reference without its fragment, as the URL parser sees it. */
  function Reference(target: string): (r: string)
    ensures |r| <= |target|
  {
    var input := DropTabs(DropTrailingControls(target));
    input[..IndexOf(input, '#')]
  }

  predicate IsSlash(c: char) {
    c == '/' || c == '\\'
  }

  /** Does the target name a host?  After a first slash, the URL parser takes a second one of either kind
      for the start of a host name. */
  predicate NamesHost(target: string) {
    var text := Reference(target);
    2 <= |text| && text[0] == '/' && IsSlash(text[1])
  }

  function SkipSlashes(s: string): (r: string)
    ensures |r| <= |s|
    ensures r == "" || !IsSlash(r[0])
  {
    if s != "" && IsSlash(s[0]) then SkipSlashes(s[1..]) else s
  }

  /** What stands before the next slash or the query. */
  function UntilSlash(s: string): string {
    if s == "" || IsSlash(s[0]) || s[0] == '?' then "" else [s[0]] + UntilSlash(s[1..])
  }

  /** The host name in a target that has one, with port and credentials if any. */
  function Authority(target: string): string
    requires NamesHost(target)
  {
    UntilSlash(SkipSlashes(Reference(target)[2..]))
  }

  /** What a host name stands for: the portal's own host, another one, or none, so that `new URL` throws. */
  datatype Host = Own | Other | Invalid

  /** Where a redirect to the target ends up. */
  datatype Landing = OnPortal | OffPortal | Nowhere

  function LandingOf(hosts: string -> Host, target: string): Landing {
    if !NamesHost(target) then OnPortal
    else
      match hosts(Authority(target))
      case Own => OnPortal
      case Other => OffPortal
      case Invalid => Nowhere
  }

  /** `new URL(target, base)` for a target that starts with a slash and ends up on the portal.  A host name
      is part of what `norm` gets, and the query is what follows the first question mark in any case. */
  function Resolve(norm: string -> string, target: string): Url {
    var text := Reference(target);
    var i := IndexOf(text, '?');
    Url(norm(text[..i]), if i < |text| then Encode(Query, text[i + 1..]) else "")
  }

  predicate IsTab(c: char) {
    c == '\t' || c == '\n' || c == '\r'
  }

  /** The first character that the URL parser does not skip is a slash of either kind. */
  predicate SlashAfterTabs(s: string) {
    s != "" && (IsSlash(s[0]) || (IsTab(s[0]) && SlashAfterTabs(s[1..])))
  }

  /** The three gate paths are already normal. */
  ghost predicate FixesGatePaths(norm: string -> string) {
    norm(PORTAL_LOGIN_PATH) == PORTAL_LOGIN_PATH
    && norm(PORTAL_LEGAL_PATH) == PORTAL_LEGAL_PATH
    && norm(PORTAL_HOME_PATH) == PORTAL_HOME_PATH
  }

  // ---- the gate ----

  function CurrentPortalPath(u: Url): string {
    if u.query != "" then u.path + "?" + u.query else u.path
  }

  predicate IsPortalRoute(u: Url) { "/portal" <= u.path }
  predicate IsAuthPage(u: Url) { PORTAL_LOGIN_PATH <= u.path }
  predicate IsLegalPage(u: Url) { PORTAL_LEGAL_PATH <= u.path }

  function ResolvePostGatePath(u: Url): string {
    if IsAuthPage(u) then SanitizePortalReturnTo(SearchGet(u.query, "callbackUrl"), PORTAL_HOME_PATH)
    else if IsLegalPage(u) then SanitizePortalReturnTo(SearchGet(u.query, "returnTo"), PORTAL_HOME_PATH)
    else PORTAL_HOME_PATH
  }

  /** The callback: `None` lets the request through, `Some` redirects. */
  function Authorized(outcome: Outcome, u: Url): Option<string> {
    match outcome
    case LoggedOut =>
      if IsPortalRoute(u) || IsLegalPage(u) then Some(BuildLoginPath(Some(CurrentPortalPath(u)))) else None
    case SessionMissing =>
      if IsPortalRoute(u) || IsLegalPage(u) then Some(BuildLoginPath(Some(CurrentPortalPath(u)))) else None
    case LegalPending =>
      if IsLegalPage(u) then None else Some(LegalPath(Some(CurrentPortalPath(u)), None))
    case Clear =>
      if IsAuthPage(u) || IsLegalPage(u) then Some(ResolvePostGatePath(u)) else None
  }

  /** The next page of the portal: none when the request is let through, when it is sent to another host,
      and when the callback throws because the target has no valid host. */
  function Next(norm: string -> string, hosts: string -> Host, outcome: Outcome, u: Url): Option<Url> {
    match Authorized(outcome, u)
    case None => None
    case Some(target) => if LandingOf(hosts, target) == OnPortal then Some(Resolve(norm, target)) else None
  }

  // ---- which targets name a host ----

  lemma {:induction false} SlashSurvivesDrop(s: string)
    ensures SlashAfterTabs(DropTrailingControls(s)) <==> SlashAfterTabs(s)
  {
    if s != "" && s[|s| - 1] <= ' ' {
      SlashSurvivesDrop(s[..|s| - 1]);
      SlashNotLast(s);
    }
  }

  lemma {:induction false} SlashNotLast(s: string)
    requires s != "" && s[|s| - 1] <= ' '
    ensures SlashAfterTabs(s[..|s| - 1]) <==> SlashAfterTabs(s)
  {
    if |s| > 1 {
      assert s[..|s| - 1][1..] == s[1..][..|s| - 2];
      SlashNotLast(s[1..]);
    }
  }

  lemma {:induction false} SlashIsFirst(s: string)
    ensures SlashAfterTabs(s) <==> DropTabs(s) != "" && IsSlash(DropTabs(s)[0])
  {
    if s != "" {
      SlashIsFirst(s[1..]);
    }
  }

  lemma {:induction false} DropAfterSlash(s: string)
    ensures DropTrailingControls("/" + s) == "/" + DropTrailingControls(s)
    ensures DropTabs("/" + s) == "/" + DropTabs(s)
  {
    assert ("/" + s)[1..] == s;
    if s != "" && s[|s| - 1] <= ' ' {
      assert ("/" + s)[..|s|] == "/" + s[..|s| - 1];
      DropAfterSlash(s[..|s| - 1]);
    }
  }

  /** A target names a host exactly when a slash or a back-slash follows its first slash, tabs and line
      breaks aside. */
  lemma {:induction false} NamesHostIff(target: string)
    requires "/" <= target
    ensures NamesHost(target) <==> SlashAfterTabs(target[1..])
  {
    hide DropTabs, DropTrailingControls, SlashAfterTabs;
    var rest := target[1..];
    assert target == "/" + rest;
    DropAfterSlash(rest);
    DropAfterSlash(DropTrailingControls(rest));
    SlashSurvivesDrop(rest);
    SlashIsFirst(DropTrailingControls(rest));
    var input := DropTabs(DropTrailingControls(target));
    assert input == "/" + DropTabs(DropTrailingControls(rest));
    var i := IndexOf(input, '#');
    assert i >= 1;
    assert 2 <= |input| && IsSlash(input[1]) ==> i >= 2;
  }

  /** The sanitizers only look for two plain slashes at the start: what they let pass names a host exactly
      when a back-slash follows the first slash, or a tab or line break and then a slash of either kind. */
  lemma {:induction false} SanitizedNamesHostIff(p: Option<string>)
    ensures var r := SanitizePortalReturnTo(p, PORTAL_HOME_PATH);
            NamesHost(r) <==> 1 < |r| && (r[1] == '\\' || (IsTab(r[1]) && SlashAfterTabs(r[2..])))
  {
    hide NamesHost, Trim;
    var r := SanitizePortalReturnTo(p, PORTAL_HOME_PATH);
    assert PORTAL_HOME_PATH[1] != "//"[1];
    assert "//" <= r <==> 2 <= |r| && r[0] == '/' && r[1] == '/';
    NamesHostIff(r);
    if 1 < |r| {
      assert r[1..][1..] == r[2..];
    }
  }

  /** Such a target leaves the portal exactly when the host that it names is another one, and makes the
      callback throw exactly when it is none. */
  lemma {:induction false} SanitizedLandsOnPortalIff(hosts: string -> Host, p: Option<string>)
    ensures var r := SanitizePortalReturnTo(p, PORTAL_HOME_PATH);
            var hasHost := 1 < |r| && (r[1] == '\\' || (IsTab(r[1]) && SlashAfterTabs(r[2..])));
            (LandingOf(hosts, r) == OnPortal <==> hasHost ==> NamesHost(r) && hosts(Authority(r)) == Own)
            && (LandingOf(hosts, r) == OffPortal <==> hasHost && NamesHost(r) && hosts(Authority(r)) == Other)
            && (LandingOf(hosts, r) == Nowhere <==> hasHost && NamesHost(r) && hosts(Authority(r)) == Invalid)
  {
    hide NamesHost, Authority, Trim, SlashAfterTabs;
    SanitizedNamesHostIff(p);
  }

  /** A host name behind a slash and a back-slash passes the sanitizer, and is the one that is read. */
  lemma {:induction false} BackslashNamesHost(host: string, rest: string)
    requires IsPlain(host) && IsPlain(rest) && (rest == "" || IsSlash(rest[0]) || rest[0] == '?')
    requires forall i :: 0 <= i < |host| ==> !IsSlash(host[i]) && host[i] != '?'
    requires IsTrimmed("/\\" + host + rest)
    ensures var target := "/\\" + host + rest;
            SanitizePortalReturnTo(Some(target), PORTAL_HOME_PATH) == target
            && NamesHost(target) && Authority(target) == if host == "" then UntilSlash(SkipSlashes(rest)) else host
  {
    hide SanitizePortalReturnTo, Reference;
    var target := "/\\" + host + rest;
    SanitizerKeeps(target);
    InertReference(target);
    assert target[2..] == host + rest;
    if host == "" {
      assert host + rest == rest;
    } else {
      assert (host + rest)[0] == host[0];
      UntilSlashStops(host, rest);
    }
  }

  lemma {:induction false} SanitizerKeeps(target: string)
    requires IsTrimmed(target) && 1 < |target| && target[0] == '/' && target[1] == '\\'
    ensures SanitizePortalReturnTo(Some(target), PORTAL_HOME_PATH) == target
  {
    hide Trim;
    TrimFixesTrimmed(target);
    assert "//"[1] == '/';
    assert PORTAL_LOGIN_PATH[1] == (PORTAL_LOGIN_PATH + "?")[1] == 'l';
    assert PORTAL_LEGAL_PATH[1] == (PORTAL_LEGAL_PATH + "?")[1] == 'l';
  }

  lemma {:induction false} UntilSlashStops(host: string, rest: string)
    requires rest == "" || IsSlash(rest[0]) || rest[0] == '?'
    requires forall i :: 0 <= i < |host| ==> !IsSlash(host[i]) && host[i] != '?'
    ensures UntilSlash(host + rest) == host
  {
    if host == "" {
      assert host + rest == rest;
    } else {
      assert (host + rest)[1..] == host[1..] + rest;
      UntilSlashStops(host[1..], rest);
    }
  }

  lemma {:induction false} LetterLandsOnPortal(hosts: string -> Host, target: string)
    requires 1 < |target| && target[0] == '/' && IsAlnum(target[1])
    ensures LandingOf(hosts, target) == OnPortal
  {
    hide NamesHost;
    NamesHostIff(target);
  }

  /** The built pages are on the portal. */
  lemma {:induction false} BuiltLandsOnPortal(hosts: string -> Host, p: Option<string>, error: Option<string>)
    ensures LandingOf(hosts, BuildLoginPath(p)) == OnPortal && LandingOf(hosts, LegalPath(p, error)) == OnPortal
  {
    hide LandingOf, Encode, Serialize;
    var login, legal := BuildLoginPath(p), LegalPath(p, error);
    assert PORTAL_LOGIN_PATH <= login && PORTAL_LEGAL_PATH <= legal;
    assert login[1] == PORTAL_LOGIN_PATH[1] && legal[1] == PORTAL_LEGAL_PATH[1];
    LetterLandsOnPortal(hosts, login);
    LetterLandsOnPortal(hosts, legal);
  }

  // ---- parsing what the builders print ----

  /** No control character, no space, no fragment. */
  ghost predicate IsPlain(s: string) {
    forall i :: 0 <= i < |s| ==> ' ' < s[i] && s[i] != '#'
  }

  lemma {:induction false} InertReference(target: string)
    requires IsPlain(target)
    ensures Reference(target) == target
  {
    DropsNothing(target);
    var i := IndexOf(target, '#');
    assert i == |target|;
    assert target[..|target|] == target;
  }

  lemma {:induction false} DropsNothing(s: string)
    requires IsPlain(s)
    ensures DropTabs(s) == s
  {
    if s != [] {
      DropsNothing(s[1..]);
    }
  }

  lemma {:induction false} EncodeConcat(e: Encoder, a: string, b: string)
    ensures Encode(e, a + b) == Encode(e, a) + Encode(e, b)
  {
    hide EncodeChar;
    if a == [] {
      assert a + b == b;
    } else {
      assert (a + b)[1..] == a[1..] + b;
      EncodeConcat(e, a[1..], b);
      assert EncodeChar(e, a[0]) + (Encode(e, a[1..]) + Encode(e, b)) == Encode(e, a) + Encode(e, b);
    }
  }

  lemma {:induction false} EncodeQueryKeepsOut(s: string, c: char)
    requires c == '&' || c == '='
    requires c !in s
    ensures c !in Encode(Query, s)
  {
    if s != [] {
      hide EncodeChar;
      EncodeQueryKeepsOut(s[1..], c);
      EncodedCharHasNo(s[0], c);
    }
  }

  lemma {:induction false} EncodedCharHasNo(x: char, c: char)
    requires c == '&' || c == '='
    requires c != x
    ensures c !in EncodeChar(Query, x)
  {
    hide CharBytes, EscapeBytes;
    EscapeIsInert(CharBytes(x));
    InertHasNo(EscapeBytes(CharBytes(x)), c);
  }

  lemma {:induction false} EncodeQueryJoin(a: string, c: char, b: string)
    requires c == '&' || c == '='
    ensures Encode(Query, a + [c] + b) == Encode(Query, a) + [c] + Encode(Query, b)
  {
    hide EncodeChar;
    EncodeConcat(Query, a + [c], b);
    EncodeConcat(Query, a, [c]);
    EncodeQueryFirst([c]);
  }

  lemma {:induction false} EncodeQueryAtSeparator(a: string, c: char, b: string)
    requires c == '&' || c == '='
    requires c !in a
    ensures var w := Encode(Query, a + [c] + b);
            var j := IndexOf(w, c);
            j < |w| && w[..j] == Encode(Query, a) && w[j + 1..] == Encode(Query, b)
  {
    hide Encode;
    var head, tail := Encode(Query, a), Encode(Query, b);
    EncodeQueryJoin(a, c, b);
    EncodeQueryKeepsOut(a, c);
    IndexOfFirst(head, c, tail);
    assert (head + [c] + tail)[..|head|] == head;
    assert (head + [c] + tail)[|head| + 1..] == tail;
  }

  lemma {:induction false} EncodeQueryNowhere(s: string, c: char)
    requires c == '&' || c == '='
    requires c !in s
    ensures IndexOf(Encode(Query, s), c) == |Encode(Query, s)|
  {
    EncodeQueryKeepsOut(s, c);
    IndexOfFirst(Encode(Query, s), c, "");
  }

  /** Query encoding works piece by piece: separators stay where they are. */
  lemma {:induction false} EncodeQueryAt(s: string, c: char, i: nat, j: nat)
    requires c == '&' || c == '='
    requires i == IndexOf(s, c) && j == IndexOf(Encode(Query, s), c)
    ensures i < |s| <==> j < |Encode(Query, s)|
    ensures Encode(Query, s)[..j] == Encode(Query, s[..i])
    ensures i < |s| ==> Encode(Query, s)[j + 1..] == Encode(Query, s[i + 1..])
  {
    hide Encode;
    if i < |s| {
      SplitAtIndex(s, c);
      EncodeQueryAtSeparator(s[..i], c, s[i + 1..]);
    } else {
      EncodeQueryNowhere(s, c);
      assert s[..i] == s;
    }
  }

  lemma {:induction false} EncodedPieceReads(piece: string)
    ensures PieceName(Encode(Query, piece)) == PieceName(piece)
    ensures PieceValue(Encode(Query, piece)) == PieceValue(piece)
  {
    var i := IndexOf(piece, '=');
    EncodeQueryAt(piece, '=', i, IndexOf(Encode(Query, piece), '='));
    QueryBytesEncodeQuery(piece[..i]);
    if i < |piece| { QueryBytesEncodeQuery(piece[i + 1..]); }
  }

  lemma {:induction false} SearchGetStep(query: string, name: string, i: nat)
    requires i == IndexOf(query, '&')
    ensures SearchGet(query, name)
         == if query[..i] != "" && PieceName(query[..i]) == name then Some(PieceValue(query[..i]))
            else if i < |query| then SearchGet(query[i + 1..], name)
            else None
  {
    hide PieceName, PieceValue, IndexOf;
  }

  /** Every parameter of a query reads the same before and after the URL parser re-encodes it. */
  lemma {:induction false} EncodedQueryReads(query: string, name: string)
    ensures SearchGet(Encode(Query, query), name) == SearchGet(query, name)
    decreases |query|
  {
    hide EncodeChar, PieceName, PieceValue;
    var i := IndexOf(query, '&');
    var w, piece := Encode(Query, query), query[..i];
    var j := IndexOf(w, '&');
    EncodeQueryAt(query, '&', i, j);
    EncodedPieceReads(piece);
    if piece != "" { EncodeQueryFirst(piece); }
    if i < |query| { EncodedQueryReads(query[i + 1..], name); }
    SearchGetStep(query, name, i);
    SearchGetStep(w, name, j);
  }

  /** Resolving `path?query`, for a query the encoders wrote, keeps the path and every parameter. */
  lemma {:induction false} ResolveBuilt(norm: string -> string, path: string, query: string, name: string)
    requires IsPlain(path) && IsPlain(query)
    requires '?' !in path
    ensures Resolve(norm, path + "?" + query).path == norm(path)
    ensures SearchGet(Resolve(norm, path + "?" + query).query, name) == SearchGet(query, name)
  {
    var target := path + "?" + query;
    InertReference(target);
    IndexOfFirst(path, '?', query);
    assert target == path + ['?'] + query;
    assert target[..|path|] == path && target[|path| + 1..] == query;
    EncodedQueryReads(query, name);
  }

  lemma {:induction false} ResolvePlain(norm: string -> string, path: string)
    requires IsPlain(path) && '?' !in path
    ensures Resolve(norm, path) == Url(norm(path), "")
  {
    InertReference(path);
    IndexOfFirst(path, '?', "");
    assert path[..|path|] == path;
  }

  // ---- round trips through the gate ----

  predicate IsWord(s: string) {
    forall i :: 0 <= i < |s| ==> IsAlnum(s[i])
  }

  lemma {:induction false} WordDecodes(s: string)
    requires IsWord(s)
    ensures FormDecode(s) == s
  {
    if s != [] {
      WordDecodes(s[1..]);
      DecodeChar(s[0], QueryBytes(s[1..]));
      assert s == [s[0]] + s[1..];
    }
  }

  lemma {:induction false} SinglePieceReads(name: string, text: string)
    requires IsWord(name) && '&' !in text
    ensures SearchGet(name + "=" + text, name) == Some(FormDecode(text))
  {
    var query := name + "=" + text;
    WordDecodes(name);
    PieceReads(name, text);
    IndexOfFirst(query, '&', "");
    assert query[..|query|] == query;
  }

  lemma {:induction false} LoginQueryReads(local: string, text: string)
    requires text == Encode(Component, local)
    ensures IsPlain("callbackUrl=" + text)
    ensures SearchGet("callbackUrl=" + text, "callbackUrl") == Some(local)
  {
    hide Encode, SearchGet;
    EncodeIsInert(Component, local);
    InertIsPlain(text);
    InertHasNo(text, '&');
    SinglePieceReads("callbackUrl", text);
    assert "callbackUrl" + "=" + text == "callbackUrl=" + text;
    FormDecodeEncode(Component, local);
  }

  lemma {:induction false} InertIsPlain(s: string)
    requires IsInert(s)
    ensures IsPlain(s)
  {}

  lemma {:induction false} LoginTargetText(text: string)
    ensures PORTAL_LOGIN_PATH + "?callbackUrl=" + text == PORTAL_LOGIN_PATH + "?" + ("callbackUrl=" + text)
  {
    assert "?callbackUrl=" == "?" + "callbackUrl=";
  }

  /** The page that a printed target resolves to, and what it carries. */
  lemma {:induction false} LoginTargetResolves(norm: string -> string, local: string, target: string)
    requires target == PORTAL_LOGIN_PATH + "?callbackUrl=" + Encode(Component, local)
    ensures Resolve(norm, target).path == norm(PORTAL_LOGIN_PATH)
    ensures SearchGet(Resolve(norm, target).query, "callbackUrl") == Some(local)
  {
    hide Encode, SearchGet, Resolve;
    var text := Encode(Component, local);
    LoginQueryReads(local, text);
    LoginTargetText(text);
    ResolveBuilt(norm, PORTAL_LOGIN_PATH, "callbackUrl=" + text, "callbackUrl");
  }

  lemma {:induction false} LegalTargetResolves(norm: string -> string, entries: Entries, target: string, name: string)
    requires target == if entries == [] then "/legal" else "/legal" + "?" + Serialize(entries)
    ensures Resolve(norm, target).path == norm("/legal")
    ensures SearchGet(Resolve(norm, target).query, name) == Lookup(entries, name)
  {
    hide Encode, Serialize, Resolve;
    if entries == [] {
      ResolvePlain(norm, "/legal");
    } else {
      SerializeIsPlain(entries);
      ResolveBuilt(norm, "/legal", Serialize(entries), name);
      SerializeReadsBack(entries, name);
    }
  }

  lemma {:induction false} LoginPageReads(page: Url, value: string)
    requires IsAuthPage(page) && SearchGet(page.query, "callbackUrl") == Some(value)
    ensures ResolvePostGatePath(page) == SanitizePortalReturnTo(Some(value), PORTAL_HOME_PATH)
  {}

  lemma {:induction false} SerializeIsPlain(entries: Entries)
    ensures IsPlain(Serialize(entries))
  {
    if entries != [] {
      var n, v := Encode(Form, entries[0].0), Encode(Form, entries[0].1);
      EncodeIsInert(Form, entries[0].0);
      EncodeIsInert(Form, entries[0].1);
      InertIsPlain(n);
      InertIsPlain(v);
      assert IsPlain(n + "=" + v);
      SerializeIsPlain(entries[1..]);
    }
  }

  lemma {:induction false} LegalEntriesKeep(p: Option<string>, error: Option<string>)
    ensures SanitizePortalReturnTo(Lookup(LegalEntries(p, error), "returnTo"), PORTAL_HOME_PATH)
         == SanitizePortalReturnTo(p, PORTAL_HOME_PATH)
  {
    SanitizeTwice(p);
  }

  lemma {:induction false} LegalPageReads(page: Url, value: Option<string>)
    requires page.path == PORTAL_LEGAL_PATH && SearchGet(page.query, "returnTo") == value
    ensures ResolvePostGatePath(page) == SanitizePortalReturnTo(value, PORTAL_HOME_PATH)
  {
    assert PORTAL_LEGAL_PATH[2] != PORTAL_LOGIN_PATH[2];
  }

  /** Whatever is handed to `buildLoginPath`, the login page hands back its sanitized form. */
  lemma {:induction false} LoginRoundTrip(norm: string -> string, p: Option<string>, page: Url)
    requires FixesGatePaths(norm)
    requires page == Resolve(norm, BuildLoginPath(p))
    ensures page.path == PORTAL_LOGIN_PATH
    ensures ResolvePostGatePath(page) == SanitizePortalReturnTo(p, PORTAL_HOME_PATH)
  {
    hide Encode, SearchGet, Resolve, ResolvePostGatePath, SanitizePortalReturnTo;
    var local := SanitizeLocalPath(p, PORTAL_HOME_PATH);
    LoginTargetResolves(norm, local, BuildLoginPath(p));
    LoginPageReads(page, local);
    SanitizeTwice(p);
  }

  /** Whatever is handed to `buildLegalPath`, with or without an error, the legal page hands back its
      sanitized form, also when that is the default and the parameter is left out. */
  lemma {:induction false} LegalRoundTrip(norm: string -> string, p: Option<string>, error: Option<string>, page: Url)
    requires FixesGatePaths(norm)
    requires page == Resolve(norm, LegalPath(p, error))
    ensures page.path == PORTAL_LEGAL_PATH
    ensures ResolvePostGatePath(page) == SanitizePortalReturnTo(p, PORTAL_HOME_PATH)
  {
    hide Encode, SearchGet, Resolve, ResolvePostGatePath, SanitizePortalReturnTo, Serialize;
    var entries := LegalEntries(p, error);
    LegalTargetResolves(norm, entries, LegalPath(p, error), "returnTo");
    LegalPageReads(page, Lookup(entries, "returnTo"));
    LegalEntriesKeep(p, error);
  }

  // ---- who is stopped, and what is asked for afterwards ----

  /** Exactly who is let through: without a session everybody outside the portal and the legal page, with
      legal documents to accept only visitors of the legal page, and with a clear session everybody outside
      the login and legal pages. */
  lemma {:induction false} LetThroughIff(outcome: Outcome, u: Url)
    ensures Authorized(outcome, u) == None <==>
              match outcome
              case LoggedOut => !("/portal" <= u.path) && !("/legal" <= u.path)
              case SessionMissing => !("/portal" <= u.path) && !("/legal" <= u.path)
              case LegalPending => "/legal" <= u.path
              case Clear => !("/login" <= u.path) && !("/legal" <= u.path)
  {
    hide BuildLoginPath, LegalPath, ResolvePostGatePath;
  }

  /** What a visitor asks for, as one text. */
  function Requested(u: Url): string {
    Trim(if u.query == "" then u.path else u.path + "?" + u.query)
  }

  /** The page that a visitor without a clear session is sent to, and what is asked for there. */
  ghost predicate IsDetour(outcome: Outcome, u: Url, page: Url) {
    match outcome
    case LoggedOut => page.path == "/login" && SearchGet(page.query, "callbackUrl") == Some(Requested(u))
    case SessionMissing => page.path == "/login" && SearchGet(page.query, "callbackUrl") == Some(Requested(u))
    case LegalPending =>
      page.path == "/legal" && SearchGet(page.query, "error") == None
      && SearchGet(page.query, "returnTo")
         == if IsLocalPath(Requested(u)) && !IsGatePage(Requested(u)) && Requested(u) != "/portal" then
              Some(Requested(u))
            else None
    case Clear => false
  }

  lemma {:induction false} RequestedIsLocal(u: Url)
    requires "/portal" <= u.path || "/legal" <= u.path
    ensures IsLocalPath(Requested(u)) && SanitizeLocalPath(Some(CurrentPortalPath(u)), "/portal") == Requested(u)
  {
    var text := CurrentPortalPath(u);
    assert text[0] == '/' && (text[1] == 'p' || text[1] == 'l');
    TrimKeepsFront(text);
    LocalPathExactly(Some(text), "/portal");
    assert "//"[1] == '/';
  }

  /** Trimming a text that begins with two visible characters keeps them. */
  lemma {:induction false} TrimKeepsFront(s: string)
    requires |s| >= 2 && !IsSpace(s[0]) && !IsSpace(s[1])
    ensures |Trim(s)| >= 2 && Trim(s)[0] == s[0] && Trim(s)[1] == s[1]
  {
    TrimEndKeepsFront(s);
  }

  lemma {:induction false} TrimEndKeepsFront(s: string)
    requires |s| >= 2 && !IsSpace(s[1])
    ensures |TrimEnd(s)| >= 2 && TrimEnd(s)[0] == s[0] && TrimEnd(s)[1] == s[1]
  {
    if IsSpace(s[|s| - 1]) {
      TrimEndKeepsFront(s[..|s| - 1]);
    }
  }

  /** Who is stopped without a clear session arrives at the login or the legal page, where the path and query
      that were asked for can be read. */
  lemma {:induction false} StoppedVisitorArrives(norm: string -> string, hosts: string -> Host, outcome: Outcome,
                                                 u: Url)
    requires FixesGatePaths(norm)
    requires outcome != Clear && Authorized(outcome, u).Some?
    ensures Next(norm, hosts, outcome, u).Some? && IsDetour(outcome, u, Next(norm, hosts, outcome, u).value)
  {
    hide Resolve, SearchGet, LandingOf, Encode, SanitizeLocalPath, SanitizePortalReturnTo, Serialize, Requested,
         CurrentPortalPath, IsLocalPath, IsGatePage;
    var text := CurrentPortalPath(u);
    BuiltLandsOnPortal(hosts, Some(text), None);
    LetThroughIff(outcome, u);
    if outcome == LegalPending {
      LegalPageCarries(norm, Some(text), None);
      RequestedText(u);
      ReturnToExactly(Some(text), PORTAL_HOME_PATH);
    } else {
      RequestedIsLocal(u);
      LoginTargetResolves(norm, Requested(u), BuildLoginPath(Some(text)));
    }
  }

  lemma {:induction false} RequestedText(u: Url)
    ensures Requested(u) == Trim(CurrentPortalPath(u))
  {}

  /** What a legal page carries: the sanitized target unless it is the default, and the error unless there is
      none. */
  lemma {:induction false} LegalPageCarries(norm: string -> string, p: Option<string>, error: Option<string>)
    requires FixesGatePaths(norm)
    ensures var page := Resolve(norm, LegalPath(p, error));
            var target := SanitizePortalReturnTo(p, "/portal");
            page.path == "/legal"
            && SearchGet(page.query, "returnTo") == (if target == "/portal" then None else Some(target))
            && SearchGet(page.query, "error") == if error == Some("") then None else error
  {
    hide Encode, SearchGet, Resolve, SanitizePortalReturnTo, Serialize;
    var entries := LegalEntries(p, error);
    LegalTargetResolves(norm, entries, LegalPath(p, error), "returnTo");
    LegalTargetResolves(norm, entries, LegalPath(p, error), "error");
    assert "returnTo" != "error" by { assert |"returnTo"| != |"error"|; }
    LookupTwo(entries, p, error);
  }

  lemma {:induction false} LookupTwo(entries: Entries, p: Option<string>, error: Option<string>)
    requires entries == LegalEntries(p, error)
    ensures var target := SanitizePortalReturnTo(p, "/portal");
            Lookup(entries, "returnTo") == (if target == "/portal" then None else Some(target))
            && Lookup(entries, "error") == if error == Some("") then None else error
  {
    hide SanitizePortalReturnTo;
    assert |"returnTo"| != |"error"|;
    if |entries| == 2 { assert entries[1..][1..] == []; }
    if |entries| == 1 { assert entries[1..] == []; }
  }

  /** Where a clear session is sent from the login and legal pages: to the text of the parameter, trimmed, if
      it begins with one slash only and is no exact gate page, and else to the portal. */
  lemma {:induction false} ClearTargetExactly(u: Url)
    requires "/login" <= u.path || "/legal" <= u.path
    ensures var value := SearchGet(u.query, if "/login" <= u.path then "callbackUrl" else "returnTo");
            var t := if value.Some? then Trim(value.value) else "";
            Authorized(Clear, u) == Some(if IsLocalPath(t) && !IsGatePage(t) then t else "/portal")
  {
    hide SearchGet, SanitizePortalReturnTo, IsLocalPath, IsGatePage, Trim;
    ReturnToExactly(SearchGet(u.query, "callbackUrl"), "/portal");
    ReturnToExactly(SearchGet(u.query, "returnTo"), "/portal");
  }

  // ---- what the URL parser drops and escapes ----

  /** A fragment does not matter. */
  lemma {:induction false} FragmentIsDropped(norm: string -> string, target: string, fragment: string)
    requires IsPlain(target)
    ensures Resolve(norm, target + "#" + fragment) == Resolve(norm, target)
  {
    hide Reference, IsPlain;
    InertReference(target);
    FragmentReference(target, fragment);
  }

  lemma {:induction false} FragmentReference(target: string, fragment: string)
    requires IsPlain(target)
    ensures Reference(target + "#" + fragment) == target
  {
    hide DropTabs, DropTrailingControls, IndexOf;
    var kept := DropTrailingControls(fragment);
    DropTrailingAfter(target + "#", fragment);
    DropTabsConcat(target + "#", kept);
    DropTabsConcat(target, "#");
    DropsNothing(target);
    HashIsKept();
    var input := DropTabs(DropTrailingControls(target + "#" + fragment));
    assert input == target + ['#'] + DropTabs(kept);
    IndexOfFirst(target, '#', DropTabs(kept));
    assert input[..|target|] == target;
  }

  lemma {:induction false} HashIsKept()
    ensures DropTabs("#") == "#"
  {
    assert "#"[1..] == "";
  }

  lemma {:induction false} DropTrailingAfter(front: string, s: string)
    requires front != "" && front[|front| - 1] > ' '
    ensures DropTrailingControls(front + s) == front + DropTrailingControls(s)
  {
    if s == "" {
      assert front + s == front;
    } else if s[|s| - 1] <= ' ' {
      assert (front + s)[..|front + s| - 1] == front + s[..|s| - 1];
      DropTrailingAfter(front, s[..|s| - 1]);
    }
  }

  lemma {:induction false} DropTabsConcat(a: string, b: string)
    ensures DropTabs(a + b) == DropTabs(a) + DropTabs(b)
  {
    if a == "" {
      assert a + b == b;
    } else {
      assert (a + b)[1..] == a[1..] + b;
      DropTabsConcat(a[1..], b);
    }
  }

  /** Neither do control characters and spaces at the end. */
  lemma {:induction false} TrailingControlsAreDropped(norm: string -> string, target: string, controls: string)
    requires forall i :: 0 <= i < |controls| ==> controls[i] <= ' '
    ensures Resolve(norm, target + controls) == Resolve(norm, target)
  {
    hide Resolve;
    if controls == "" {
      assert target + controls == target;
    } else {
      var fewer := controls[..|controls| - 1];
      assert (target + controls)[..|target + controls| - 1] == target + fewer;
      TrailingControlsAreDropped(norm, target, fewer);
      LastControlIsDropped(norm, target + fewer, controls[|controls| - 1]);
      assert target + controls == target + fewer + [controls[|controls| - 1]];
    }
  }

  lemma {:induction false} LastControlIsDropped(norm: string -> string, s: string, c: char)
    requires c <= ' '
    ensures Resolve(norm, s + [c]) == Resolve(norm, s)
  {
    assert (s + [c])[..|s|] == s;
  }

  /** A resolved query holds visible ASCII characters only, and none of those that the URL Standard escapes in
      the query of a web address. */
  lemma {:induction false} ResolvedQueryIsEscaped(norm: string -> string, target: string)
    ensures forall c :: c in Resolve(norm, target).query ==> '!' <= c <= '~' && c !in "\"#<>'"
  {
    var text := Reference(target);
    var i := IndexOf(text, '?');
    if i < |text| { QueryIsEscaped(text[i + 1..]); }
  }

  lemma {:induction false} QueryIsEscaped(s: string)
    ensures forall c :: c in Encode(Query, s) ==> '!' <= c <= '~' && c !in "\"#<>'"
  {
    if s != "" {
      QueryIsEscaped(s[1..]);
      EscapeIsVisible(CharBytes(s[0]));
    }
  }

  lemma {:induction false} EscapeIsVisible(b: seq<byte>)
    ensures forall c :: c in EscapeBytes(b) ==> '!' <= c <= '~' && c !in "\"#<>'"
  {
    if b != [] {
      EscapeIsVisible(b[1..]);
    }
  }
}
