/** Chains of redirects through the portal gate: they stop, where they stop, and how long they get. */
module PortalRedirects {
  import opened JsText
  import opened PercentCoding
  import opened PortalNavigation
  import opened PortalGate

  /** Bound on the redirects still to come.  With a clear session every redirect is decoded out of the
      query before it, and uses up at least nine of its decoded characters. */
  function Rank(outcome: Outcome, u: Url): nat {
    match outcome
    case LoggedOut => if IsPortalRoute(u) || IsLegalPage(u) then 1 else 0
    case SessionMissing => if IsPortalRoute(u) || IsLegalPage(u) then 1 else 0
    case LegalPending => if IsLegalPage(u) then 0 else 1
    case Clear => if IsAuthPage(u) || IsLegalPage(u) then 1 + |FormDecode(u.query)| / 9 else 0
  }

  /** The query of a resolved target, decoded, is shorter than the target. */
  lemma {:induction false} TargetShrinks(norm: string -> string, target: string)
    requires target != ""
    ensures |FormDecode(Resolve(norm, target).query)| < |target|
  {
    var text := Reference(target);
    var i := IndexOf(text, '?');
    if i < |text| {
      QueryBytesEncodeQuery(text[i + 1..]);
      DecodedNoLonger(text[i + 1..]);
    }
  }

  lemma {:induction false} SanitizedNoLonger(value: Option<string>)
    ensures var r := SanitizePortalReturnTo(value, PORTAL_HOME_PATH);
            r == PORTAL_HOME_PATH || (value.Some? && r != "" && |r| <= |value.value|)
  {}

  lemma {:induction false} HomeIsLetThrough(norm: string -> string)
    requires FixesGatePaths(norm)
    ensures Resolve(norm, PORTAL_HOME_PATH) == Url(PORTAL_HOME_PATH, "")
  {
    ResolvePlain(norm, PORTAL_HOME_PATH);
  }

  lemma {:induction false} GateTargetShrinks(norm: string -> string, query: string, name: string)
    requires 8 <= |name|
    requires SanitizePortalReturnTo(SearchGet(query, name), PORTAL_HOME_PATH) != PORTAL_HOME_PATH
    ensures var target := SanitizePortalReturnTo(SearchGet(query, name), PORTAL_HOME_PATH);
            |FormDecode(Resolve(norm, target).query)| + 9 <= |FormDecode(query)|
  {
    var value := SearchGet(query, name);
    SanitizedNoLonger(value);
    ValueShorterThanQuery(query, name);
    TargetShrinks(norm, SanitizePortalReturnTo(value, PORTAL_HOME_PATH));
  }

  lemma {:induction false} HomeHasRankZero(page: Url)
    requires page == Url(PORTAL_HOME_PATH, "")
    ensures Rank(Clear, page) == 0
  {
    assert PORTAL_HOME_PATH[1] != PORTAL_LOGIN_PATH[1];
    assert PORTAL_HOME_PATH[1] != PORTAL_LEGAL_PATH[1];
  }

  lemma {:induction false} ShorterQueryLowersRank(page: Url, length: nat)
    requires |FormDecode(page.query)| + 9 <= length
    ensures Rank(Clear, page) < 1 + length / 9
  {
    var n := |FormDecode(page.query)|;
    assert n / 9 < length / 9;
  }

  lemma {:induction false} ClearGateShrinks(norm: string -> string, query: string, name: string, target: string,
                                            page: Url)
    requires FixesGatePaths(norm)
    requires 8 <= |name|
    requires target == SanitizePortalReturnTo(SearchGet(query, name), PORTAL_HOME_PATH)
    requires page == Resolve(norm, target)
    ensures Rank(Clear, page) < 1 + |FormDecode(query)| / 9
  {
    if target == PORTAL_HOME_PATH {
      HomeIsLetThrough(norm);
      HomeHasRankZero(page);
    } else {
      GateTargetShrinks(norm, query, name);
      ShorterQueryLowersRank(page, |FormDecode(query)|);
    }
  }

  /** Every redirect lowers the rank. */
  lemma {:induction false} RedirectLowersRank(norm: string -> string, hosts: string -> Host, outcome: Outcome, u: Url)
    requires FixesGatePaths(norm)
    requires Next(norm, hosts, outcome, u).Some?
    ensures Rank(outcome, Next(norm, hosts, outcome, u).value) < Rank(outcome, u)
  {
    hide Resolve, CurrentPortalPath;
    match outcome
    case Clear =>
      if IsAuthPage(u) {
        ClearGateShrinks(norm, u.query, "callbackUrl", ResolvePostGatePath(u), Next(norm, hosts, outcome, u).value);
      } else {
        ClearGateShrinks(norm, u.query, "returnTo", ResolvePostGatePath(u), Next(norm, hosts, outcome, u).value);
      }
    case LegalPending =>
      LegalRoundTrip(norm, Some(CurrentPortalPath(u)), None, Next(norm, hosts, outcome, u).value);
    case LoggedOut =>
      LoginIsLetThrough(norm, hosts, outcome, u);
    case SessionMissing =>
      LoginIsLetThrough(norm, hosts, outcome, u);
  }

  lemma {:induction false} LoginIsLetThrough(norm: string -> string, hosts: string -> Host, outcome: Outcome, u: Url)
    requires FixesGatePaths(norm)
    requires outcome == LoggedOut || outcome == SessionMissing
    requires Next(norm, hosts, outcome, u).Some?
    ensures Rank(outcome, Next(norm, hosts, outcome, u).value) == 0
  {
    hide Resolve, CurrentPortalPath, BuildLoginPath;
    var page := Next(norm, hosts, outcome, u).value;
    LoginRoundTrip(norm, Some(CurrentPortalPath(u)), page);
    LoginHasRankZero(outcome, page);
  }

  lemma {:induction false} LoginHasRankZero(outcome: Outcome, page: Url)
    requires outcome == LoggedOut || outcome == SessionMissing
    requires page.path == PORTAL_LOGIN_PATH
    ensures Rank(outcome, page) == 0
  {
    assert PORTAL_HOME_PATH[1] != PORTAL_LOGIN_PATH[1];
    assert PORTAL_LEGAL_PATH[2] != PORTAL_LOGIN_PATH[2];
  }

  /** The pages a browser visits when it follows every redirect from `u`. */
  function Follow(norm: string -> string, hosts: string -> Host, outcome: Outcome, u: Url): (pages: seq<Url>)
    requires FixesGatePaths(norm)
    ensures pages != [] && pages[0] == u
    decreases Rank(outcome, u)
  {
    match Next(norm, hosts, outcome, u)
    case None => [u]
    case Some(page) =>
      RedirectLowersRank(norm, hosts, outcome, u);
      [u] + Follow(norm, hosts, outcome, page)
  }

  /** Each page redirects to the next one. */
  ghost predicate IsChain(norm: string -> string, hosts: string -> Host, outcome: Outcome, pages: seq<Url>)
    decreases |pages|
  {
    |pages| <= 1
    || (Next(norm, hosts, outcome, pages[0]) == Some(pages[1]) && IsChain(norm, hosts, outcome, pages[1..]))
  }

  /** From every URL and for every fixed session outcome the redirects stop, within the rank of the
      starting page, at a page that is let through, or, with a clear session only, at one whose redirect
      names a host that is not the portal's own.  Targets that name the portal's own host are followed. */
  lemma {:induction false} GateStops(norm: string -> string, hosts: string -> Host, outcome: Outcome, u: Url,
                                     pages: seq<Url>)
    requires FixesGatePaths(norm)
    requires pages == Follow(norm, hosts, outcome, u)
    ensures IsChain(norm, hosts, outcome, pages)
    ensures var last := Authorized(outcome, pages[|pages| - 1]);
            last == None || (outcome == Clear && LandingOf(hosts, last.value) != OnPortal)
    ensures |pages| <= 1 + Rank(outcome, u)
    decreases Rank(outcome, u)
  {
    hide Rank, LandingOf, Resolve, ResolvePostGatePath, CurrentPortalPath, BuildLoginPath, LegalPath;
    BuiltLandsOnPortal(hosts, Some(CurrentPortalPath(u)), None);
    if Next(norm, hosts, outcome, u).Some? {
      var page := Next(norm, hosts, outcome, u).value;
      RedirectLowersRank(norm, hosts, outcome, u);
      GateStops(norm, hosts, outcome, page, pages[1..]);
    }
  }

  /** Where a browser ends up: in the portal only with a clear session, and then outside the login and legal
      pages unless it is sent off the portal from one of them; otherwise, when it is stopped, after one
      redirect at the login or the legal page, with what it asked for. */
  lemma {:induction false} FollowEndsWell(norm: string -> string, hosts: string -> Host, outcome: Outcome, u: Url,
                                          pages: seq<Url>)
    requires FixesGatePaths(norm)
    requires pages == Follow(norm, hosts, outcome, u)
    ensures var last := pages[|pages| - 1];
            ("/portal" <= last.path ==> outcome == Clear)
            && (outcome == Clear ==> (!("/login" <= last.path) && !("/legal" <= last.path))
                                     || LandingOf(hosts, ResolvePostGatePath(last)) != OnPortal)
            && (outcome != Clear && Authorized(outcome, u).Some? ==> |pages| == 2 && IsDetour(outcome, u, last))
            && (Authorized(outcome, u) == None ==> pages == [u])
  {
    hide Next, LandingOf, IsDetour, BuildLoginPath, LegalPath, ResolvePostGatePath, Follow;
    var last := pages[|pages| - 1];
    GateStops(norm, hosts, outcome, u, pages);
    LetThroughIff(outcome, last);
    if Authorized(outcome, u) == None {
      FollowNone(norm, hosts, outcome, u);
      PortalIsNotLegal(u);
    } else if outcome != Clear {
      StoppedVisitorArrives(norm, hosts, outcome, u);
      var page := Next(norm, hosts, outcome, u).value;
      DetourIsLetThrough(outcome, u, page);
      FollowNone(norm, hosts, outcome, page);
      FollowSome(norm, hosts, outcome, u);
      assert pages == [u, page];
      PortalIsNotLegal(page);
    } else if Authorized(Clear, last).Some? {
      ClearRedirects(last);
    }
  }

  lemma {:induction false} ClearRedirects(u: Url)
    ensures Authorized(Clear, u).Some? ==> Authorized(Clear, u) == Some(ResolvePostGatePath(u))
  {}

  lemma {:induction false} PortalIsNotLegal(u: Url)
    ensures !("/portal" <= u.path && "/legal" <= u.path) && !("/portal" <= u.path && "/login" <= u.path)
  {
    assert "/portal"[1] == 'p' && "/legal"[1] == 'l' && "/login"[1] == 'l';
  }

  lemma {:induction false} DetourIsLetThrough(outcome: Outcome, u: Url, page: Url)
    requires IsDetour(outcome, u, page)
    ensures Authorized(outcome, page) == None && !("/portal" <= page.path)
  {
    hide SearchGet, Requested, IsLocalPath, IsGatePage;
    LetThroughIff(outcome, page);
    assert "/portal"[1] == 'p' && "/legal"[1] == 'l' && "/login"[1] == 'l';
    assert "/legal"[2] == 'e' && "/login"[2] == 'o';
  }

  lemma {:induction false} FollowNone(norm: string -> string, hosts: string -> Host, outcome: Outcome, u: Url)
    requires FixesGatePaths(norm)
    requires Authorized(outcome, u) == None
    ensures Follow(norm, hosts, outcome, u) == [u]
  {
    hide Authorized;
  }

  lemma {:induction false} FollowSome(norm: string -> string, hosts: string -> Host, outcome: Outcome, u: Url)
    requires FixesGatePaths(norm)
    requires Next(norm, hosts, outcome, u).Some?
    ensures Follow(norm, hosts, outcome, u)
         == [u] + Follow(norm, hosts, outcome, Next(norm, hosts, outcome, u).value)
  {
    hide Next;
  }

  // ---- detours ----

  lemma {:induction false} DetourPages(outcome: Outcome, page: Url)
    ensures (outcome == LegalPending && page.path == PORTAL_LEGAL_PATH)
            || (outcome != LegalPending && outcome != Clear && page.path == PORTAL_LOGIN_PATH) ==>
              Authorized(outcome, page) == None && Authorized(Clear, page) == Some(ResolvePostGatePath(page))
  {
    hide ResolvePostGatePath, BuildLoginPath, LegalPath;
    assert PORTAL_HOME_PATH[1] != PORTAL_LOGIN_PATH[1];
    assert PORTAL_LEGAL_PATH[2] != PORTAL_LOGIN_PATH[2];
  }

  /** A visitor who is sent to the login or the legal page stays there as long as the reason holds, and
      then is sent to the sanitized form of the page asked for; to exactly that page when its local path is
      one that the sanitizer keeps and that lands on the portal. */
  lemma {:induction false} DetourReturns(norm: string -> string, hosts: string -> Host, outcome: Outcome, u: Url)
    requires FixesGatePaths(norm)
    requires outcome != Clear && Next(norm, hosts, outcome, u).Some?
    ensures var stop := Next(norm, hosts, outcome, u).value;
            var back := SanitizePortalReturnTo(Some(CurrentPortalPath(u)), PORTAL_HOME_PATH);
            Authorized(outcome, stop) == None
            && Authorized(Clear, stop) == Some(back)
            && (back == CurrentPortalPath(u) && LandingOf(hosts, back) == OnPortal
                && Resolve(norm, CurrentPortalPath(u)) == u
                ==> Next(norm, hosts, Clear, stop) == Some(u))
  {
    hide Resolve, CurrentPortalPath, SanitizePortalReturnTo, BuildLoginPath, LegalPath, LandingOf,
         ResolvePostGatePath;
    var stop := Next(norm, hosts, outcome, u).value;
    DetourPages(outcome, stop);
    if outcome == LegalPending {
      LegalRoundTrip(norm, Some(CurrentPortalPath(u)), None, stop);
    } else {
      LoginRoundTrip(norm, Some(CurrentPortalPath(u)), stop);
    }
  }

  // ---- the sanitizer does not bound the chain ----

  const NESTING_PATH := "/login/"

  /** Login pages nested `n` deep, each under a path the sanitizer does not recognise as the login page. */
  function Nested(n: nat): string {
    if n == 0 then PORTAL_HOME_PATH
    else NESTING_PATH + "?" + ("callbackUrl=" + Encode(Component, Nested(n - 1)))
  }

  lemma {:induction false} NestedSurvives(n: nat)
    ensures SanitizePortalReturnTo(Some(Nested(n)), PORTAL_HOME_PATH) == Nested(n)
  {
    hide Encode;
    var s := Nested(n);
    if n == 0 {
      TrimFixesTrimmed(s);
    } else {
      var text := Encode(Component, Nested(n - 1));
      EncodeIsInert(Component, Nested(n - 1));
      assert s[0] == '/' && s[1] == 'l' && s[2] == 'o' && s[6] == '/';
      assert s[|s| - 1] == if text == "" then '=' else text[|text| - 1];
      TrimFixesTrimmed(s);
      NotExactGate(s);
    }
  }

  lemma {:induction false} NestedLandsOnPortal(hosts: string -> Host, n: nat)
    ensures LandingOf(hosts, Nested(n)) == OnPortal
  {
    hide LandingOf, Encode;
    assert Nested(n)[0] == '/' && (Nested(n)[1] == 'p' || Nested(n)[1] == 'l');
    LetterLandsOnPortal(hosts, Nested(n));
  }

  lemma {:induction false} NotExactGate(s: string)
    requires 6 < |s| && s[0] == '/' && s[1] == 'l' && s[2] == 'o' && s[6] == '/'
    ensures !("//" <= s) && "/" <= s
    ensures s != PORTAL_LOGIN_PATH && s != PORTAL_LEGAL_PATH
    ensures !(PORTAL_LOGIN_PATH + "?" <= s) && !(PORTAL_LEGAL_PATH + "?" <= s)
  {
    assert PORTAL_LEGAL_PATH[2] == 'e' && (PORTAL_LEGAL_PATH + "?")[2] == 'e';
    assert (PORTAL_LOGIN_PATH + "?")[6] == '?';
  }

  lemma {:induction false} NestedResolves(norm: string -> string, inner: string, page: Url)
    requires norm(NESTING_PATH) == NESTING_PATH
    requires page == Resolve(norm, NESTING_PATH + "?" + ("callbackUrl=" + Encode(Component, inner)))
    ensures page.path == NESTING_PATH && SearchGet(page.query, "callbackUrl") == Some(inner)
  {
    hide Encode, SearchGet, Resolve;
    var text := Encode(Component, inner);
    LoginQueryReads(inner, text);
    ResolveBuilt(norm, NESTING_PATH, "callbackUrl=" + text, "callbackUrl");
  }

  lemma {:induction false} NestedStep(norm: string -> string, hosts: string -> Host, page: Url, inner: string)
    requires page.path == NESTING_PATH && SearchGet(page.query, "callbackUrl") == Some(inner)
    requires SanitizePortalReturnTo(Some(inner), PORTAL_HOME_PATH) == inner && LandingOf(hosts, inner) == OnPortal
    ensures Next(norm, hosts, Clear, page) == Some(Resolve(norm, inner))
  {
    hide LandingOf, Resolve, ResolvePostGatePath, SearchGet, SanitizePortalReturnTo;
    assert PORTAL_LOGIN_PATH <= NESTING_PATH;
    LoginPageReads(page, inner);
  }

  lemma {:induction false} FollowStep(norm: string -> string, hosts: string -> Host, page: Url, next: Url)
    requires FixesGatePaths(norm)
    requires Next(norm, hosts, Clear, page) == Some(next)
    ensures |Follow(norm, hosts, Clear, page)| == 1 + |Follow(norm, hosts, Clear, next)|
  {}

  lemma {:induction false} FollowHome(norm: string -> string, hosts: string -> Host)
    requires FixesGatePaths(norm)
    ensures |Follow(norm, hosts, Clear, Url(PORTAL_HOME_PATH, ""))| == 1
  {
    HomeHasRankZero(Url(PORTAL_HOME_PATH, ""));
  }

  lemma {:induction false} NestedNext(norm: string -> string, hosts: string -> Host, n: nat)
    requires norm(NESTING_PATH) == NESTING_PATH
    ensures Next(norm, hosts, Clear, Resolve(norm, Nested(n + 1))) == Some(Resolve(norm, Nested(n)))
  {
    hide Encode, SearchGet, Resolve, Next;
    var page := Resolve(norm, Nested(n + 1));
    NestedResolves(norm, Nested(n), page);
    NestedSurvives(n);
    NestedLandsOnPortal(hosts, n);
    NestedStep(norm, hosts, page, Nested(n));
  }

  /** There are chains of every length: the sanitizer only recognises the exact gate pages, while the
      gate acts on every path that begins like one. */
  lemma {:induction false} ChainsOfEveryLength(norm: string -> string, hosts: string -> Host, n: nat)
    requires FixesGatePaths(norm) && norm(NESTING_PATH) == NESTING_PATH
    ensures |Follow(norm, hosts, Clear, Resolve(norm, Nested(n)))| == n + 1
  {
    hide Resolve, Encode, Next;
    if n == 0 {
      HomeIsLetThrough(norm);
      FollowHome(norm, hosts);
    } else {
      ChainsOfEveryLength(norm, hosts, n - 1);
      NestedNext(norm, hosts, n - 1);
      FollowStep(norm, hosts, Resolve(norm, Nested(n)), Resolve(norm, Nested(n - 1)));
    }
  }

  // ---- targets that name a host ----

  /** A login page whose target names a host behind a slash and a back-slash: with a clear session the browser
      comes back to the portal when it is the portal's own host, goes away when it is another one, and gets
      an error when it is none, as when nothing follows the back-slash. */
  lemma {:induction false} BackslashTarget(norm: string -> string, hosts: string -> Host, page: Url,
                                           host: string, rest: string)
    requires IsAuthPage(page) && SearchGet(page.query, "callbackUrl") == Some("/\\" + host + rest)
    requires IsPlain(host) && IsPlain(rest) && (rest == "" || ((IsSlash(rest[0]) || rest[0] == '?') && host != ""))
    requires forall i :: 0 <= i < |host| ==> !IsSlash(host[i]) && host[i] != '?'
    requires IsTrimmed("/\\" + host + rest)
    ensures var target := "/\\" + host + rest;
            Authorized(Clear, page) == Some(target)
            && LandingOf(hosts, target)
               == (match hosts(host) case Own => OnPortal case Other => OffPortal case Invalid => Nowhere)
            && (Next(norm, hosts, Clear, page) == Some(Resolve(norm, target)) <==> hosts(host) == Own)
  {
    hide Resolve, SearchGet, SanitizePortalReturnTo, ResolvePostGatePath, Authority, NamesHost;
    var target := "/\\" + host + rest;
    BackslashNamesHost(host, rest);
    if host == "" { assert UntilSlash(SkipSlashes(rest)) == ""; }
    LoginPageReads(page, target);
  }
}
