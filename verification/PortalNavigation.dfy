/** apps/saas-portal/lib/navigation.ts: which return paths the portal accepts, and how it puts them
    into the query of its login and legal pages. */
module PortalNavigation {
  import opened JsText
  import opened Utf8
  import opened PercentCoding

  const PORTAL_HOME_PATH := "/portal"
  const PORTAL_LEGAL_PATH := "/legal"
  const PORTAL_LOGIN_PATH := "/login"

  function SanitizeLocalPath(value: Option<string>, fallback: string): string {
    var trimmed := if value.Some? then Trim(value.value) else "";
    if !("/" <= trimmed) || "//" <= trimmed then fallback else trimmed
  }

  function SanitizePortalReturnTo(value: Option<string>, fallback: string): string {
    var sanitized := SanitizeLocalPath(value, fallback);
    if sanitized == PORTAL_LEGAL_PATH || PORTAL_LEGAL_PATH + "?" <= sanitized
       || sanitized == PORTAL_LOGIN_PATH || PORTAL_LOGIN_PATH + "?" <= sanitized
    then fallback
    else sanitized
  }

  function BuildLoginPath(callbackUrl: Option<string>): string {
    PORTAL_LOGIN_PATH + "?callbackUrl="
    + Encode(Component, SanitizeLocalPath(callbackUrl, PORTAL_HOME_PATH))
  }

  // ---- URLSearchParams ----

  type Entries = seq<(string, string)>

  function Lookup(entries: Entries, name: string): Option<string> {
    if entries == [] then None
    else if entries[0].0 == name then Some(entries[0].1)
    else Lookup(entries[1..], name)
  }

  function Without(entries: Entries, name: string): Entries {
    if entries == [] then []
    else (if entries[0].0 == name then [] else [entries[0]]) + Without(entries[1..], name)
  }

  /** `set`: the first entry of that name takes the value and later ones go; a new name goes last. */
  function WithEntry(entries: Entries, name: string, value: string): Entries {
    if entries == [] then [(name, value)]
    else if entries[0].0 == name then [(name, value)] + Without(entries[1..], name)
    else [entries[0]] + WithEntry(entries[1..], name, value)
  }

  function EntryText(entry: (string, string)): string {
    Encode(Form, entry.0) + "=" + Encode(Form, entry.1)
  }

  function Serialize(entries: Entries): string {
    if entries == [] then ""
    else if |entries| == 1 then EntryText(entries[0])
    else EntryText(entries[0]) + "&" + Serialize(entries[1..])
  }

  class SearchParams {
    var entries: Entries

    constructor ()
      ensures entries == []
    {
      entries := [];
    }

    method Set(name: string, value: string)
      modifies this
      ensures entries == WithEntry(old(entries), name, value)
    {
      entries := WithEntry(entries, name, value);
    }

    method ToText() returns (query: string)
      ensures query == Serialize(entries)
    {
      query := Serialize(entries);
    }
  }

  /** What `buildLegalPath` is specified to return. */
  function LegalEntries(returnTo: Option<string>, error: Option<string>): Entries {
    var target := SanitizePortalReturnTo(returnTo, PORTAL_HOME_PATH);
    (if target != PORTAL_HOME_PATH then [("returnTo", target)] else [])
    + (if error.Some? && error.value != "" then [("error", error.value)] else [])
  }

  function LegalPath(returnTo: Option<string>, error: Option<string>): string {
    var entries := LegalEntries(returnTo, error);
    if entries == [] then PORTAL_LEGAL_PATH else PORTAL_LEGAL_PATH + "?" + Serialize(entries)
  }

  method BuildLegalPath(returnTo: Option<string>, error: Option<string>) returns (path: string)
    ensures path == LegalPath(returnTo, error)
  {
    hide Encode, SanitizePortalReturnTo;
    var params := new SearchParams();
    var sanitizedReturnTo := SanitizePortalReturnTo(returnTo, PORTAL_HOME_PATH);
    if sanitizedReturnTo != PORTAL_HOME_PATH {
      params.Set("returnTo", sanitizedReturnTo);
    }
    if error.Some? && error.value != "" {
      params.Set("error", error.value);
    }
    var query := params.ToText();
    assert query == "" <==> params.entries == [];
    path := if query != "" then PORTAL_LEGAL_PATH + "?" + query else PORTAL_LEGAL_PATH;
  }

  // ---- sanitizing ----

  /** Either sanitizer changes nothing the second time, and the one for the login page changes nothing for the
      one that reads the page back. */
  lemma {:induction false} SanitizeTwice(p: Option<string>)
    ensures SanitizeLocalPath(Some(SanitizeLocalPath(p, PORTAL_HOME_PATH)), PORTAL_HOME_PATH)
         == SanitizeLocalPath(p, PORTAL_HOME_PATH)
    ensures SanitizePortalReturnTo(Some(SanitizeLocalPath(p, PORTAL_HOME_PATH)), PORTAL_HOME_PATH)
         == SanitizePortalReturnTo(p, PORTAL_HOME_PATH)
    ensures SanitizePortalReturnTo(Some(SanitizePortalReturnTo(p, PORTAL_HOME_PATH)), PORTAL_HOME_PATH)
         == SanitizePortalReturnTo(p, PORTAL_HOME_PATH)
  {
    hide Trim;
    TrimFixesTrimmed(SanitizeLocalPath(p, PORTAL_HOME_PATH));
    TrimFixesTrimmed(SanitizePortalReturnTo(p, PORTAL_HOME_PATH));
  }

  /** What the local sanitizer lets pass, and what the portal's sanitizer refuses beyond that. */
  predicate IsLocalPath(t: string) {
    "/" <= t && !("//" <= t)
  }

  predicate IsGatePage(t: string) {
    t == "/login" || t == "/legal" || "/login?" <= t || "/legal?" <= t
  }

  /** The local sanitizer keeps a text, trimmed, exactly when it begins with one slash only. */
  lemma {:induction false} LocalPathExactly(value: Option<string>, fallback: string)
    ensures var t := if value.Some? then Trim(value.value) else "";
            SanitizeLocalPath(value, fallback) == if IsLocalPath(t) then t else fallback
  {
    hide Trim;
  }

  /** The portal's sanitizer keeps a text, trimmed, exactly when it begins with one slash only and is not one
      of the exact gate pages, with or without a query; everything else gives way to the fallback. */
  lemma {:induction false} ReturnToExactly(value: Option<string>, fallback: string)
    ensures var t := if value.Some? then Trim(value.value) else "";
            SanitizePortalReturnTo(value, fallback) == if IsLocalPath(t) && !IsGatePage(t) then t else fallback
    ensures !IsGatePage(fallback) ==> !IsGatePage(SanitizePortalReturnTo(value, fallback))
  {
    hide Trim;
    LocalPathExactly(value, fallback);
    assert PORTAL_LEGAL_PATH + "?" == "/legal?" && PORTAL_LOGIN_PATH + "?" == "/login?";
  }

  lemma {:induction false} HomeIsNoGatePage()
    ensures PORTAL_HOME_PATH == "/portal" && IsLocalPath("/portal") && !IsGatePage("/portal")
  {
    assert "/portal"[1] == 'p' && "/login"[1] == 'l' && "/legal"[1] == 'l';
    assert "/login?"[1] == 'l' && "/legal?"[1] == 'l' && "//"[1] == '/';
  }

  // ---- what the encoders write ----

  /** Characters that no separator of a URL or a query is among. */
  predicate Inert(c: char) {
    Component.Keeps(c) || c == '%' || c == '+'
  }

  ghost predicate IsInert(s: string) {
    forall i :: 0 <= i < |s| ==> Inert(s[i])
  }

  lemma {:induction false} EncodeIsInert(e: Encoder, s: string)
    requires !e.Query?
    ensures IsInert(Encode(e, s))
  {
    if s != [] {
      EncodeIsInert(e, s[1..]);
      EscapeIsInert(CharBytes(s[0]));
    }
  }

  lemma {:induction false} EscapeIsInert(b: seq<byte>)
    ensures IsInert(EscapeBytes(b))
  {
    if b != [] {
      EscapeIsInert(b[1..]);
    }
  }

  // ---- serializing and reading back ----

  lemma {:induction false} PieceReads(n: string, v: string)
    requires '=' !in n
    ensures PieceName(n + "=" + v) == FormDecode(n)
    ensures PieceValue(n + "=" + v) == FormDecode(v)
  {
    var piece := n + "=" + v;
    IndexOfFirst(n, '=', v);
    assert piece == n + ['='] + v;
    assert piece[..|n|] == n && piece[|n| + 1..] == v;
  }

  lemma {:induction false} InertHasNo(s: string, c: char)
    requires IsInert(s) && !Inert(c)
    ensures c !in s
  {}

  lemma {:induction false} PieceHasNoAmpersand(n: string, v: string)
    requires '&' !in n && '&' !in v
    ensures '&' !in n + "=" + v
  {}

  lemma {:induction false} EntryTextReads(entry: (string, string))
    ensures '&' !in EntryText(entry) && EntryText(entry) != ""
    ensures PieceName(EntryText(entry)) == entry.0 && PieceValue(EntryText(entry)) == entry.1
  {
    var n, v := Encode(Form, entry.0), Encode(Form, entry.1);
    assert '=' !in n && '&' !in n && '&' !in v by {
      EncodeIsInert(Form, entry.0);
      EncodeIsInert(Form, entry.1);
      InertHasNo(n, '=');
      InertHasNo(n, '&');
      InertHasNo(v, '&');
    }
    PieceHasNoAmpersand(n, v);
    PieceReads(n, v);
    FormDecodeEncode(Form, entry.0);
    FormDecodeEncode(Form, entry.1);
  }

  /** The query that `URLSearchParams` writes reads back, name by name, as the entries it holds. */
  lemma {:induction false} SerializeReadsBack(entries: Entries, name: string)
    ensures SearchGet(Serialize(entries), name) == Lookup(entries, name)
  {
    if entries != [] {
      var text, rest := EntryText(entries[0]), Serialize(entries[1..]);
      EntryTextReads(entries[0]);
      SerializeReadsBack(entries[1..], name);
      if |entries| == 1 {
        IndexOfFirst(text, '&', "");
        assert text[..|text|] == text;
      } else {
        IndexOfFirst(text, '&', rest);
        assert Serialize(entries)[..|text|] == text && Serialize(entries)[|text| + 1..] == rest;
      }
    }
  }

  lemma {:induction false} LookupWithout(entries: Entries, name: string, other: string)
    ensures Lookup(Without(entries, name), other) == if other == name then None else Lookup(entries, other)
  {
    if entries != [] {
      LookupWithout(entries[1..], name, other);
      if entries[0].0 == name {
        assert Without(entries, name) == Without(entries[1..], name);
      } else {
        assert Without(entries, name)[1..] == Without(entries[1..], name);
      }
    }
  }

  lemma {:induction false} LookupWithEntry(entries: Entries, name: string, value: string, other: string)
    ensures Lookup(WithEntry(entries, name, value), other)
         == if other == name then Some(value) else Lookup(entries, other)
  {
    if entries == [] {
      assert [(name, value)][1..] == [];
    } else {
      assert WithEntry(entries, name, value)[1..]
          == if entries[0].0 == name then Without(entries[1..], name) else WithEntry(entries[1..], name, value);
      if entries[0].0 == name {
        LookupWithout(entries[1..], name, other);
      } else {
        LookupWithEntry(entries[1..], name, value, other);
      }
    }
  }

  /** After `set`, the printed query gives the new value for that name and the old one for every other. */
  lemma {:induction false} SetReadsBack(entries: Entries, name: string, value: string, other: string)
    ensures SearchGet(Serialize(WithEntry(entries, name, value)), other)
         == if other == name then Some(value) else SearchGet(Serialize(entries), other)
  {
    hide Serialize, SearchGet;
    SerializeReadsBack(WithEntry(entries, name, value), other);
    SerializeReadsBack(entries, other);
    LookupWithEntry(entries, name, value, other);
  }
}
