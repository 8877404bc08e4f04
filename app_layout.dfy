/** The decision logic of the application layout
    (packages/experience/src/Layout/AppLayout/index.tsx): capturing an
    allowed referrer when the layout mounts, and choosing where the close
    button leads. Navigation is modelled as the destination returned. */
module AppLayout {
  import opened Wrappers
  import opened Strings
  import opened AllowList
  import SessionStorage

  const ReferrerKey: string := "logto_referrer"
  const BackUrlKey: string := "back_url"
  const UiLocalesKey: string := "ui_locales"

  /** Destination when no locale maps to a domain. */
  const DefaultDomain: string := "https://www.aaaauto.cz"

  /** `localeToDomain`, exactly its three declared entries. */
  const LocaleToDomain: map<string, string> := map[
    "cs" := "https://www.aaaauto.cz",
    "sk" := "https://www.aaaauto.sk",
    "pl" := "https://www.aaaauto.pl"
  ]

  /** Which branch of the back handler fired. */
  datatype Tier = BackUrlTier | ReferrerTier | LocaleTier

  /** What one press of the close button does: the branch taken, the URL
      navigated to, and the store left behind. */
  datatype Resolution = Resolution(tier: Tier, destination: string, store: map<string, string>)

  /** The guard on a stored URL before it is used: present,
      not the empty string, and allowed. */
  predicate Usable(hostOf: HostParser, store: map<string, string>, key: string) {
    key in store && store[key] != "" && IsAllowedUrl(hostOf, store[key])
  }

  /** The locale hint: the text of `ui_locales` before its first space,
      or the empty string when the key is absent. */
  function LocaleOf(store: map<string, string>): string {
    if UiLocalesKey in store then Split(store[UiLocalesKey], ' ')[0] else ""
  }

  /** The domain mapped to a locale, or the default domain when the locale
      is not one of the three mapped ones. */
  function DomainFor(locale: string): string {
    if locale in LocaleToDomain then LocaleToDomain[locale] else DefaultDomain
  }

  /** The store after the mount effect has seen `referrer`. */
  function CapturedStore(hostOf: HostParser, store: map<string, string>, referrer: string): map<string, string> {
    if referrer != "" && IsAllowedUrl(hostOf, referrer) then store[ReferrerKey := referrer] else store
  }

  /** The outcome of `handleBack` on a given store. */
  function Resolve(hostOf: HostParser, store: map<string, string>): Resolution {
    if Usable(hostOf, store, BackUrlKey) then
      Resolution(BackUrlTier, store[BackUrlKey], store - {BackUrlKey})
    else if Usable(hostOf, store, ReferrerKey) then
      Resolution(ReferrerTier, store[ReferrerKey], store)
    else
      Resolution(LocaleTier, DomainFor(LocaleOf(store)), store)
  }

  /** The mount effect: remembers the page's referrer when it is non-empty
      and allowed. */
  method CaptureReferrer(storage: SessionStorage.Store, hostOf: HostParser, referrer: string)
    modifies storage
    ensures storage.items == CapturedStore(hostOf, old(storage.items), referrer)
  {
    if referrer != "" && IsAllowedUrl(hostOf, referrer) {
      storage.SetItem(ReferrerKey, referrer);
    }
  }

  /** The close button's handler: returns the one URL it navigates to. */
  method HandleBack(storage: SessionStorage.Store, hostOf: HostParser) returns (destination: string)
    modifies storage
    ensures destination == Resolve(hostOf, old(storage.items)).destination
    ensures storage.items == Resolve(hostOf, old(storage.items)).store
  {
    var backUrl := storage.GetItem(BackUrlKey);
    if backUrl.Some? && backUrl.value != "" && IsAllowedUrl(hostOf, backUrl.value) {
      storage.RemoveItem(BackUrlKey);
      destination := backUrl.value;
      return;
    }
    var referrer := storage.GetItem(ReferrerKey);
    if referrer.Some? && referrer.value != "" && IsAllowedUrl(hostOf, referrer.value) {
      destination := referrer.value;
      return;
    }
    var uiLocales := storage.GetItem(UiLocalesKey);
    var locale := if uiLocales.Some? then Split(uiLocales.value, ' ')[0] else "";
    destination := DomainFor(locale);
  }

  // ---------------------------------------------------------------------
  // Referrer capture

  /** The mount effect writes `logto_referrer := referrer` exactly when the
      referrer is non-empty and allowed, and touches no other key. */
  lemma CaptureWritesOnlyAllowedReferrer(hostOf: HostParser, store: map<string, string>, referrer: string)
    ensures var after := CapturedStore(hostOf, store, referrer);
      && (forall k :: k != ReferrerKey ==> (k in after <==> k in store))
      && (forall k :: k != ReferrerKey && k in after ==> after[k] == store[k])
      && (referrer != "" && IsAllowedUrl(hostOf, referrer) ==> ReferrerKey in after && after[ReferrerKey] == referrer)
      && (!(referrer != "" && IsAllowedUrl(hostOf, referrer)) ==> after == store)
  {
  }

  /** Once an allowed referrer has been captured, the close button never
      falls back to the locale domain, and unless a usable `back_url` is
      stored it returns to that referrer. */
  lemma CaptureThenBackReturnsToReferrer(hostOf: HostParser, store: map<string, string>, referrer: string)
    requires referrer != "" && IsAllowedUrl(hostOf, referrer)
    ensures var r := Resolve(hostOf, CapturedStore(hostOf, store, referrer));
      && r.tier != LocaleTier
      && (r.tier == BackUrlTier <==> Usable(hostOf, store, BackUrlKey))
      && (r.tier == ReferrerTier ==> r.destination == referrer)
  {
  }

  // ---------------------------------------------------------------------
  // The back handler, branch by branch

  /** First branch: a usable `back_url` is navigated to and removed from
      the store; nothing else changes. */
  lemma BackUrlTierConsumes(hostOf: HostParser, store: map<string, string>)
    requires BackUrlKey in store && store[BackUrlKey] != "" && IsAllowedUrl(hostOf, store[BackUrlKey])
    ensures var r := Resolve(hostOf, store);
      && r.tier == BackUrlTier
      && r.destination == store[BackUrlKey]
      && BackUrlKey !in r.store
      && r.store.Keys == store.Keys - {BackUrlKey}
      && (forall k :: k in r.store ==> r.store[k] == store[k])
  {
  }

  /** Second branch: without a usable `back_url`, a usable `logto_referrer`
      is navigated to and the store is left as it was. */
  lemma ReferrerTierLeavesStore(hostOf: HostParser, store: map<string, string>)
    requires !Usable(hostOf, store, BackUrlKey)
    requires ReferrerKey in store && store[ReferrerKey] != "" && IsAllowedUrl(hostOf, store[ReferrerKey])
    ensures var r := Resolve(hostOf, store);
      r.tier == ReferrerTier && r.destination == store[ReferrerKey] && r.store == store
  {
  }

  /** Third branch: with neither stored URL usable, the destination is the
      domain mapped from the first space-separated token of `ui_locales`
      (the empty token when the key is absent), or the default domain when
      that token is not one of the three locales; the store is unchanged. */
  lemma LocaleFallbackTier(hostOf: HostParser, store: map<string, string>, token: string)
    requires !Usable(hostOf, store, BackUrlKey) && !Usable(hostOf, store, ReferrerKey)
    requires UiLocalesKey in store ==> IsFirstToken(token, store[UiLocalesKey], ' ')
    requires UiLocalesKey !in store ==> token == ""
    ensures var r := Resolve(hostOf, store);
      && r.tier == LocaleTier
      && r.store == store
      && r.destination == (if token in LocaleToDomain then LocaleToDomain[token] else DefaultDomain)
  {
    if UiLocalesKey in store {
      SplitFirstToken(store[UiLocalesKey], ' ');
      FirstTokenUnique(token, Split(store[UiLocalesKey], ' ')[0], store[UiLocalesKey], ' ');
    }
  }

  /** Each press takes exactly one branch, in the order `back_url`, then
      `logto_referrer`, then the locale fallback. */
  lemma TiersInPriorityOrder(hostOf: HostParser, store: map<string, string>)
    ensures var r := Resolve(hostOf, store);
      && (r.tier == BackUrlTier <==> Usable(hostOf, store, BackUrlKey))
      && (r.tier == ReferrerTier <==> !Usable(hostOf, store, BackUrlKey) && Usable(hostOf, store, ReferrerKey))
      && (r.tier == LocaleTier <==> !Usable(hostOf, store, BackUrlKey) && !Usable(hostOf, store, ReferrerKey))
  {
  }

  /** The handler only ever deletes `back_url`, and only in the first
      branch: it adds no key and rewrites no value. */
  lemma OnlyBackUrlEverRemoved(hostOf: HostParser, store: map<string, string>)
    ensures var r := Resolve(hostOf, store);
      && r.store.Keys <= store.Keys
      && store.Keys - r.store.Keys <= {BackUrlKey}
      && (forall k :: k in r.store ==> r.store[k] == store[k])
      && (r.store != store ==> r.tier == BackUrlTier)
  {
  }

  /** A `back_url` is used once: the press after the first branch never
      takes it again, and after either other branch a second press does
      exactly what the first one did. */
  lemma SecondPress(hostOf: HostParser, store: map<string, string>)
    ensures var first := Resolve(hostOf, store);
      var second := Resolve(hostOf, first.store);
      && (first.tier == BackUrlTier ==> second.tier != BackUrlTier)
      && (first.tier != BackUrlTier ==> second == first)
  {
  }

  // ---------------------------------------------------------------------
  // The host check on every destination

  /** What the parser must give for the three fallback URLs: their
      evident hostnames. */
  predicate ParsesFallbackDomains(hostOf: HostParser) {
    && hostOf("https://www.aaaauto.cz") == Some("www.aaaauto.cz")
    && hostOf("https://www.aaaauto.sk") == Some("www.aaaauto.sk")
    && hostOf("https://www.aaaauto.pl") == Some("www.aaaauto.pl")
  }

  /** Every domain the locale fallback can yield is allowed. */
  lemma FallbackDomainsAllowed(hostOf: HostParser, locale: string)
    requires ParsesFallbackDomains(hostOf)
    ensures IsAllowedUrl(hostOf, DomainFor(locale))
  {
    assert HostMatches("www.aaaauto.cz", AllowedHosts[0]) by {
      assert "www.aaaauto.cz"[3..] == ".aaaauto.cz";
    }
    assert HostMatches("www.aaaauto.sk", AllowedHosts[1]) by {
      assert "www.aaaauto.sk"[3..] == ".aaaauto.sk";
    }
    assert HostMatches("www.aaaauto.pl", AllowedHosts[2]) by {
      assert "www.aaaauto.pl"[3..] == ".aaaauto.pl";
    }
  }

  /** Whatever is stored, the destination passes `IsAllowedUrl`: the
      stored URLs are checked before use and the fallback domains are
      subdomains of allowed hosts. The check reads only the hostname, so
      this says nothing about the URL's scheme (see
      `ScriptUrlWithAllowedHostFollowed`). */
  lemma DestinationAlwaysAllowed(hostOf: HostParser, store: map<string, string>)
    requires ParsesFallbackDomains(hostOf)
    ensures IsAllowedUrl(hostOf, Resolve(hostOf, store).destination)
  {
    FallbackDomainsAllowed(hostOf, LocaleOf(store));
  }

  /** The allow-list reads only the hostname, so a `javascript:` URL whose
      authority is a trusted host passes it. When the parser gives it that
      hostname, as the WHATWG URL Standard does, a stored `back_url` of this
      form is navigated to, which runs its script. */
  lemma ScriptUrlWithAllowedHostFollowed(hostOf: HostParser, store: map<string, string>)
    requires hostOf("javascript://aaaauto.cz/%0alocation='https://evil.example'") == Some("aaaauto.cz")
    requires BackUrlKey in store
    requires store[BackUrlKey] == "javascript://aaaauto.cz/%0alocation='https://evil.example'"
    ensures var r := Resolve(hostOf, store);
      r.tier == BackUrlTier && r.destination == "javascript://aaaauto.cz/%0alocation='https://evil.example'"
  {
    assert HostMatches("aaaauto.cz", AllowedHosts[0]);
  }

  // ---------------------------------------------------------------------
  // Worked cases

  /** An allowed `back_url` is followed and then removed. */
  lemma AllowedBackUrlFollowed(hostOf: HostParser, store: map<string, string>)
    requires hostOf("https://www.aaaauto.cz/x") == Some("www.aaaauto.cz")
    requires BackUrlKey in store && store[BackUrlKey] == "https://www.aaaauto.cz/x"
    ensures var r := Resolve(hostOf, store);
      r.destination == "https://www.aaaauto.cz/x" && BackUrlKey !in r.store
  {
  }

  /** A foreign referrer is skipped and `ui_locales = "sk extra"` selects
      the Slovak domain. */
  lemma ForeignReferrerFallsThrough(hostOf: HostParser, store: map<string, string>)
    requires hostOf("https://evil.example.com") == Some("evil.example.com")
    requires BackUrlKey !in store
    requires ReferrerKey in store && store[ReferrerKey] == "https://evil.example.com"
    requires UiLocalesKey in store && store[UiLocalesKey] == "sk extra"
    ensures Resolve(hostOf, store).destination == "https://www.aaaauto.sk"
  {
    RejectedByLastChar("evil.example.com");
    LocaleFallbackTier(hostOf, store, "sk");
  }

  /** With nothing stored, or with a locale that is not mapped, the
      default domain is chosen. */
  lemma UnmappedLocaleGivesDefault(hostOf: HostParser)
    ensures Resolve(hostOf, map[]).destination == DefaultDomain
    ensures Resolve(hostOf, map[UiLocalesKey := "fr"]).destination == DefaultDomain
    ensures Resolve(hostOf, map[UiLocalesKey := ""]).destination == DefaultDomain
  {
    LocaleFallbackTier(hostOf, map[UiLocalesKey := "fr"], "fr");
    LocaleFallbackTier(hostOf, map[UiLocalesKey := ""], "");
  }
}
