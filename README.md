# Back navigation and open-redirect guard of the experience layout

This project models the decision logic of the application layout of the
sign-in experience (`packages/experience/src/Layout/AppLayout/index.tsx`)
and proves its properties in Dafny.

- **`isAllowedUrl`** accepts a URL when its hostname is one of the trusted
  hosts `aaaauto.cz`, `aaaauto.sk`, `aaaauto.pl` or `localhost`, or ends
  with a dot followed by one of them. A URL that fails to parse is
  rejected.
- **The referrer capture** runs when the layout mounts. It copies the
  page's referrer into `sessionStorage` under `logto_referrer` when the
  referrer is non-empty and allowed.
- **`handleBack`** runs when the close button is pressed. It navigates to
  exactly one place:
  1. a stored `back_url`, which is then removed;
  2. else a stored `logto_referrer`, which is kept;
  3. else the domain for the first space-separated token of `ui_locales`,
     or `https://www.aaaauto.cz` when that token is not mapped.

  A stored URL is used only when it is present, not empty, and allowed.

Modules:

- `Wrappers` (`wrappers.dfy`): `Option`.
- `Strings` (`strings.dfy`): JavaScript `endsWith` and `split`, with
  `split`/`join` round trips and the first-token property.
- `AllowList` (`allow_list.dfy`): the host allow-list and `isAllowedUrl`.
  URL parsing is a parameter `hostOf: string -> Option<string>`, where
  `None` stands for `new URL` throwing. Each lemma states in its
  `requires` whatever it assumes about particular parses.
- `SessionStorage` (`session_storage.dfy`): class `Store`, a
  `map<string, string>` updated in place by `SetItem` and `RemoveItem`.
- `AppLayout` (`app_layout.dfy`): the capture effect and the back handler.
  They are imperative methods on a `Store`, proved against the functions
  `CapturedStore` and `Resolve`. The lemmas are stated about those
  functions. Navigation is modelled as the returned destination.

The host check on the locale fallback depends on the URL parser. It needs the
hypothesis `ParsesFallbackDomains`: parsing the three fallback URLs gives
their evident hostnames (`www.aaaauto.cz` and so on).

## Model

| member | source | states |
|---|---|---|
| `Strings.Split` | packages/experience/src/Layout/AppLayout/index.tsx:56 | `split(' ')` always yields at least one piece, and no piece contains the separator |
| `Strings.JoinSplit` | packages/experience/src/Layout/AppLayout/index.tsx:56 | joining the pieces of a split with the separator gives back the original string |
| `Strings.SplitJoin` | packages/experience/src/Layout/AppLayout/index.tsx:56 | splitting the join of separator-free pieces gives back those pieces, so split loses nothing |
| `Strings.SplitFirstToken` | packages/experience/src/Layout/AppLayout/index.tsx:56 | `split(' ')[0]` is the prefix before the first space, or the whole string when it has no space |
| `Strings.FirstTokenUnique` | packages/experience/src/Layout/AppLayout/index.tsx:56 | that prefix is unique, so the locale token is determined by `ui_locales` alone |
| `AllowList.AnyHostMatches` | packages/experience/src/Layout/AppLayout/index.tsx:26 | the `.some` scan is true exactly when some host in the list equals the hostname or is a dot-suffix of it |
| `AllowList.IsAllowedUrl` | packages/experience/src/Layout/AppLayout/index.tsx:23-30 | a parse failure yields false and never an error; a parsed URL is allowed exactly when its hostname matches some allowed host |
| `AllowList.HostMatchesAtLabelBoundary` | packages/experience/src/Layout/AppLayout/index.tsx:26 | a host matches exactly when the hostname ends with it and either nothing or a dot comes right before it |
| `AllowList.RejectedByLastChar` | packages/experience/src/Layout/AppLayout/index.tsx:15-26 | a hostname that is none of the allowed hosts and ends in a letter no allowed host ends in is rejected |
| `AllowList.LeadingLabelRejected` | packages/experience/src/Layout/AppLayout/index.tsx:15-26 | `aaaauto.cz.evil.com` is rejected, because a trusted name as a leading label does not count |
| `AllowList.MissingDotRejected` | packages/experience/src/Layout/AppLayout/index.tsx:15-26 | `evilaaaauto.cz` and `notlocalhost` are rejected, because a suffix without a dot boundary does not count |
| `AllowList.TrustedHostsAccepted` | packages/experience/src/Layout/AppLayout/index.tsx:15-26 | `www.aaaauto.cz`, `aaaauto.pl` and `localhost` are accepted |
| `AllowList.SubdomainStaysAllowed` | packages/experience/src/Layout/AppLayout/index.tsx:26 | prefixing any label and a dot to an allowed hostname keeps it allowed |
| `SessionStorage.Store.GetItem` | packages/experience/src/Layout/AppLayout/index.tsx:44 | returns the stored string when the key is present and nothing when it is absent |
| `SessionStorage.Store.SetItem` | packages/experience/src/Layout/AppLayout/index.tsx:39 | the store afterwards is the old store with that one key set to the value |
| `SessionStorage.Store.RemoveItem` | packages/experience/src/Layout/AppLayout/index.tsx:46 | the store afterwards is the old store without that one key |
| `AppLayout.CaptureReferrer` | packages/experience/src/Layout/AppLayout/index.tsx:37-41 | the store afterwards is the one `CapturedStore` describes |
| `AppLayout.CaptureWritesOnlyAllowedReferrer` | packages/experience/src/Layout/AppLayout/index.tsx:37-41 | `logto_referrer` is set to the referrer exactly when the referrer is non-empty and allowed; otherwise the store is unchanged; no other key is touched |
| `AppLayout.CaptureThenBackReturnsToReferrer` | packages/experience/src/Layout/AppLayout/index.tsx:37-59 | after an allowed referrer is captured, the close button never uses the locale fallback, and it goes to that referrer unless a usable `back_url` exists |
| `AppLayout.HandleBack` | packages/experience/src/Layout/AppLayout/index.tsx:43-59 | the URL navigated to and the store afterwards are those `Resolve` describes |
| `AppLayout.BackUrlTierConsumes` | packages/experience/src/Layout/AppLayout/index.tsx:44-48 | a present, non-empty, allowed `back_url` is the destination, and the store afterwards is the old store without `back_url` |
| `AppLayout.ReferrerTierLeavesStore` | packages/experience/src/Layout/AppLayout/index.tsx:50-53 | otherwise a present, non-empty, allowed `logto_referrer` is the destination, and the store is unchanged |
| `AppLayout.LocaleFallbackTier` | packages/experience/src/Layout/AppLayout/index.tsx:55-58 | otherwise the destination is the domain mapped from the first space-separated token of `ui_locales` (empty when absent), or the default domain for an unmapped token, and the store is unchanged |
| `AppLayout.TiersInPriorityOrder` | packages/experience/src/Layout/AppLayout/index.tsx:43-59 | exactly one branch is taken, each under the stated condition, in the order `back_url`, referrer, locale |
| `AppLayout.OnlyBackUrlEverRemoved` | packages/experience/src/Layout/AppLayout/index.tsx:43-59 | the handler adds no key, rewrites no value, deletes at most `back_url`, and changes the store only in the first branch |
| `AppLayout.SecondPress` | packages/experience/src/Layout/AppLayout/index.tsx:44-53 | a `back_url` is used at most once; after the referrer or locale branch, a second press does exactly the same as the first |
| `AppLayout.FallbackDomainsAllowed` | packages/experience/src/Layout/AppLayout/index.tsx:15-21 | every domain the locale lookup can yield passes `isAllowedUrl`, given that the parser reads the evident hostnames |
| `AppLayout.DestinationAlwaysAllowed` | packages/experience/src/Layout/AppLayout/index.tsx:43-59 | whatever is stored, the destination passes `isAllowedUrl`; this is a hostname check only and does not cover the URL's scheme |
| `AppLayout.ScriptUrlWithAllowedHostFollowed` | packages/experience/src/Layout/AppLayout/index.tsx:23-48 | a `javascript:` URL whose authority is `aaaauto.cz` passes the host check and, stored as `back_url`, is navigated to |
| `AppLayout.AllowedBackUrlFollowed` | packages/experience/src/Layout/AppLayout/index.tsx:44-48 | a stored `https://www.aaaauto.cz/x` is navigated to and removed |
| `AppLayout.ForeignReferrerFallsThrough` | packages/experience/src/Layout/AppLayout/index.tsx:50-58 | with no `back_url`, the referrer `https://evil.example.com` and `ui_locales = "sk extra"`, the destination is `https://www.aaaauto.sk` |
| `AppLayout.UnmappedLocaleGivesDefault` | packages/experience/src/Layout/AppLayout/index.tsx:56-57 | an empty store, `ui_locales = "fr"` and `ui_locales = ""` all lead to `https://www.aaaauto.cz` |

## Left out

- URL parsing (`new URL`, the basic URL parser of the WHATWG URL Standard, section 4.4) is not modelled: lowercasing, IDNA, ports and userinfo are all hidden in the parameter `hostOf`. Each lemma names in its `requires` the parses it relies on; the others hold for every parser.
- `localeToDomain` is a plain JavaScript object, so a lookup such as `localeToDomain['constructor']` finds an inherited prototype member and not `undefined`. The model's map has exactly its three declared keys, so such tokens yield the default domain here.
- The React machinery is not modelled: `useEffect` running once on mount, `useCallback`, `useContext(PageContext)`, `usePlatform`, and the rendered markup with its two conditionals (custom content on desktop, the branding signature unless hidden).
- The browser APIs become values. `document.referrer` is a parameter of `CaptureReferrer`. `window.location.assign` is the destination that `HandleBack` returns; the page unload that follows is not modelled. `sessionStorage` is the `Store` class; its quota errors and its sharing between scripts are not modelled.
- Strings are sequences of characters; JavaScript's UTF-16 code units are not distinguished.
- AppLayout.DestinationAlwaysAllowed: proves only that the destination passes `isAllowedUrl`, which reads the hostname alone. It does not say the navigation is harmless: a `javascript:` URL with a trusted authority passes and is followed, as `ScriptUrlWithAllowedHostFollowed` shows, because the source checks no scheme.
- AppLayout.DestinationAlwaysAllowed: holds of the model's three-key `localeToDomain` only. In the source, a `ui_locales` token such as `constructor`, `toString` or `__proto__` finds an inherited member of the object literal, so the default is skipped and the destination is a stringified value that fails `isAllowedUrl`.
