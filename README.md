# History Auto Cleaner, modelled in Dafny

History Auto Cleaner is a browser extension. It deletes browsing-history
entries for navigations to domains the user has marked as private. It has two
parts that share one configuration value,
`{ isUnlocked: boolean, privateDomains: { pattern: boolean } }`, which is stored
under the key `privateDomains`:

* the **background worker** (`service_worker.js`).
  * It keeps a cached copy of the configuration.
  * It listens to three navigation channels: committed navigations,
    history-state updates and reference-fragment updates.
  * For a top-frame URL whose hostname matches one of the configured domain
    patterns, it removes that URL from history 1000 ms later.
  * The cache is replaced at startup, on a storage change and on an
    `updateConfig` message. A `getConfig` message returns the cache.
* the **options page** (`options.js`).
  * It validates and adds domain patterns, deletes them, and toggles their
    hidden flag.
  * It lists the visible patterns and derives the URL that "visit" opens.
  * Three quick clicks on the version number toggle the unlocked mode.
  * It imports a whole configuration from JSON text.

The Dafny project is organised as follows:

* `wrappers.dfy`: `Option` and `Result`.
* `js_string.dfy`: the JavaScript string operations the code relies on.
  * `trim`, with ECMAScript white space and line terminators;
  * `startsWith`, `endsWith` and UTF-16 length;
  * decimal spelling of array indices.
* `json_value.dfy`: a parsed JSON value, with JavaScript truthiness and
  `typeof v === 'object'`.
* `configuration.dfy`: the shared configuration, its default, the outcome of
  a storage read, and `Object.keys` as a method enumerating a key set.
* `pattern_matcher.dfy`: `isUrlMatched` and its three pattern rules, modelled
  as pure functions.
  * The glob rule is given both as a recursive matcher and as an independent
    "instance of the glob" definition, and the two are proved equivalent.
* `matcher_examples.dfy`: the boundary cases of the matcher, proved from the
  general rules.
* `navigation_reactor.dfy`: the background worker as a class `Reactor`.
  * Its state is the cached configuration, a logical clock, the pending
    deletions (one per `setTimeout`) and the log of history removals issued.
* `domain_rules.dfy`: the pure rules of the options page.
  * the domain validator and its label grammar;
  * the visibility filter and the hidden flag;
  * the visit target;
  * the structural check of an imported configuration.
* `options_page.dfy`: the options page as a class `Page`.
  * Its state is the configuration, the click counter with its reset timer,
    a logical clock and the log of configurations written to storage.

External collaborators become parameters:

* the URL parser's hostname, `parseHost: string -> Option<string>`;
* `JSON.parse`, `parseJson: string -> Option<Json>`;
* a storage read, `LoadResult`;
* a storage write, `storageOk: bool`;
* a `confirm` dialog, `confirmed: bool`.

`initializeConfig()` is called without `await` (`service_worker.js:200`), so
`Reactor.InitializeConfig` may run after navigation events were already
handled against the default configuration.

## Model

| member | source | states |
|---|---|---|
| JsString.Trim | service_worker.js:57 | the result has no surrounding white space, is never longer than the input, leaves a trimmed string alone, and is empty exactly when the input is all white space |
| JsString.TrimKeepsMiddle | service_worker.js:57 | the trimmed result is a contiguous part of the input with only white space before it and after it, so nothing inside is changed |
| JsString.TrimIdempotent | options.js:172 | trimming twice is the same as trimming once, so re-trimming the already trimmed input in the validator changes nothing |
| JsString.EndsWithDotMeaning | service_worker.js:72 | `host.endsWith('.' + d)` holds exactly when some dot in the host is followed by exactly `d` |
| JsString.Utf16Length | options.js:178 | `length` counts UTF-16 code units: between one and two per character, and exactly one per character when all are in the Basic Multilingual Plane |
| JsString.NatToStringInjective | options.js:529 | different array indices have different decimal spellings, so the index keys of an imported array never collide |
| Configuration.GetAllDomains | service_worker.js:40-42 | `Object.keys`: the returned list holds exactly the keys of the map, each once |
| PatternMatcher.GlobMatch | service_worker.js:80-85 | whether the whole host matches the anchored case-insensitive expression built from the glob; its meaning is fixed by GlobMatchMeaning and StarLiteralStarRule |
| PatternMatcher.PatternMatches | service_worker.js:55-90 | the `some` callback: trim, then one of the three rules; characterised rule by rule by PatternIsTrimmedFirst, ExactRule, RootWildcardRule and GlobRule |
| PatternMatcher.TrimmedPatternMatches | service_worker.js:58-89 | the three rules applied to a trimmed pattern, chosen in the code's order: blank, then `*.R` not ending in `.*`, then other globs, then star-free |
| PatternMatcher.SomeMatches | service_worker.js:55-90 | `patterns.some`: true exactly when some pattern of the list matches the hostname |
| PatternMatcher.IsUrlMatched | service_worker.js:48-95 | false for an empty URL, an empty pattern list or a URL that does not parse, with no error; otherwise true exactly when some pattern matches the parsed hostname |
| PatternMatcher.IsUrlMatchedDependsOnlyOnPatternSet | service_worker.js:55-90 | the model's answer depends only on the set of patterns, not on their order or repetitions; this holds for the code only while every glob's expression compiles (see Left out) |
| PatternMatcher.IsUrlMatchedMonotone | service_worker.js:55-90 | in the model, adding patterns can turn a non-match into a match, never the reverse; in the code a glob whose expression does not compile can (see Left out) |
| PatternMatcher.PatternIsTrimmedFirst | service_worker.js:57-58 | surrounding white space of a pattern is ignored, and a blank pattern matches no host |
| PatternMatcher.ExactRule | service_worker.js:86-88 | a pattern without `*` matches exactly the host equal to it or ending in `.` plus it, compared case-sensitively |
| PatternMatcher.RootWildcardRule | service_worker.js:63-77 | `*.R` not ending in `.*` matches exactly the host R and the hosts ending in `.R` |
| PatternMatcher.RootWildcardBoundary | service_worker.js:63-77 | `*.R` matches R and `x.R`, but not `xR`, where `x` is non-empty and does not end in a dot |
| PatternMatcher.RootWildcardSameAsBareRoot | service_worker.js:63-88 | for a star-free root, `*.R` and `R` match the same hosts |
| PatternMatcher.GlobRule | service_worker.js:79-85 | any other pattern containing `*` matches exactly the hosts that are instances of its glob: each `*` is a run of non-line-terminator characters, every other character is literal up to ASCII case, and the whole host is covered |
| PatternMatcher.GlobMatchMeaning | service_worker.js:80-85 | the recursive matcher and the instance definition of the anchored, case-insensitive expression agree on every host, in both directions |
| PatternMatcher.StarLiteralStarRule | service_worker.js:80-85 | a glob `*` + L + `*` (L star-free) matches exactly the hosts in which L occurs up to case, with no line terminator around it |
| PatternMatcher.StarMatchesEveryHost | service_worker.js:80-85 | the pattern `*` matches every hostname |
| PatternMatcher.UppercasePatternNeverMatchesLowercaseHost | service_worker.js:63-88 | the exact and root-wildcard rules compare case-sensitively, so such a pattern with an upper-case ASCII letter never matches a host without upper-case letters |
| MatcherExamples.RootWildcardExamples | service_worker.js:63-77 | `*.example.com` matches `example.com` and `a.example.com` but not `notexample.com` |
| MatcherExamples.ExactExamples | service_worker.js:86-88 | `example.com` matches `shop.example.com`; `Example.com` does not match `example.com` |
| MatcherExamples.StarStarComExamples | service_worker.js:61-77 | `*.*.com` takes the root-wildcard rule with the literal root `*.com`: it matches `*.com` and `x.*.com` but not `a.b.com` |
| MatcherExamples.GlobExampleMatches | service_worker.js:79-85 | `*.example.*` matches `a.example.org` and, ignoring case, `A.Example.NET` |
| MatcherExamples.GlobExampleMisses | service_worker.js:79-85 | `*.example.*` matches neither `a.example` nor `example.org` |
| NavigationReactor.ConfigMatches | service_worker.js:118-121 | the listeners' test: some key of `privateDomains` matches the URL, whatever its value; CheckUrl and KeysMatchLikeConfig tie it to the code's key list |
| NavigationReactor.KeysMatchLikeConfig | service_worker.js:118-121 | matching against any enumeration of the configuration's keys gives the same answer as matching against its key set; the boolean values play no part |
| NavigationReactor.CheckUrl | service_worker.js:118-121 | the URL is matched against exactly the key set of the cached `privateDomains` |
| NavigationReactor.FiredCount | service_worker.js:126-128 | the number of leading pending deletions that are due by the given time, with the next one, if any, not yet due |
| NavigationReactor.FiredCountIsDuePrefix | service_worker.js:126-128 | on a queue ordered by due time, a deletion is due exactly when it lies in that leading part |
| NavigationReactor.UrlsAppend | service_worker.js:126-128 | the URLs of two successive batches of deletions are the URLs of the first followed by those of the second |
| NavigationReactor.Reactor.constructor | service_worker.js:12-15 | the worker starts with the default configuration (locked, no patterns) and nothing pending or deleted |
| NavigationReactor.Reactor.InitializeConfig | service_worker.js:20-35 | the cache becomes the stored configuration; if there is none, or the read fails, it becomes the default; nothing else changes |
| NavigationReactor.Reactor.ReactToNavigation | service_worker.js:113-130 | a top-frame URL that matches the cached patterns appends exactly one deletion of that URL, due 1000 ms from now; any other event schedules nothing; the cache is untouched |
| NavigationReactor.Reactor.Schedule | service_worker.js:126-128 | the deletion is appended, due 1000 ms after the current time, and the queue stays ordered |
| NavigationReactor.Reactor.HandleNavigationCommitted | service_worker.js:113-130 | the committed-navigation channel: frame filter, match, then one deletion at now + 1000 |
| NavigationReactor.Reactor.HandleHistoryStateUpdated | service_worker.js:136-154 | the history-state channel behaves exactly as the committed-navigation channel |
| NavigationReactor.Reactor.HandleReferenceFragmentUpdated | service_worker.js:160-178 | the reference-fragment channel behaves exactly as the committed-navigation channel |
| NavigationReactor.Reactor.HandleStorageChanged | service_worker.js:183-191 | a change without the `privateDomains` key leaves the cache alone; with it, the cache becomes the new value or, if absent, the default |
| NavigationReactor.Reactor.HandleMessage | service_worker.js:203-213 | `getConfig` replies with the cache unchanged; `updateConfig` replaces the cache with the sent configuration (or the default) and replies success; any other action gets no reply and changes nothing |
| NavigationReactor.Reactor.DeleteUrlFromHistory | service_worker.js:100-107 | one removal of exactly that URL is issued; its outcome is ignored and nothing else changes |
| NavigationReactor.Reactor.AdvanceClock | service_worker.js:126-128 | when time advances, exactly the deletions now due fire, in scheduling order, and the rest stay pending |
| NavigationReactor.RepeatedNavigation | service_worker.js:113-154 | the same matching URL reported twice schedules two deletions: the channels are not deduplicated |
| NavigationReactor.NavigateThenWait | service_worker.js:113-130 | a matching top-frame navigation followed by a 1000 ms wait issues the removal of exactly that URL |
| NavigationReactor.UpdateThenGet | service_worker.js:203-213 | after `updateConfig` with a configuration, `getConfig` returns that configuration |
| DomainRules.IsLabelSequence | options.js:183 | the label part of the domain expression: labels of ASCII letters and digits, with hyphens only inside a label, joined by single dots, tested by splitting at the first dot; its meaning is fixed by LabelSequenceMeaning |
| DomainRules.MatchesDomainRegex | options.js:183 | the whole domain expression: an optional `*.`, the labels, an optional `.*`; RegexShape and RegexPassesLaterChecks describe what it accepts |
| DomainRules.LabelSequenceMeaning | options.js:183 | the repeated-label part of the domain expression holds exactly for non-empty dot-separated labels of letters, digits and inner hyphens |
| DomainRules.RegexShape | options.js:183 | a string the domain expression accepts has an optional `*.` prefix, an optional `.*` suffix, and dot-separated labels in between |
| DomainRules.RegexPassesLaterChecks | options.js:189-201 | a string the domain expression accepts has no `..` and neither starts nor ends with a bare dot, so the later checks never reject |
| DomainRules.ValidateDomain | options.js:166-204 | a non-string is rejected as empty; an accepted domain is the trimmed input, non-empty, at most 253 code units, and matches the domain expression |
| DomainRules.ValidateDomainAccepts | options.js:166-204 | accepted exactly when the input is a string whose trimmed form is non-empty, at most 253 code units and matches the expression; "empty" exactly for a non-string or a blank string; the consecutive-dots error never occurs |
| DomainRules.AcceptedDomainShape | options.js:183-201 | an accepted domain is trimmed, uses only letters, digits, `-`, `.` and `*`, has no `..`, no bare leading or trailing dot, hyphens only inside labels, and a star only as a `*.` prefix or a `.*` suffix |
| DomainRules.AcceptedPlainDomainRule | options.js:203 | an accepted star-free domain matches exactly itself and its subdomains |
| DomainRules.AcceptedRootWildcardRule | options.js:203 | an accepted `*.R` without a `.*` suffix matches exactly R and its subdomains |
| DomainRules.IsDomainHidden | options.js:159-161 | a domain is hidden exactly when its value is `false`; ToggleFlipsHidden, HiddenNotShownWhenLocked and VisibleMeansNotHidden state its effect |
| DomainRules.ShownWhenLocked | options.js:152 | the filter keeps exactly the listed keys whose value is `true` |
| DomainRules.VisibleDomains | options.js:144-154 | when unlocked, every key is visible; when locked, exactly the keys whose value is `true` |
| DomainRules.HiddenNotShownWhenLocked | options.js:144-161 | when locked, a hidden domain (value `false`) is never listed |
| DomainRules.VisibleMeansNotHidden | options.js:144-161 | with boolean values, when locked the visible domains are exactly the ones not hidden |
| DomainRules.ToggledHidden | options.js:341-344 | toggling sets a boolean for that key and leaves every other entry unchanged |
| DomainRules.ToggleFlipsHidden | options.js:341-344 | toggling turns hidden into shown and shown into hidden |
| DomainRules.ToggleTwice | options.js:341-344 | toggling twice restores a boolean entry; a missing or non-boolean entry ends up `true` |
| DomainRules.VisitTarget | options.js:366-383 | a star-free pattern targets itself; `*.X` with exactly one star targets X; anything else, or an empty target, opens nothing |
| DomainRules.VisitUrl | options.js:384-390 | the opened URL is `http://` followed by the target, and there is one exactly when there is a target |
| DomainRules.VisitTargetIsMatched | options.js:366-390 | the host that visiting opens is itself matched by the pattern |
| DomainRules.ArrayEntries | options.js:529 | an imported array kept as `privateDomains`, as the object whose keys are its decimal indices; characterised by ArrayEntriesHoldItems, ArrayEntriesCount and ArrayEntriesOnlyIndices |
| DomainRules.ArrayEntriesHoldItems | options.js:529 | an imported array used as `privateDomains` maps each decimal index to its item |
| DomainRules.ArrayEntriesCount | options.js:529 | such an array yields exactly as many keys as it has items |
| DomainRules.ArrayEntriesOnlyIndices | options.js:529 | such an array yields no key other than its decimal indices |
| DomainRules.DomainsOrEmpty | options.js:529 | `privateDomains || {}`: null becomes the empty map, an object is kept, an array becomes its index entries |
| DomainRules.CheckImportedConfig | options.js:498-530 | accepted exactly when the value is an object holding both `isUnlocked` and `privateDomains`, with `privateDomains` of type object; a non-object is its own error; the result has `isUnlocked` equal to the truthiness of the imported value, and the domains normalised |
| DomainRules.ImportConfigText | options.js:486-508 | blank text and unparsable text are refused with their own errors; otherwise the result, success or error, is exactly the structural check of the parsed value |
| DomainRules.ConfigToJson | options.js:465 | the exported object has exactly the two fields `isUnlocked` and `privateDomains` |
| DomainRules.ExportThenImport | options.js:496-530 | importing an exported configuration gives back the same configuration |
| DomainRules.UnlockedByTruthiness | options.js:527-530 | `Boolean(...)` normalisation: the string `"false"` unlocks, `0` does not, and a null domain map becomes empty |
| OptionsPage.ShownKeepsDistinct | options.js:152 | filtering a list of distinct keys leaves them distinct |
| OptionsPage.Page.constructor | options.js:16-23 | the page starts with the default configuration and no clicks counted |
| OptionsPage.Page.LoadConfig | options.js:81-96 | the configuration becomes the stored one or the default if none is stored; a failed read keeps the current one |
| OptionsPage.Page.SaveConfig | options.js:101-121 | a successful write records the current configuration; the result says whether the write succeeded |
| OptionsPage.Page.GetVisibleDomains | options.js:144-154 | each visible domain is listed exactly once: all keys when unlocked, the keys valued `true` when locked |
| OptionsPage.Page.AddDomain | options.js:211-254 | blank input is reported as no input, exactly; a non-blank invalid input is reported with the validator's error; a valid domain already present, and only that, is reported as a duplicate; these leave the configuration alone; otherwise the trimmed domain is added with value `true`, every other entry unchanged, and it is saved |
| OptionsPage.Page.InsertDomain | options.js:237-240 | the domain is set to `true`, all else is kept, and the result is saved |
| OptionsPage.Page.DeleteDomain | options.js:259-280 | once confirmed, exactly that key is removed and the result saved; otherwise nothing changes |
| OptionsPage.Page.ToggleDomainHidden | options.js:339-361 | that domain's hidden state flips, every other entry is unchanged, and the result is saved |
| OptionsPage.Page.ToggleUnlockState | options.js:310-334 | `isUnlocked` is negated, the domains are untouched, and the result is saved |
| OptionsPage.Page.HandleVersionClick | options.js:285-305 | a third click toggles the unlocked mode and resets the count; an earlier click counts and re-arms the reset 2000 ms ahead; the count stays below three |
| OptionsPage.Page.Tick | options.js:300-303 | once the reset timer is due, the count returns to zero; otherwise nothing changes |
| OptionsPage.Page.SaveConfigFile | options.js:486-557 | an invalid import changes nothing and reports its error; a declined confirmation changes nothing; a confirmed import replaces the configuration with the normalised one and saves it |
| OptionsPage.ThreeClicks | options.js:285-305 | three quick clicks toggle the unlocked mode and leave the counter at zero |
| OptionsPage.ClicksWithPause | options.js:285-305 | two clicks, a 2000 ms pause, then a third click leave the mode unchanged and the count at one: the pause resets the count |
| OptionsPage.ToggleTwiceRestores | options.js:339-361 | toggling a domain's hidden flag twice restores the configuration |

## Left out

- DOM work is not modelled, because it is presentation only. This covers element lookups, rendering the list (`displayDomains`), `updateUnlockedUI`, toasts, the modal, `escapeHtml` and keyboard and click wiring.
- `confirm` dialogs are not modelled; the user's answer is the parameter `confirmed`.
- popup.js is not part of this model. It only displays status and sends one message.
- The browser's storage API is a parameter. A read is a `LoadResult`; a write succeeds or fails as `storageOk` says.
- The `updateConfig` notification that `saveConfig` sends after a write is not modelled separately. It is folded into the `saved` log.
- History removal is recorded as issued. Its success or failure is not observed, because the code swallows it.
- `chrome.tabs.create` is not modelled; only the URL to open is computed.
- Listener registration is not modelled.
- The WHATWG URL parser is the parameter `parseHost`. Its lower-casing, punycode and percent-decoding of hostnames are not modelled.
- `JSON.parse` is the parameter `parseJson`, and `JSON.stringify` is modelled only at the level of values. Text formatting and the classification of error messages into toasts are left out.
- IsUrlMatched: a glob whose regular expression does not compile is not modelled. In the code, `new RegExp` throws for such a pattern (for example `a(*`, possible only through a JSON import, since the validator admits only letters, digits, `-`, `.` and `*`; see AcceptedDomainShape). The throw leaves `patterns.some`, and the catch at service_worker.js:91-94 returns false for the whole list. So in the code the answer can depend on pattern order, and adding such a pattern can turn a match into a non-match. The model treats every glob as compiling, and IsUrlMatchedDependsOnlyOnPatternSet and IsUrlMatchedMonotone hold for the code only when no pattern has this defect.
- The regular-expression engine is not modelled. In the glob rule, characters other than `.` and `*` are taken literally, although the code would pass them to the regular expression as written. This matters only for patterns imported through JSON, since validated patterns hold only letters, digits, `-`, `.` and `*`. Case-insensitive comparison folds ASCII letters only.
- Real timers, `async`/`await` interleaving and the worker's lifecycle are not modelled. Time is a logical clock moved by `AdvanceClock` and `Tick`. Scheduled removals cannot be cancelled; `clearTimeout` in the click counter is modelled by re-arming the single reset time.
- Malformed configurations from storage or messages are not modelled. The model's configuration always has a `privateDomains` map; the code would throw on `Object.keys(undefined)`.
- The order of `Object.keys` is left unspecified. The enumeration is any order without repeats, and matching and visibility are proved independent of it.
- An imported array as `privateDomains` is modelled as a map from its decimal indices, the keys `Object.keys` would enumerate. Later writes treat it as such a map.
- Property names with special meaning in JavaScript objects, such as `__proto__`, are treated as ordinary keys.
- `console` logging is not modelled.
