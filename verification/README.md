# vulcain-loadbalancer core, modelled in Dafny

The load balancer keeps one *ingress definition*. This is a record of top-level settings (`tlsEmail`, `defaultTenantPattern`, `wildcardDomains`) and an ordered list of routing rules keyed by `id`. Definitions arrive as JSON objects. The server validates each rule and merges the incoming object into the definition it holds. A removal request cuts rules out of the list.

Separately, a template turns a cluster description into an HAProxy configuration text. A proxy manager decides:

- when HAProxy is (re)started and with which command line;
- which Let's Encrypt certificates are revoked;
- which certificates are requested.

The model has five modules:

- `Common`: options and results, plus the string primitives the code relies on:
  - `startsWith` and `endsWith`;
  - ASCII `toLowerCase`;
  - `Array.join` and splitting;
  - decimal rendering.
- `Ingress`: the JSON shape of rules and definitions. Every property is `Absent`, `Null` or a `Value`, because the object spread `{...old, ...incoming}` copies a `null` but not a missing property. It also holds the spread itself and the enumeration order of `Object.keys`.
- `Server`: `validateRule`, `validateWildcardDomains` and the body of `initializeProxyFromConfiguration`. The held definition is an explicit `Option<Definition>`. A thrown error becomes the `failure` of a `Step`, next to the state the server is left in.
- `Template`: `transform`, `emitFront`, `emitTestFront` and `emitBackends`, as a pure function from a `ClusterDefinition` and the test-mode flag to the configuration text.
- `ProxyManager`: four decisions.
  - The `restart` debounce is an event machine over `RestartRequested` / `TimerFired`.
  - The HAProxy argument string is built from a directory listing, or from `None` when the folder cannot be read.
  - The first-start and soft-restart commands.
  - `purge` orphan selection and the `createCertificate` existence check are pure functions over given listings and sets.

Behaviour of the code worth knowing:

- A removal `list.splice(oldIndex)` drops the matched rule and every rule after it (`Server.RemovalDropsTheTail`).
- An error during a merge does not undo the rules already applied in place (`Server.FailedMergeKeepsEarlierRules`).
- The normalised `wildcardDomains` of a removal request is still installed (src/server.ts:168-170 runs before the key loop).
- A non-removal merge copies the raw incoming `wildcardDomains` over the normalised list.
- Validation reads and defaults `hostname`, while the record type declares `hostName`.
- The configuration text is never empty: its first line is always the frontend line, so the branch of `transform` that deletes the file is unreachable.

## Model

| member | source | states |
|---|---|---|
| Common.Lower | src/server.ts:145 | lower-casing keeps the length, maps each character on its own and leaves no upper-case letter |
| Common.LowerIdempotent | src/server.ts:145 | lower-casing twice is lower-casing once |
| Common.LowerKeepsWildcardPrefix | src/server.ts:120-145 | lower-casing neither creates nor removes a leading `*.` |
| Common.SplitJoin | src/template.ts:60-61 | splitting a newline-joined text gives back its lines when no line holds a newline |
| Common.JoinAppend | src/template.ts:60-61 | joining two non-empty blocks is joining each with one separator between them |
| Common.ParseNatToString | src/template.ts:149 | the decimal rendering of a port reads back as the same number |
| Ingress.Overlay | src/server.ts:188 | in `{...old, ...incoming}` every property present in the incoming rule wins, even as `null`, and every missing one is kept from the old rule |
| Ingress.OverlayIdempotent | src/server.ts:188-190 | spreading the same incoming rule a second time changes nothing |
| Ingress.CopyKey | src/server.ts:205 | `target[key] = value` sets that property and leaves every other property alone |
| Server.WildcardIndex | src/server.ts:140 | `findIndex` finds an entry whose `"." + wd` ends the domain exactly when one exists |
| Server.ValidateRule | src/server.ts:113-146 | a missing id fails first, for removals too; a removal is otherwise accepted unchanged; other rules fail in source order (wildcard TLS domain, missing e-mail, no hostname or path after defaulting, no service name); success iff no check fails; an accepted rule has its hostname defaulted, its TLS domain cleared under a wildcard or else lower-cased, its id kept |
| Server.WildcardTestIsCaseSensitive | src/server.ts:139-145 | the wildcard suffix test sees the domain before lower-casing, so re-validating an accepted rule can then clear its TLS domain |
| Server.NormalizeWildcard | src/server.ts:149 | an entry comes out lower-case, and its lower-cased original is the result with any stripped `*.` put back |
| Server.NormalizeStripsOnce | src/server.ts:149 | only one leading `*.` is stripped |
| Server.NormalizeWildcards | src/server.ts:148-150 | missing or null wildcards give nothing; otherwise every entry is normalised, in order |
| Server.IndexOfId | src/server.ts:181 | the index of the first rule carrying the id, none exactly when no rule carries it |
| Server.ApplyRule | src/server.ts:181-196 | a new id is appended; a known id replaces its first entry by `{...entry, ...rule}`, every other entry unchanged; distinct ids stay distinct; a removal keeps exactly the entries before the first match, and leaves the list unchanged when no entry matches |
| Server.RepeatedAddIsUpdate | src/server.ts:181-191 | adding the same rule twice equals adding it once |
| Server.MergeRules | src/server.ts:177-197 | a rule without id stops the loop; distinct ids are kept; a completed update holds every incoming id and loses no earlier id; a removal only cuts the list and leaves no incoming id |
| Server.ValidateAll | src/server.ts:160 | a first definition is accepted iff each rule validates on its own against it, with rules kept in order and duplicates kept; a rejection carries the error of the first rule that fails |
| Server.MergeRulesCompletes | src/server.ts:177-197 | the rules loop completes exactly when every incoming rule validates, so removing an id no rule carries is no error |
| Server.MergeRulesFailsAtFirstError | src/server.ts:177-180 | a failed rules loop carries the error of the first rule that does not validate, every rule before it having validated |
| Server.MergeKeys | src/server.ts:173-206 | keys not enumerated are untouched; a removal touches only the rules; a completed update copies every other listed key verbatim; ids stay distinct; an update loses no rule |
| Server.Apply | src/server.ts:152-207 | a removal with no definition does nothing; a first definition is adopted, with normalised wildcards and every rule validated, exactly when each of its rules validates, and otherwise fails with the first failing rule's error and leaves none; an existing definition is never lost; a removal keeps the e-mail and pattern and installs the normalised wildcards; an update copies listed keys verbatim |
| Server.RuleWithoutIdIsRejected | src/server.ts:114-115 | a rule without id makes the whole call fail, except a removal that arrives before any definition exists |
| Server.MergeKeepsIdsDistinct | src/server.ts:173-206 | a merge never creates two rules with one id |
| Server.UpdateHoldsEveryRule | src/server.ts:177-192 | a completed update holds every incoming rule and every earlier rule |
| Server.ReapplyingAnUpdateChangesNothing | src/server.ts:181-191 | re-sending a successful one-rule update leaves the definition as it is |
| Server.RemovingAnUnknownIdChangesNothing | src/server.ts:176-198 | removing an id no rule carries succeeds and keeps the definition as it was, an absent or `null` list becoming an empty one |
| Server.RemovalDropsTheTail | src/server.ts:193-196 | removing a present rule keeps only the rules before it; with distinct ids no later rule remains |
| Server.UpdateKeepsUnsentProperties | src/server.ts:186-190 | a one-rule update of a known id follows `{...stored, ...incoming}` for `path`, `pathRewrite`, `serviceName`, `servicePort` and `tenant`: a property the rule does not send keeps its stored value (a missing `path` keeps the stored path), and one it sends replaces it |
| Server.MergeRulesAppend | src/server.ts:177-197 | the rules loop over a batch is the loop over its first part followed, unless that failed, by the loop over the rest |
| Server.MergeKeysPrefix | src/server.ts:173-206 | properties enumerated before `rules` never fail, and the merge carries on from what they leave |
| Server.MergeStopsAtFailingRule | src/server.ts:173-206 | the key loop stops at the first failing rule with its error, keeping what the earlier keys left and, when a rules list existed, the rules applied before it |
| Server.FailedMergeKeepsEarlierRules | src/server.ts:168-224 | when rule `j` of any batch is the first to fail, the call fails with its error and keeps the installed wildcards, every property copied before `rules` and, when the definition had a rules list, every rule applied before `j`; a definition without a rules list keeps none of them |
| Server.FailedPairKeepsFirstRule | src/server.ts:176-224 | a valid rule followed by one without id: the call fails with the missing-id error, and the first rule stays applied exactly when a rules list existed |
| Server.KeyOrderMatters | src/server.ts:173-205 | an e-mail enumerated before the rules lets a TLS rule pass; one enumerated after them does not |
| ProxyManager.Step | src/proxyManager.ts:33-43 | a request arms the timer only when none is pending; the timer firing runs exactly one soft restart and re-enables the next request |
| ProxyManager.RequestsWhilePendingAreIgnored | src/proxyManager.ts:36 | requests while a reload is pending change nothing |
| ProxyManager.BurstCoalesces | src/proxyManager.ts:33-43 | any burst of requests before the timer fires yields exactly one soft restart and leaves the debounce idle |
| ProxyManager.RestartsAreBounded | src/proxyManager.ts:33-43 | soft restarts never outnumber timer firings, nor the requests that armed them |
| ProxyManager.ConfigFiles | src/proxyManager.ts:53-58 | a listed file is passed exactly when it does not end in `.default` |
| ProxyManager.ConfigFilesAppend | src/proxyManager.ts:53-58 | files are passed in listing order |
| ProxyManager.ArgumentList | src/proxyManager.ts:49-58 | the default file for the mode comes first, then one `-f /var/haproxy/<file>` per passed file, in order |
| ProxyManager.ConfigFileArguments | src/proxyManager.ts:48-64 | an unreadable folder gives `undefined`; a readable one gives the arguments joined by single spaces, starting with the default file |
| ProxyManager.DefaultOnlyVersusUnreadable | src/proxyManager.ts:48-64 | a folder of `.default` files gives the default argument alone, unlike an unreadable folder |
| ProxyManager.StartCommand | src/proxyManager.ts:69-86 | the first start is exactly `haproxy <args> -p /var/run/haproxy.pid`; a later one is that followed by ` -sf $(cat /var/run/haproxy.pid)` |
| ProxyManager.SoftRestartExtendsFirstStart | src/proxyManager.ts:76-85 | a later start is the first-start command followed by ` -sf $(cat /var/run/haproxy.pid)` |
| ProxyManager.LowerAll | src/proxyManager.ts:119 | the lower-cased tenant domains are exactly the lower-cased forms of the domains |
| ProxyManager.Orphans | src/proxyManager.ts:120-127 | a folder is revoked exactly when its lower-cased name matches no lower-cased tenant domain (an empty name is never found) |
| ProxyManager.OrphansAppend | src/proxyManager.ts:122-127 | orphans keep listing order: the orphans of two listings are those of the first, then those of the second |
| ProxyManager.OrphanOfOne | src/proxyManager.ts:122-127 | a single folder is an orphan exactly when its name is empty or matches no tenant domain |
| ProxyManager.Purge | src/proxyManager.ts:108-130 | a missing or unreadable folder revokes nothing; otherwise one revoke command per orphan, in listing order |
| ProxyManager.PurgeSparesCurrentDomains | src/proxyManager.ts:120-127 | folders named after the tenant domains, in any letter case, are never revoked |
| ProxyManager.EmailOrFallback | src/proxyManager.ts:137 | the given address when it is non-empty, and `ametge@sovinty.com` otherwise; never empty |
| ProxyManager.CreateCertificate | src/proxyManager.ts:132-152 | issuance runs exactly when the domain's folder is absent, for that domain, with the given address when non-empty and `ametge@sovinty.com` otherwise |
| Template.RemoveDots | src/template.ts:97 | the ACL label has no dot and keeps every other character of the domain |
| Template.RemoveDotsAppend | src/template.ts:97 | characters other than dots keep their order |
| Template.RemoveDotsOfDotFree | src/template.ts:97 | a domain without dots is its own label |
| Template.TenantLines | src/template.ts:94-116 | two lines per present tenant in normal mode and three in test mode; missing tenants emit nothing |
| Template.TenantLinesAppend | src/template.ts:94-116 | tenants are emitted in order, each on its own |
| Template.CrtListAppend | src/template.ts:79-87 | the bind line's certificate entries follow the tenant order |
| Template.PublicPath | src/template.ts:124-127 | a path starting with `/` loses exactly that one character; any other path is kept as it is |
| Template.PortRoundTrip | src/template.ts:149 | the server line's port reads back as the service port, or 8080 when it is missing or zero |
| Template.Transform | src/template.ts:41-75 | the text is never empty and begins with `frontend <cluster>` |
| Template.TransformIsLines | src/template.ts:45-61 | the text is the frontend lines and then the backend blocks, joined by newlines |
| Template.LinesRoundTrip | src/template.ts:41-61 | splitting the text at newlines gives back exactly the emitted lines, given single-line inputs |
| Template.BlockHasOneHeader | src/template.ts:137-149 | a backend block has one `backend` header, naming `backend_<cluster>_<service>` |
| Template.OneBackendPerService | src/template.ts:56-58 | one backend block per service, in service order, without merging repeated services |
| Template.RouteHasOneTarget | src/template.ts:124-135 | the routing lines of a service send to its own backend, exactly once |
| Template.OneRoutePerService | src/template.ts:56-58 | the `use_backend` rules name the services' backends one by one, in service order |
| Template.RootPathRoutesWithoutRewrite | src/template.ts:124-147 | a path of `/` still gets the path ACL, built on the empty public path, but no rewrite line: the server line follows the head directly |
| Template.FrontHeader | src/template.ts:77-118 | the frontend opens with `bind *:80` in test mode or `bind *:443 ssl` and the certificate list otherwise, then `mode http`, then the tenant lines |
| Template.RouteLines | src/template.ts:124-135 | a service with a path gets its `path_reg` ACL on the public path and a conditional `use_backend`; one without gets a bare `use_backend` |
| Template.BackendBlock | src/template.ts:137-149 | a backend block is the six-line head naming `backend_<cluster>_<service>`, then the rewrite line on the public path exactly when that path is non-empty, then the server line |
| Template.CertificateRequests | src/template.ts:79-85 | issuances are requested for exactly the tenant domains without a folder, once per domain, each with the cluster address or the fallback |

## Left out

- src/host.ts: shell, certbot and filesystem wrappers, and the engine factory. These are external processes.
- The Express routes, HTTP status mapping, bootstrap loading, `showInfos` and the Kubernetes watcher (src/server.ts:25-111, 228-296). These are network and I/O.
- The hand-off at src/server.ts:209-216 to the template and the certificate purge. Its calls do not match the signatures of template.ts and proxyManager.ts. `Server.Apply` treats it as not throwing.
- `Server.Apply`: an incoming definition that is `null` or `undefined` is not modelled. Only object-shaped definitions are.
- `Server.Apply`: top-level properties other than the four known keys are not modelled.
- `Server.Apply`: values of an unexpected JSON type (a rules property that is a string, say) are not modelled. Only a missing or `null` list is modelled, as the `NotAList` error.
- `Ingress.Rule`: ports are unbounded integers and other JSON types are not modelled.
- `Ingress.Rule`: a rule holds the eight properties validation and the template read. Any other property of an incoming JSON rule is not modelled, including the `hostName` spelling of src/model.ts:23. The `push` and the spread (src/server.ts:185, 188) would carry such a property along.
- `Common.Lower`: lower-cases ASCII letters only, not the full Unicode case mapping of `toLowerCase`.
- `Template.Transform`: writing or deleting `/var/haproxy/<cluster>.cfg` and the `restart()` call at the end are effects and are left out.
- `Template.Service`: a port is a natural number. A string port and a negative port are not modelled.
- `Template.CertificateRequests`: models only which issuances are started. It assumes a successful issuance creates the domain's folder, so later tenants see it. A failed issuance, which rejects and aborts `emitFront`, is not modelled.
- `ProxyManager.Step`: the 2-second delay of `setTimeout` is not modelled. Timers are events.
- `ProxyManager.StartCommand`: running the command (`processCommand`, `exec`) and its success or failure are not modelled.
- `ProxyManager.ConfigFiles`: `path.join` normalisation of odd file names (containing `..` or `/`) is not modelled. The name is appended after `/var/haproxy/`.
- `ProxyManager.Purge`: the revoke commands are produced, not run. The existence check and directory read are inputs.
- All `util.log` output.
