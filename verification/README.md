# node-heello dispatcher, modelled in Dafny

`lib/heello.js` is a small REST client for the Heello API. Each endpoint table entry (controller →
action → `{method, url, needsAuth, reqQueryParams, mediaParams}`) becomes a `heelloAction` whenever
`api.<controller>.<action>` is read. The action's `send` runs two local checks: credentials first,
then missing parameters. `heelloApi.prototype.request` classifies the HTTP response status. This
project models those three pieces as pure functions over strings and sequences and proves what they
do, quirks included.

- `Placeholders` (placeholders.dfy): the `/:([a-z0-9]+)/ig` exec loop over the formatted URL. It is
  proved equal to a position-by-position reference: one capture per ':' followed by a word
  character, in order, with duplicates kept.
- `Actions` (actions.dfy): the `heelloAction` constructor and the getters, with the endpoint table
  as a value. `this.queryParams` aliases the table's own `reqQueryParams` array, and the constructor
  pushes `access_token` into it. So the builder also returns the updated table entry, and each
  read of an auth-requiring entry adds one more `access_token` to the table.
- `Send` (send.dfy): the checks in `send`. The working copy is a `seq<Option<string>>`. JavaScript's
  `delete` leaves a hole (`None`) and the length never shrinks, so as written every action with a
  required parameter is rejected. `ValidateCorrected` is the evidently intended check (see Findings).
- `Response` (response.dfy): the status classification in the `req.end` callback.
- `Wrappers` (wrappers.dfy): `Option`.

Inputs the source gets from outside are parameters. These are the endpoint table (`schema.json` is
not part of this model), the value of `api.creds`, the `params` argument and the reply passed to
`req.end`. The EventEmitter's notifications are output tags (`Notification`).

Facts about the code that the model keeps:
- Duplicate placeholders are kept, not rejected.
- `params` is an array of names: `send` calls `params.forEach` and compares each element with the
  required names. A value with no `forEach` (a plain object, a function, `undefined`) raises a
  TypeError in the `try`.
- An auth-requiring action only adds `access_token` to its required names. No token is attached.
- The constructor never assigns `api.creds`, so it is `undefined`. The test `creds === null` never
  fires on such an api (`Send.FreshApiPassesCredsCheck`).
- Every failure in `send` goes to `fn(err)` in the `catch`. When `fn` is not callable, that call
  itself throws a TypeError out of `send` (`Escaped`). This is the case for `send(cb)` with `params`
  omitted, where the callback lands in `params` and `fn` is `undefined`.
- When both checks pass, `send` ends without calling the callback (`Silent`). No request is made.
- Inside the `req.end` callback, the transport error is re-thrown at lib/heello.js:50, and the limit,
  authorization and upstream errors are thrown at lines 56, 60 and 62. All of these are thrown
  inside the asynchronous callback, outside the `try` block, so they do not reach `fn`. The model
  marks them `Raised`, separate from `Delivered`.

## Model

| member | source | states |
|---|---|---|
| Placeholders.RunEnd | lib/heello.js:99 | the greedy `[a-z0-9]+` (case-insensitive) run from a position: every character before the end is a word character, and the end is the string's end or a non-word character |
| Placeholders.NameAt | lib/heello.js:99-101 | the capture at a match is the URL's own text right after the ':', a non-empty run of word characters, and the run is maximal |
| Placeholders.Exec | lib/heello.js:99-100 | one `re.exec` from `lastIndex`: the first ':'-then-word position at or after it, or none when there is no such position after it |
| Placeholders.ScanFrom | lib/heello.js:100-101 | the exec loop from a search position: at most one capture per remaining character, and every capture is a non-empty run of word characters |
| Placeholders.UrlParams | lib/heello.js:98-101 | `urlParams` has one entry per ':' followed by a word character in the URL, and entry j is the maximal run after the j-th such ':', so order is left to right and duplicates are kept |
| Placeholders.StartsFrom | lib/heello.js:99 | the reference list of match positions: every entry is a ':' followed by a word character, and every such position is listed |
| Placeholders.StartsIncreasing | lib/heello.js:99-100 | the reference positions are strictly increasing, which is left-to-right order |
| Placeholders.ScanFromIsNamesAtStarts | lib/heello.js:98-101 | the exec loop, which resumes after each match, captures exactly the names at the reference positions: a ':' never sits inside a run, so skipping a run loses no match |
| Placeholders.DuplicatePlaceholdersKept | lib/heello.js:98-101 | a URL with `:id` twice yields `["id", "id"]`, so duplicates are not rejected |
| Actions.Describe | lib/heello.js:86-111 | the action keeps the controller and action names it was built under, and the entry's mediaParams unchanged. Defaults: GET when the method is absent or empty; `/` when the url is absent or empty, else `/<controller>/<url>.json`; needsAuth false unless set. urlParams are the captures of the exec loop over that url (Placeholders.UrlParams). `access_token` is appended last when needsAuth, otherwise queryParams is the entry's list or empty. reqParams = urlParams ++ queryParams |
| Actions.BuildAction | lib/heello.js:86-111 | the constructor's result is the action Describe gives. The table entry changes only in the aliased list, which becomes the action's queryParams, and only when that list exists |
| Actions.Access | lib/heello.js:78-83 | reading `api[c][a]` exists iff both names are in the table. It builds the action from the current entry, updates that entry as the builder left it, and leaves every other controller and action unchanged |
| Actions.AccessAppendsOnce | lib/heello.js:103-108 | one read of an auth-requiring entry with declared list q builds an action whose queryParams is q then `access_token`, and leaves q then `access_token` in the table |
| Actions.RepeatedAccessAccumulates | lib/heello.js:103-108 | for an auth-requiring entry with a declared list q, after n reads the table holds q followed by n `access_token`s, and read n+1 builds an action whose queryParams is q followed by n+1 of them |
| Actions.AccessStableWithoutAlias | lib/heello.js:103-108 | when no auth is needed or no list is declared, a read leaves the table unchanged |
| Actions.StableTimes | lib/heello.js:103-108 | when no auth is needed or no list is declared, any number of reads leave the table unchanged |
| Actions.DuplicateUrlParamsRequiredTwice | lib/heello.js:98-110 | an entry with url `:id/:id` and nothing else gets the required list `["id", "id"]` |
| Actions.OrDefault | lib/heello.js:93 | the method default: the fallback when the value is absent or the empty string, the value itself otherwise |
| Actions.FormatUrl | lib/heello.js:94 | `/` when the url is absent or the empty string, otherwise `/<controller>/<url>.json` |
| Actions.AccessTimes | lib/heello.js:78-83 | repeated reads keep the table's controllers and each controller's actions, and change nothing outside the one entry being read |
| Send.Copy | lib/heello.js:114 | the working copy has the same length as the required list, with every slot filled with the same name |
| Send.IndexOf | lib/heello.js:122 | `indexOf` on the holey copy: the first slot holding the name, where holes never match, or -1 when no slot holds it |
| Send.DeleteFirst | lib/heello.js:122-123 | `delete` at the `indexOf` slot: length kept, that slot becomes a hole, every other slot is unchanged, and nothing changes when the name is absent. Exactly one occurrence leaves the names still present |
| Send.Strike | lib/heello.js:121-124 | after the `forEach`: length unchanged, every slot is its original name or a hole, and the names still present are the required multiset minus the supplied multiset. Because `indexOf` finds the first remaining match, a present slot becomes a hole exactly when it is among the first m occurrences of its name still present, where m is how often that name was supplied |
| Send.Remaining | lib/heello.js:114-124 | the slice copy after the `forEach`: same length as the required list, each slot is the required name at that position or a hole, the names still present are the required multiset minus the supplied multiset, and slot k is a hole exactly when its name's occurrence among the first k+1 required names is within the number of times that name was supplied |
| Send.Validate | lib/heello.js:114-126 | null creds give the auth error naming controller and action, before any parameter check. A non-array `params` gives the TypeError. Otherwise there is an error iff the required list is non-empty, whatever is supplied, and then it is the missing-parameter error. That error keeps the full length, each slot is the required name at that position or a hole, and it holds the required names not supplied. Slot k is a hole exactly when its name's occurrence among the first k+1 required names is within the number of times that name was supplied |
| Send.Check | lib/heello.js:113-133 | `send`: silent iff creds are not null, `params` is an array and nothing is required. Otherwise the validation error goes to a callable `fn`, or escapes from `send` when `fn` is not callable. The credentials error comes first |
| Send.Route | lib/heello.js:130-132 | the `catch`: no error means no callback. An error is reported to a callable `fn`, and escapes when `fn` is not callable |
| Send.ParamsOmittedThrows | lib/heello.js:113-132 | called as `send(cb)`, the call always throws out of `send` and never reaches the callback |
| Send.AuthActionsAlwaysRejected | lib/heello.js:107-126 | as written, every call to an auth-requiring action that passes the credentials check gets the missing-parameter error |
| Send.SuppliedParamStillMissing | lib/heello.js:121-126 | with required list `["id"]` and `["id"]` supplied, the call is still rejected, and the error's list is a single hole |
| Send.FreshApiPassesCredsCheck | lib/heello.js:117-118 | an api whose `creds` was never assigned (`undefined`) behaves exactly like one holding a token |
| Send.Outstanding | lib/heello.js:120-126 | the required names that were not supplied: a name is listed iff it is required and not supplied |
| Send.ValidateCorrected | lib/heello.js:120-126 | the intended check: the credentials and TypeError cases are as written. Otherwise there is an error iff some required name was not supplied. Then it is the missing-parameter error, it has no holes, and it lists exactly the outstanding names in order |
| Send.CorrectedAcceptsSuppliedParams | lib/heello.js:121-126 | supplying every required name passes the intended check. As written it passes only when nothing is required |
| Send.Message | lib/heello.js:117-126 | the two formatted errors read `api call <controller>/<action>`, followed by ` requires auth, none provided` for missing credentials, or by ` missing required parameter(s) `, the joined list and ` auth, none provided` for missing parameters. The TypeError has no text here |
| Send.Join | lib/heello.js:126 | `join(', ')`: empty for no slots; otherwise its length is the slots' texts plus 2 per separator. Slot k's text (empty for a hole) sits at offset Offset(xs, k), which is the texts of the slots before it plus 2 per earlier slot. Between every slot and the next sits `, ` |
| Send.Present | lib/heello.js:125-126 | the names still in the list: no more than the slots, and a name is present iff some slot holds it |
| Send.JoinOfHolesNamesNothing | lib/heello.js:126 | joining n holes gives 2(n-1) characters, all from `, `, so the as-written error names no parameter |
| Response.Classify | lib/heello.js:49-66 | a transport error is re-thrown (line 50). A 2xx status is delivered to `fn` with no notification. A non-2xx 429 or 503 gives `apiLimit` and the limit error. 401 gives `apiAuthError` and the authorization error. Any other status throws `res.error` with no notification. Each case holds iff its condition holds |
| Response.NoticeIffSevere | lib/heello.js:51-63 | a notification is emitted iff a non-2xx status is 429, 503 or 401 |

## Findings

| source | as written | input that shows it | evidently intended | confidence | as-written member | corrected member |
|---|---|---|---|---|---|---|
| lib/heello.js:121-126 | `delete reqParams[i]` leaves a hole, and the check is `reqParams.length > 0`, so the length never drops | an action requiring `["id"]`, called with `["id"]`: rejected with the list `""` | reject only when some required name was not supplied, and list those names | high (not executed) | Send.SuppliedParamStillMissing | Send.ValidateCorrected |

## Left out

- HTTP transport (lib/heello.js:35-49): building the superagent request, headers, the 15 s
  timeout and `req.end`. This is I/O through a library outside the model. `Response.Classify` takes
  the reply as input.
- Query/form routing (lib/heello.js:40-47): the code reads an undeclared `method`. The resulting
  ReferenceError is caught at lines 68-70 and passed to `fn`, before `req.end` is reached. So in the
  code as written `request` always fails before any network call, and the classification never
  runs. `Classify` models the callback as it would run. No intended routing rule is modelled.
- EventEmitter wiring and `__defineGetter__` (lib/heello.js:14-26, 78-83): the getters are the map
  lookup `Actions.Access`. Emitted events are the `Notification` tags. A name that is not in the
  table gives no action. For an unknown controller the read raises a TypeError. Otherwise it gives
  `undefined` or some other property of the object: `api` and `controllerName` (lines 76-77),
  `appId`, `request`, `auth`, the EventEmitter methods, or inherited methods. `Access` returns
  `None` for all of these.
- `auth` (lib/heello.js:28-30): it has an empty body.
- Token exchange, refresh and retry on expiry, certificate pinning and rate-limit header parsing:
  the code does not implement them.
- Config validation and defaults: the constructor takes `appId`/`appSecret` positionally and checks
  nothing.
- `mediaParams` is copied onto the action unchanged. No code reads it.
- Actions.BuildAction: the action's `queryParams` is a snapshot at construction. In JavaScript it
  stays aliased to the table array, so later reads also grow an older action's `queryParams`. No code
  reads `queryParams` after construction, and `reqParams` is a copy taken at construction.
- An object passed as `params` that has its own `forEach` method is not modelled; `Params` is an
  array of names or a value without `forEach`.
- Response.Classify assumes superagent's `err` means a transport failure only, so non-2xx statuses
  reach the status branches. From superagent 1.0 on, a 4xx/5xx reply also sets `err`. Line 50 would
  then re-throw it before any status branch, and the 429/503 and 401 events would never fire. The
  superagent version is not part of this model.
- `needsAuth`, `method` and `url` are modelled as a boolean and strings. Other JavaScript values
  (numbers, objects) under those keys are not represented.
