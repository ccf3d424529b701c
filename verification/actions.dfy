/** Action descriptors: the `heelloAction` constructor (lib/heello.js:86-111) and the getters that build
    one on every property read (lib/heello.js:14-19, 78-83), with the endpoint table as a value. */
module Actions {
  import opened Wrappers
  import opened Placeholders

  /** One entry of the endpoint table. An absent key is None; for `method` and `url` the empty
      string is falsy in JavaScript and behaves as absent. */
  datatype SchemaEntry = SchemaEntry(
    verb: Option<string>,
    url: Option<string>,
    needsAuth: Option<bool>,
    reqQueryParams: Option<seq<string>>,
    mediaParams: Option<seq<string>>)

  /** The fields a `heelloAction` carries once constructed. */
  datatype Action = Action(
    controllerName: string,
    actionName: string,
    verb: string,
    url: string,
    needsAuth: bool,
    urlParams: seq<string>,
    queryParams: seq<string>,
    mediaParams: Option<seq<string>>,
    reqParams: seq<string>)

  /** The new action, and the table entry as the constructor leaves it: `this.queryParams` aliases the
      entry's own `reqQueryParams` array, so the `push` of `access_token` lands in the table. */
  datatype Built = Built(action: Action, entry: SchemaEntry)

  /** Controller name -> action name -> entry, as read from the endpoint table. */
  type Registry = map<string, map<string, SchemaEntry>>

  datatype Accessed = Accessed(action: Action, registry: Registry)

  const AccessToken: string := "access_token"
  const DefaultMethod: string := "GET"

  /** `details.x || fallback` for a string-valued key. */
  function OrDefault(x: Option<string>, fallback: string): (r: string)
    ensures x.None? || x == Some("") ==> r == fallback
    ensures x.Some? && x.value != "" ==> r == x.value
  {
    if x.Some? && x.value != "" then x.value else fallback
  }

  /** `util.format('/%s/%s.json', controller, details.url)`, or '/' when the url is falsy. */
  function FormatUrl(controller: string, url: Option<string>): (r: string)
    ensures url.None? || url == Some("") ==> r == "/"
    ensures url.Some? && url.value != "" ==> r == "/" + controller + "/" + url.value + ".json"
  {
    if url.Some? && url.value != "" then "/" + controller + "/" + url.value + ".json" else "/"
  }

  /** The fields the `heelloAction` constructor sets on the new action. */
  function Describe(controller: string, action: string, d: SchemaEntry): (a: Action)
    // the names it was built under, and the media list passed through untouched
    ensures a.controllerName == controller && a.actionName == action
    ensures a.mediaParams == d.mediaParams
    // defaults
    ensures d.verb.None? || d.verb == Some("") ==> a.verb == DefaultMethod
    ensures d.verb.Some? && d.verb.value != "" ==> a.verb == d.verb.value
    ensures d.url.None? || d.url == Some("") ==> a.url == "/"
    ensures d.url.Some? && d.url.value != "" ==> a.url == "/" + controller + "/" + d.url.value + ".json"
    ensures a.needsAuth == (d.needsAuth == Some(true))
    // placeholders: the exec loop's captures, one per ':' followed by a word character, in order
    // (UrlParams' contract names them)
    ensures a.urlParams == UrlParams(a.url)
    // access_token is appended exactly when auth is needed
    ensures a.needsAuth ==> a.queryParams == d.reqQueryParams.GetOr([]) + [AccessToken]
    ensures !a.needsAuth ==> a.queryParams == d.reqQueryParams.GetOr([])
    // required list: placeholders first, then the query parameters
    ensures a.reqParams == a.urlParams + a.queryParams
    ensures |a.reqParams| == |a.urlParams| + |a.queryParams|
  {
    var url := FormatUrl(controller, d.url);
    var needsAuth := d.needsAuth.GetOr(false);
    var urlParams := UrlParams(url);
    var base := d.reqQueryParams.GetOr([]);
    var queryParams := if needsAuth then base + [AccessToken] else base;
    Action(controller, action, OrDefault(d.verb, DefaultMethod), url, needsAuth,
           urlParams, queryParams, d.mediaParams, urlParams + queryParams)
  }

  /** The `heelloAction` constructor: the new action, and the entry as the constructor leaves it. */
  function BuildAction(controller: string, action: string, d: SchemaEntry): (b: Built)
    ensures b.action == Describe(controller, action, d)
    // the aliased table array is the only thing in the table that changes
    ensures d.reqQueryParams.Some? ==> b.entry == d.(reqQueryParams := Some(b.action.queryParams))
    ensures d.reqQueryParams.None? ==> b.entry == d
  {
    var a := Describe(controller, action, d);
    Built(a, if d.reqQueryParams.Some? then d.(reqQueryParams := Some(a.queryParams)) else d)
  }

  /** Reading `api[controller][action]`: a fresh action built from the current entry, and the table
      with that entry as the constructor left it. None when either name is not in the table. */
  function Access(reg: Registry, controller: string, action: string): (r: Option<Accessed>)
    ensures r.Some? <==> controller in reg && action in reg[controller]
    ensures r.Some? ==> r.value.action == BuildAction(controller, action, reg[controller][action]).action
    ensures r.Some? ==> r.value.registry.Keys == reg.Keys
    ensures r.Some? ==> r.value.registry[controller].Keys == reg[controller].Keys
    ensures r.Some? ==> r.value.registry[controller][action]
                          == BuildAction(controller, action, reg[controller][action]).entry
    ensures r.Some? ==> r.value.registry - {controller} == reg - {controller}
    ensures r.Some? ==> r.value.registry[controller] - {action} == reg[controller] - {action}
  {
    if controller in reg && action in reg[controller] then
      var b := BuildAction(controller, action, reg[controller][action]);
      Some(Accessed(b.action, reg[controller := reg[controller][action := b.entry]]))
    else None
  }

  /** The table after reading `api[controller][action]` `n` times. */
  function AccessTimes(reg: Registry, controller: string, action: string, n: nat): (r: Registry)
    ensures r.Keys == reg.Keys
    ensures r - {controller} == reg - {controller}
    ensures controller in reg ==> r[controller].Keys == reg[controller].Keys
    ensures controller in reg ==> r[controller] - {action} == reg[controller] - {action}
    decreases n
  {
    if n == 0 then reg
    else match Access(reg, controller, action)
      case None => reg
      case Some(acc) => AccessTimes(acc.registry, controller, action, n - 1)
  }

  function Repeat(x: string, n: nat): (xs: seq<string>)
    ensures |xs| == n
    ensures forall k :: 0 <= k < n ==> xs[k] == x
  {
    seq(n, _ => x)
  }

  /** One read of an entry that needs auth and declares the list `q`: the action requires `q` then
      `access_token`, and the table's list gains that `access_token`. */
  lemma AccessAppendsOnce(reg: Registry, controller: string, action: string, q: seq<string>)
    requires controller in reg && action in reg[controller]
    requires reg[controller][action].needsAuth == Some(true)
    requires reg[controller][action].reqQueryParams == Some(q)
    ensures Access(reg, controller, action).Some?
    ensures Access(reg, controller, action).value.action.queryParams == q + [AccessToken]
    ensures var reg' := Access(reg, controller, action).value.registry;
            controller in reg' && action in reg'[controller]
            && reg'[controller][action] == reg[controller][action].(reqQueryParams := Some(q + [AccessToken]))
  {
    var b := BuildAction(controller, action, reg[controller][action]);
    assert b.action.queryParams == q + [AccessToken];
  }

  lemma RepeatCons(q: seq<string>, n: nat)
    ensures q + [AccessToken] + Repeat(AccessToken, n) == q + Repeat(AccessToken, n + 1)
  {
    assert [AccessToken] + Repeat(AccessToken, n) == Repeat(AccessToken, n + 1);
  }

  /** For an entry that needs auth and declares `reqQueryParams`, every read appends one more
      `access_token` to the table's list, so the action built on read n + 1 requires it n + 1 times. */
  lemma {:induction false} RepeatedAccessAccumulates(reg: Registry, controller: string, action: string,
                                                    q: seq<string>, n: nat)
    requires controller in reg && action in reg[controller]
    requires reg[controller][action].needsAuth == Some(true)
    requires reg[controller][action].reqQueryParams == Some(q)
    ensures var reg' := AccessTimes(reg, controller, action, n);
            controller in reg' && action in reg'[controller]
            && reg'[controller][action] == reg[controller][action].(reqQueryParams := Some(q + Repeat(AccessToken, n)))
    ensures var acc := Access(AccessTimes(reg, controller, action, n), controller, action);
            acc.Some? && acc.value.action.queryParams == q + Repeat(AccessToken, n + 1)
    decreases n
  {
    AccessAppendsOnce(reg, controller, action, q);
    if n == 0 {
      assert q + Repeat(AccessToken, 0) == q;
      RepeatCons(q, 0);
    } else {
      var d := reg[controller][action];
      var reg1: Registry := Access(reg, controller, action).value.registry;
      var d1: SchemaEntry := reg1[controller][action];
      assert AccessTimes(reg, controller, action, n) == AccessTimes(reg1, controller, action, n - 1);
      RepeatedAccessAccumulates(reg1, controller, action, q + [AccessToken], n - 1);
      RepeatCons(q, n - 1);
      RepeatCons(q, n);
      assert d1.(reqQueryParams := Some(q + Repeat(AccessToken, n)))
          == d.(reqQueryParams := Some(q + Repeat(AccessToken, n)));
    }
  }

  /** Without the aliased push (no auth needed, or no declared list) a read leaves the table as it was,
      so every read builds the same action. */
  lemma AccessStableWithoutAlias(reg: Registry, controller: string, action: string)
    requires controller in reg && action in reg[controller]
    requires reg[controller][action].needsAuth != Some(true) || reg[controller][action].reqQueryParams.None?
    ensures Access(reg, controller, action).value.registry == reg
  {
    var d := reg[controller][action];
    var b := BuildAction(controller, action, d);
    assert b.entry == d;
    assert reg[controller][action := d] == reg[controller];
    assert reg[controller := reg[controller]] == reg;
  }

  /** Any number of reads of such an entry leave the table as it was. */
  lemma {:induction false} StableTimes(reg: Registry, controller: string, action: string, n: nat)
    requires controller in reg && action in reg[controller]
    requires reg[controller][action].needsAuth != Some(true) || reg[controller][action].reqQueryParams.None?
    ensures AccessTimes(reg, controller, action, n) == reg
    decreases n
  {
    if n > 0 {
      AccessStableWithoutAlias(reg, controller, action);
      StableTimes(reg, controller, action, n - 1);
    }
  }

  lemma FormattedDuplicateUrl()
    ensures FormatUrl("u", Some(":id/:id")) == "/u/:id/:id.json"
  {
    assert "/" + "u" + "/" + ":id/:id" + ".json" == "/u/:id/:id.json";
  }

  /** A URL with the same placeholder twice yields it twice in the required list. */
  lemma DuplicateUrlParamsRequiredTwice()
    ensures BuildAction("u", "show", SchemaEntry(None, Some(":id/:id"), None, None, None)).action.reqParams
            == ["id", "id"]
  {
    FormattedDuplicateUrl();
    DuplicatePlaceholdersKept();
    var b := BuildAction("u", "show", SchemaEntry(None, Some(":id/:id"), None, None, None));
    assert b.action.url == "/u/:id/:id.json";
    assert b.action.urlParams == ["id", "id"];
    assert b.action.queryParams == [];
    assert b.action.reqParams == ["id", "id"] + [];
  }
}
