/** Call-time checks of `heelloAction.prototype.send` (lib/heello.js:113-133). The working list is a copy
    of the action's required list in which JavaScript's `delete` leaves a hole (None) instead of
    shortening the array. */
module Send {
  import opened Wrappers
  import opened Actions

  /** The value of `api.creds`. The api constructor (lib/heello.js:10-24) never assigns it, so on a
      fresh api it is `undefined`, which the strict `=== null` test does not catch. */
  datatype Creds = Undefined | Null | Token(value: string)

  /** The `params` argument: an array of supplied parameter names, or a value with no `forEach`
      method (a plain object, a function, `undefined`), on which `params.forEach` raises a TypeError. */
  datatype Params = NameList(names: seq<string>) | NotAList

  /** The `fn` argument. Called as `send(cb)`, `params` is the callback and `fn` is `undefined`. */
  datatype Callback = Callable | NotCallable

  datatype SendError =
    | AuthMissing(controller: string, action: string)
    | ParamsNotIterable
    | MissingParams(controller: string, action: string, remaining: seq<Option<string>>)

  /** A failure is handed to a callable `fn`; when `fn` is not callable, the `fn(err)` in the `catch`
      throws a TypeError out of `send` instead (Escaped, carrying the error that went unreported). When
      both checks pass the body ends without calling `fn` (Silent). */
  datatype SendOutcome = Reported(error: SendError) | Escaped(error: SendError) | Silent

  /** `reqParams.slice()`: the copy, with every slot filled. */
  function Copy(xs: seq<string>): (ys: seq<Option<string>>)
    ensures |ys| == |xs|
    ensures forall i :: 0 <= i < |xs| ==> ys[i] == Some(xs[i])
  {
    seq(|xs|, i requires 0 <= i < |xs| => Some(xs[i]))
  }

  /** The names still in the list, in order, holes skipped. */
  function Present(xs: seq<Option<string>>): (names: seq<string>)
    ensures |names| <= |xs|
    ensures forall x :: x in names <==> Some(x) in xs
  {
    if xs == [] then []
    else (if xs[0].Some? then [xs[0].value] else []) + Present(xs[1..])
  }

  /** `xs.indexOf(p)`: the first slot holding `p` (holes never match), or -1. */
  function IndexOf(xs: seq<Option<string>>, p: string): (i: int)
    ensures -1 <= i < |xs|
    ensures i >= 0 ==> xs[i] == Some(p)
    ensures i >= 0 ==> forall k :: 0 <= k < i ==> xs[k] != Some(p)
    ensures i == -1 ==> forall k :: 0 <= k < |xs| ==> xs[k] != Some(p)
  {
    if xs == [] then -1
    else if xs[0] == Some(p) then 0
    else
      var j := IndexOf(xs[1..], p);
      if j == -1 then -1 else j + 1
  }

  /** The body of the `forEach` callback: `delete xs[xs.indexOf(p)]` when `p` is present. */
  function DeleteFirst(xs: seq<Option<string>>, p: string): (ys: seq<Option<string>>)
    ensures |ys| == |xs|
    ensures IndexOf(xs, p) >= 0 ==> ys[IndexOf(xs, p)].None?
    ensures forall k :: 0 <= k < |xs| && k != IndexOf(xs, p) ==> ys[k] == xs[k]
    ensures multiset(Present(ys)) == multiset(Present(xs)) - multiset{p}
  {
    var i := IndexOf(xs, p);
    if i == -1 then
      NotPresent(xs, p);
      xs
    else
      PresentPunch(xs, i);
      xs[i := None]
  }

  /** `params.forEach(...)`: each supplied name punches out one remaining occurrence of itself. */
  function Strike(xs: seq<Option<string>>, ps: seq<string>): (ys: seq<Option<string>>)
    ensures |ys| == |xs|
    ensures forall k :: 0 <= k < |xs| ==> ys[k] == xs[k] || ys[k].None?
    ensures multiset(Present(ys)) == multiset(Present(xs)) - multiset(ps)
    ensures FirstOccurrencesPunched(xs, ps, ys)
    decreases |ps|
  {
    if ps == [] then
      NothingPunched(xs);
      xs
    else
      assert ps == [ps[0]] + ps[1..];
      var ys := Strike(DeleteFirst(xs, ps[0]), ps[1..]);
      PunchStep(xs, ps[0], ps[1..], ys);
      ys
  }

  /** Which occurrence of its name slot `k` holds, counting only the names still present. */
  function Rank(xs: seq<Option<string>>, k: nat): (rank: nat)
    requires k < |xs| && xs[k].Some?
  {
    multiset(Present(xs[..k + 1]))[xs[k].value]
  }

  /** Striking `ps` from `xs` left `ys`: a name's occurrence is a hole exactly when it is among the
      first as many occurrences as `ps` supplies of that name. */
  predicate FirstOccurrencesPunched(xs: seq<Option<string>>, ps: seq<string>, ys: seq<Option<string>>)
    requires |ys| == |xs|
  {
    forall k :: 0 <= k < |xs| && xs[k].Some? ==>
      (ys[k].None? <==> Rank(xs, k) <= multiset(ps)[xs[k].value])
  }

  /** The checks in the `try` of `send`: the credentials check, then the missing-parameter check on
      the copy. None when both pass. */
  function Validate(a: Action, creds: Creds, params: Params): (e: Option<SendError>)
    ensures creds.Null? ==> e == Some(AuthMissing(a.controllerName, a.actionName))
    ensures !creds.Null? && params.NotAList? ==> e == Some(ParamsNotIterable)
    ensures !creds.Null? && params.NameList? ==> (e.Some? <==> |a.reqParams| > 0)
    ensures !creds.Null? && params.NameList? && |a.reqParams| > 0 ==> e.Some? && e.value.MissingParams?
    ensures e.Some? && e.value.MissingParams? ==>
              e.value.controller == a.controllerName && e.value.action == a.actionName
              && |e.value.remaining| == |a.reqParams|
              && (forall k :: 0 <= k < |a.reqParams| ==>
                    e.value.remaining[k] == Some(a.reqParams[k]) || e.value.remaining[k].None?)
              && multiset(Present(e.value.remaining)) == multiset(a.reqParams) - multiset(params.names)
    ensures e.Some? && e.value.MissingParams? ==>
              forall k :: 0 <= k < |a.reqParams| ==>
                (e.value.remaining[k].None? <==>
                   multiset(a.reqParams[..k + 1])[a.reqParams[k]] <= multiset(params.names)[a.reqParams[k]])
  {
    if creds.Null? then Some(AuthMissing(a.controllerName, a.actionName))
    else match params
      case NotAList => Some(ParamsNotIterable)
      case NameList(ps) =>
        var left := Remaining(a.reqParams, ps);
        if |left| > 0 then Some(MissingParams(a.controllerName, a.actionName, left)) else None
  }

  /** `reqParams = this.reqParams.slice()` followed by the `forEach`: the copy with the supplied
      names struck out. Every slot still holds its required name or is a hole, the names still
      present are the required ones less the supplied ones, and a slot is a hole exactly when its
      name's occurrence is within the number supplied. */
  function Remaining(req: seq<string>, ps: seq<string>): (left: seq<Option<string>>)
    ensures |left| == |req|
    ensures forall k :: 0 <= k < |req| ==> left[k] == Some(req[k]) || left[k].None?
    ensures multiset(Present(left)) == multiset(req) - multiset(ps)
    ensures forall k :: 0 <= k < |req| ==>
              (left[k].None? <==> multiset(req[..k + 1])[req[k]] <= multiset(ps)[req[k]])
  {
    PresentOfCopy(req);
    StrikeCopy(req, ps);
    Strike(Copy(req), ps)
  }

  /** The `catch (err) { fn(err) }` around the checks. */
  function Route(e: Option<SendError>, fn: Callback): (r: SendOutcome)
    ensures r.Silent? <==> e.None?
    ensures e.Some? && fn.Callable? ==> r == Reported(e.value)
    ensures e.Some? && fn.NotCallable? ==> r == Escaped(e.value)
  {
    match e
    case None => Silent
    case Some(err) => if fn.Callable? then Reported(err) else Escaped(err)
  }

  /** `heelloAction.prototype.send(params, fn)`. */
  function Check(a: Action, creds: Creds, params: Params, fn: Callback): (r: SendOutcome)
    ensures r.Silent? <==> !creds.Null? && params.NameList? && a.reqParams == []
    ensures fn.Callable? ==> !r.Escaped?
    ensures fn.NotCallable? ==> !r.Reported?
    ensures creds.Null? ==> r.error == AuthMissing(a.controllerName, a.actionName)
    ensures !creds.Null? && params.NotAList? ==> r.error == ParamsNotIterable
    ensures !r.Silent? ==> Validate(a, creds, params) == Some(r.error)
  {
    Route(Validate(a, creds, params), fn)
  }

  lemma {:induction false} NotPresent(xs: seq<Option<string>>, p: string)
    requires forall k :: 0 <= k < |xs| ==> xs[k] != Some(p)
    ensures p !in multiset(Present(xs))
  {
    if xs != [] {
      NotPresent(xs[1..], p);
    }
  }

  lemma {:induction false} PresentPunch(xs: seq<Option<string>>, i: nat)
    requires i < |xs| && xs[i].Some?
    ensures xs[i].value in multiset(Present(xs))
    ensures multiset(Present(xs[i := None])) == multiset(Present(xs)) - multiset{xs[i].value}
  {
    var v := xs[i].value;
    var ys := xs[i := None];
    var head := if xs[0].Some? then [xs[0].value] else [];
    var rest := xs[1..];
    assert Present(xs) == head + Present(rest);
    if i > 0 {
      PresentPunch(rest, i - 1);
      assert ys[0] == xs[0];
      assert ys[1..] == rest[i - 1 := None];
      assert Present(ys) == head + Present(rest[i - 1 := None]);
      MultisetShift(multiset(head), multiset(Present(rest)), v);
    } else {
      assert ys[1..] == rest;
      assert Present(ys) == Present(rest);
    }
  }

  lemma {:induction false} PresentConcat(xs: seq<Option<string>>, zs: seq<Option<string>>)
    ensures Present(xs + zs) == Present(xs) + Present(zs)
  {
    if xs == [] {
      assert xs + zs == zs;
    } else {
      assert (xs + zs)[0] == xs[0];
      assert (xs + zs)[1..] == xs[1..] + zs;
      PresentConcat(xs[1..], zs);
    }
  }

  /** The slot's own name is counted in its rank; when no earlier slot holds it, it is the first. */
  lemma RankOfSlot(xs: seq<Option<string>>, k: nat)
    requires k < |xs| && xs[k].Some?
    ensures Rank(xs, k) >= 1
    ensures (forall j :: 0 <= j < k ==> xs[j] != xs[k]) ==> Rank(xs, k) == 1
  {
    assert xs[..k + 1] == xs[..k] + [xs[k]];
    PresentConcat(xs[..k], [xs[k]]);
    assert Present([xs[k]]) == [xs[k].value];
    if forall j :: 0 <= j < k ==> xs[j] != xs[k] {
      NotPresent(xs[..k], xs[k].value);
    }
  }

  lemma NothingPunched(xs: seq<Option<string>>)
    ensures FirstOccurrencesPunched(xs, [], xs)
  {
    forall k | 0 <= k < |xs| && xs[k].Some? {
      RankOfSlot(xs, k);
    }
  }

  /** One `forEach` step: if the rest of `ps` punches first occurrences out of the list left by
      deleting the first `p`, then `p` followed by the rest punches first occurrences out of the
      original list. */
  lemma PunchStep(xs: seq<Option<string>>, p: string, rest: seq<string>, ys: seq<Option<string>>)
    requires |ys| == |xs|
    requires forall k :: 0 <= k < |xs| ==> ys[k] == DeleteFirst(xs, p)[k] || ys[k].None?
    requires FirstOccurrencesPunched(DeleteFirst(xs, p), rest, ys)
    ensures FirstOccurrencesPunched(xs, [p] + rest, ys)
  {
    forall k | 0 <= k < |xs| && xs[k].Some?
      ensures ys[k].None? <==> Rank(xs, k) <= multiset([p] + rest)[xs[k].value]
    {
      PunchSlot(xs, p, rest, ys, k);
    }
  }

  /** The step for one slot: deleting the first `p` lowers the rank of every later `p` by one, and
      supplies one fewer `p` to the rest. */
  lemma PunchSlot(xs: seq<Option<string>>, p: string, rest: seq<string>, ys: seq<Option<string>>,
                  k: nat)
    requires |ys| == |xs| && k < |xs| && xs[k].Some?
    requires ys[k] == DeleteFirst(xs, p)[k] || ys[k].None?
    requires DeleteFirst(xs, p)[k].Some? ==>
               (ys[k].None? <==> Rank(DeleteFirst(xs, p), k) <= multiset(rest)[xs[k].value])
    ensures ys[k].None? <==> Rank(xs, k) <= multiset([p] + rest)[xs[k].value]
  {
    var zs := DeleteFirst(xs, p);
    var i := IndexOf(xs, p);
    var v := xs[k].value;
    assert multiset([p] + rest)[v] == (if v == p then 1 else 0) + multiset(rest)[v];
    RankOfSlot(xs, k);
    if k != i {
      assert zs[k] == xs[k];
      if 0 <= i < k {
        assert zs[..k + 1] == xs[..k + 1][i := None];
        PresentPunch(xs[..k + 1], i);
      } else {
        assert zs[..k + 1] == xs[..k + 1];
      }
    }
  }

  lemma MultisetShift(a: multiset<string>, b: multiset<string>, v: string)
    requires v in b
    ensures a + (b - multiset{v}) == (a + b) - multiset{v}
    ensures v in a + b
  {
  }

  lemma {:induction false} PresentOfCopy(xs: seq<string>)
    ensures Present(Copy(xs)) == xs
  {
    if xs != [] {
      PresentOfCopy(xs[1..]);
      assert Copy(xs)[1..] == Copy(xs[1..]);
    }
  }

  /** Striking from a fresh copy: a slot is a hole exactly when its name's occurrence among the
      required names up to it is within the number supplied. */
  lemma StrikeCopy(req: seq<string>, ps: seq<string>)
    ensures |Strike(Copy(req), ps)| == |req|
    ensures forall k :: 0 <= k < |req| ==>
              (Strike(Copy(req), ps)[k].None? <==>
                 multiset(req[..k + 1])[req[k]] <= multiset(ps)[req[k]])
  {
    var copy := Copy(req);
    var left := Strike(copy, ps);
    assert FirstOccurrencesPunched(copy, ps, left);
    forall k | 0 <= k < |req|
      ensures left[k].None? <==> multiset(req[..k + 1])[req[k]] <= multiset(ps)[req[k]]
    {
      RankInCopy(req, k);
    }
  }

  /** In a fresh copy every slot is present, so a slot's rank counts the required list's prefix. */
  lemma RankInCopy(req: seq<string>, k: nat)
    requires k < |req|
    ensures Copy(req)[k] == Some(req[k])
    ensures Rank(Copy(req), k) == multiset(req[..k + 1])[req[k]]
  {
    assert Copy(req)[..k + 1] == Copy(req[..k + 1]);
    PresentOfCopy(req[..k + 1]);
  }

  lemma {:induction false} NothingPresentMeansHoles(xs: seq<Option<string>>)
    requires multiset(Present(xs)) == multiset{}
    ensures forall k :: 0 <= k < |xs| ==> xs[k].None?
  {
    if xs != [] {
      NothingPresentMeansHoles(xs[1..]);
      assert forall k :: 1 <= k < |xs| ==> xs[k] == xs[1..][k - 1];
    }
  }

  /** As written, supplying every required name still fails: the holes keep the list's length, so any
      action with a required parameter is rejected, and the message lists only holes. */
  lemma SuppliedParamStillMissing(a: Action, t: string)
    requires a.reqParams == ["id"]
    ensures Check(a, Token(t), NameList(["id"]), Callable)
            == Reported(MissingParams(a.controllerName, a.actionName, [None]))
  {
    var rem := Remaining(["id"], ["id"]);
    assert multiset(["id"]) - multiset(["id"]) == multiset{};
    NothingPresentMeansHoles(rem);
    assert rem == [None];
  }

  /** Every action built from an entry that needs auth requires `access_token`, so as written every
      call to it that gets past the credentials check is rejected, whatever names are supplied. */
  lemma AuthActionsAlwaysRejected(controller: string, action: string, d: SchemaEntry,
                                  creds: Creds, names: seq<string>)
    requires d.needsAuth == Some(true)
    requires !creds.Null?
    ensures var a := BuildAction(controller, action, d).action;
            Check(a, creds, NameList(names), Callable).Reported?
            && Check(a, creds, NameList(names), Callable).error.MissingParams?
  {
  }

  /** The credentials check cannot tell an api whose `creds` were never assigned from one holding a
      token: on a fresh api it never fires. */
  lemma FreshApiPassesCredsCheck(a: Action, params: Params, fn: Callback, t: string)
    ensures Check(a, Undefined, params, fn) == Check(a, Token(t), params, fn)
  {
  }

  /** Called as `send(cb)`, the callback lands in `params` and `fn` is undefined: the call always
      throws out of `send` and never reaches the callback. */
  lemma ParamsOmittedThrows(a: Action, creds: Creds)
    ensures Check(a, creds, NotAList, NotCallable).Escaped?
  {
  }

  // The missing-parameter check as evidently intended: report the required names that were not
  // supplied, and proceed when there are none.

  /** The required names not among the supplied ones, in order. */
  function Outstanding(req: seq<string>, supplied: seq<string>): (m: seq<string>)
    ensures forall x :: x in m <==> x in req && x !in supplied
    ensures |m| <= |req|
  {
    if req == [] then []
    else (if req[0] in supplied then [] else [req[0]]) + Outstanding(req[1..], supplied)
  }

  function ValidateCorrected(a: Action, creds: Creds, params: Params): (e: Option<SendError>)
    ensures creds.Null? || params.NotAList? ==> e == Validate(a, creds, params)
    ensures !creds.Null? && params.NameList? ==>
              (e.Some? <==> exists x :: x in a.reqParams && x !in params.names)
    ensures !creds.Null? && params.NameList? && e.Some? ==>
              e.value.MissingParams?
              && e.value.controller == a.controllerName && e.value.action == a.actionName
              && Present(e.value.remaining) == Outstanding(a.reqParams, params.names)
              && forall k :: 0 <= k < |e.value.remaining| ==> e.value.remaining[k].Some?
  {
    if creds.Null? then Some(AuthMissing(a.controllerName, a.actionName))
    else match params
      case NotAList => Some(ParamsNotIterable)
      case NameList(ps) =>
        var m := Outstanding(a.reqParams, ps);
        PresentOfCopy(m);
        if |m| > 0 then
          assert m[0] in m;
          Some(MissingParams(a.controllerName, a.actionName, Copy(m)))
        else None
  }

  /** The corrected check lets the call through exactly when every required name is supplied, which
      the as-written check only does when nothing is required. */
  lemma CorrectedAcceptsSuppliedParams(a: Action, t: string)
    ensures ValidateCorrected(a, Token(t), NameList(a.reqParams)) == None
    ensures Validate(a, Token(t), NameList(a.reqParams)) == None <==> a.reqParams == []
  {
  }

  // Error texts (`util.format` at lib/heello.js:118 and 126).

  /** The printed text of a slot: a hole prints as the empty string. */
  function SlotText(x: Option<string>): (text: string) {
    x.GetOr("")
  }

  /** The total printed length of the slots. */
  function TextLength(xs: seq<Option<string>>): (n: nat) {
    if xs == [] then 0 else |SlotText(xs[0])| + TextLength(xs[1..])
  }

  /** Where slot `k` starts in the joined text: the texts before it and one ", " after each. */
  function Offset(xs: seq<Option<string>>, k: nat): (offset: nat)
    requires k <= |xs|
  {
    TextLength(xs[..k]) + 2 * k
  }

  /** `t` sits in `j` at position `o`. */
  predicate SlotAt(j: string, o: nat, t: string) {
    o + |t| <= |j| && j[o..o + |t|] == t
  }

  /** `xs.join(', ')`: the slots' texts, in order, separated by ", ". */
  function Join(xs: seq<Option<string>>): (j: string)
    ensures xs == [] ==> j == ""
    ensures xs != [] ==> |j| == TextLength(xs) + 2 * (|xs| - 1)
    ensures forall k :: 0 <= k < |xs| ==> SlotAt(j, Offset(xs, k), SlotText(xs[k]))
    ensures forall k :: 0 <= k < |xs| - 1 ==> SlotAt(j, Offset(xs, k) + |SlotText(xs[k])|, ", ")
  {
    if xs == [] then ""
    else if |xs| == 1 then
      assert xs[..0] == [];
      SlotText(xs[0])
    else
      var rest := Join(xs[1..]);
      JoinStep(xs, rest);
      SlotText(xs[0]) + ", " + rest
  }

  const Lead: string := "api call "
  const AuthText: string := " requires auth, none provided"
  const MissingText: string := " missing required parameter(s) "
  const MissingTail: string := " auth, none provided"

  /** The error's message text; None for the TypeError, whose text comes from the JavaScript engine. */
  function Message(e: SendError): (m: Option<string>)
    ensures m.Some? <==> !e.ParamsNotIterable?
    ensures m.Some? ==> |m.value| >= |Lead| + |e.controller| + 1 + |e.action|
                        && m.value[..|Lead|] == Lead
                        && m.value[|Lead| .. |Lead| + |e.controller| + 1 + |e.action|]
                           == e.controller + "/" + e.action
    ensures e.AuthMissing? ==> m.value[|Lead| + |e.controller| + 1 + |e.action| ..] == AuthText
    ensures e.MissingParams? ==>
              m.value[|Lead| + |e.controller| + 1 + |e.action| ..]
              == MissingText + Join(e.remaining) + MissingTail
  {
    match e
    case AuthMissing(c, a) =>
      var head := Lead + c + "/" + a;
      assert head[|Lead| ..] == c + "/" + a;
      Some(head + AuthText)
    case ParamsNotIterable => None
    case MissingParams(c, a, remaining) =>
      var head := Lead + c + "/" + a;
      assert head[|Lead| ..] == c + "/" + a;
      Some(head + (MissingText + Join(remaining) + MissingTail))
  }

  /** Past the first slot, offsets are the first slot's text and its ", " plus the rest's offsets. */
  lemma OffsetStep(xs: seq<Option<string>>, k: nat)
    requires 1 <= k <= |xs|
    ensures Offset(xs, k) == |SlotText(xs[0])| + 2 + Offset(xs[1..], k - 1)
  {
    assert xs[..k][0] == xs[0];
    assert xs[..k][1..] == xs[1..][..k - 1];
  }

  lemma ShiftSlot(p: string, j: string, o: nat, t: string)
    requires SlotAt(j, o, t)
    ensures SlotAt(p + j, |p| + o, t)
  {
    assert (p + j)[|p| + o..|p| + o + |t|] == j[o..o + |t|];
  }

  /** Placing the first slot and ", " in front of the joined rest places every slot. */
  lemma JoinStep(xs: seq<Option<string>>, rest: string)
    requires |xs| > 1
    requires forall k :: 0 <= k < |xs| - 1 ==> SlotAt(rest, Offset(xs[1..], k), SlotText(xs[1..][k]))
    requires forall k :: 0 <= k < |xs| - 2 ==>
               SlotAt(rest, Offset(xs[1..], k) + |SlotText(xs[1..][k])|, ", ")
    ensures forall k :: 0 <= k < |xs| ==>
              SlotAt(SlotText(xs[0]) + ", " + rest, Offset(xs, k), SlotText(xs[k]))
    ensures forall k :: 0 <= k < |xs| - 1 ==>
              SlotAt(SlotText(xs[0]) + ", " + rest, Offset(xs, k) + |SlotText(xs[k])|, ", ")
  {
    var h := SlotText(xs[0]);
    var p := h + ", ";
    assert p + rest == SlotText(xs[0]) + ", " + rest;
    assert xs[..0] == [];
    forall k | 0 <= k < |xs| ensures SlotAt(p + rest, Offset(xs, k), SlotText(xs[k])) {
      if k == 0 {
        assert (p + rest)[..|h|] == h;
      } else {
        OffsetStep(xs, k);
        assert xs[1..][k - 1] == xs[k];
        ShiftSlot(p, rest, Offset(xs[1..], k - 1), SlotText(xs[k]));
      }
    }
    forall k | 0 <= k < |xs| - 1
      ensures SlotAt(p + rest, Offset(xs, k) + |SlotText(xs[k])|, ", ")
    {
      if k == 0 {
        assert (p + rest)[|h|..|h| + 2] == ", ";
      } else {
        OffsetStep(xs, k);
        assert xs[1..][k - 1] == xs[k];
        ShiftSlot(p, rest, Offset(xs[1..], k - 1) + |SlotText(xs[k])|, ", ");
      }
    }
  }

  /** A list of holes joins to separators only: when every required name was supplied, the as-written
      error names no parameter at all. */
  lemma {:induction false} JoinOfHolesNamesNothing(xs: seq<Option<string>>)
    requires |xs| >= 1
    requires forall k :: 0 <= k < |xs| ==> xs[k].None?
    ensures |Join(xs)| == 2 * (|xs| - 1)
    ensures forall k :: 0 <= k < |Join(xs)| ==> Join(xs)[k] == ',' || Join(xs)[k] == ' '
  {
    if |xs| > 1 {
      JoinOfHolesNamesNothing(xs[1..]);
    }
  }
}
