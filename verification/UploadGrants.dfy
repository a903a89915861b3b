// The public-upload protocol of src/state.py: a visitor asks to upload, the host
// accepts or declines, an accepted visitor spends a single-use grant.
//
// A run is a sequence of events, one per lock-protected section, with the clock
// reading the section used and the random value it drew.  Answers are compared
// with what the event sequence alone says, never with the stored dictionaries.
module UploadGrants {
  import opened PyDict
  import opened Wrappers

  const TTL := 120.0

  datatype Status = Pending | Accepted | Declined | Expired

  datatype Request = Request(
    id: string, filename: string, size: int, client: string, folder: string,
    status: Status, createdAt: real, expiresAt: real, token: string)

  datatype Grant = Grant(filename: string, size: int, client: string, folder: string, expiresAt: real)

  datatype State = State(requests: map<string, Request>, grants: map<string, Grant>)

  datatype Event =
    | Create(id: string, filename: string, size: int, client: string, folder: string, at: real)
    | Issue(token: string, filename: string, size: int, client: string, folder: string, at: real)
    | Resolve(id: string, accepted: bool, token: string, at: real)
    | Get(id: string, at: real)
    | Consume(token: string, filename: string, size: int, at: real)

  // ---------- one step ----------

  predicate IsPending(s: State, id: string) {
    id in s.requests && s.requests[id].status == Pending
  }

  function GrantFor(r: Request, at: real): Grant {
    Grant(r.filename, r.size, r.client, r.folder, at + TTL)
  }

  function Unexpired(grants: map<string, Grant>, now: real): map<string, Grant> {
    map t | t in grants && grants[t].expiresAt > now :: grants[t]
  }

  predicate Redeems(s: State, token: string, filename: string, size: int, now: real) {
    && token in s.grants
    && s.grants[token].expiresAt > now
    && s.grants[token].filename == filename
    && s.grants[token].size == size
  }

  function Step(s: State, e: Event): State {
    match e
    case Create(id, filename, size, client, folder, at) =>
      s.(requests := s.requests[id :=
        Request(id, filename, size, client, folder, Pending, at, at + TTL, "")])
    case Issue(token, filename, size, client, folder, at) =>
      s.(grants := s.grants[token := Grant(filename, size, client, folder, at + TTL)])
    case Resolve(id, accepted, token, at) =>
      if !IsPending(s, id) then s
      else if accepted then
        var r := s.requests[id];
        State(s.requests[id := r.(status := Accepted, token := token)],
              s.grants[token := GrantFor(r, at)])
      else s.(requests := s.requests[id := s.requests[id].(status := Declined)])
    case Get(id, at) =>
      if IsPending(s, id) && s.requests[id].expiresAt <= at
      then s.(requests := s.requests[id := s.requests[id].(status := Expired)])
      else s
    case Consume(token, filename, size, at) =>
      var live := Unexpired(s.grants, at);
      s.(grants := if Redeems(s, token, filename, size, at) then live - {token} else live)
  }

  /** The dictionaries after the first `n` events of a run. */
  function At(es: seq<Event>, n: nat): State
    requires n <= |es|
  {
    if n == 0 then State(map[], map[]) else Step(At(es, n - 1), es[n - 1])
  }

  // ---------- what the event sequence says ----------

  predicate Draws(e: Event) {
    e.Issue? || e.Resolve?
  }

  /** Random values never repeat: request ids, and non-empty grant tokens. */
  ghost predicate FreshValues(es: seq<Event>) {
    && (forall i :: 0 <= i < |es| && Draws(es[i]) ==> es[i].token != "")
    && (forall i, j :: 0 <= i < j < |es| && Draws(es[i]) && Draws(es[j]) ==> es[i].token != es[j].token)
    && (forall i, j :: 0 <= i < j < |es| && es[i].Create? && es[j].Create? ==> es[i].id != es[j].id)
  }

  ghost predicate ClockForward(es: seq<Event>) {
    forall i, j :: 0 <= i < j < |es| ==> es[i].at <= es[j].at
  }

  /** Event `i` puts `token` into circulation. */
  predicate Issues(es: seq<Event>, i: nat, token: string)
    requires i < |es|
  {
    match es[i]
    case Issue(t, _, _, _, _, _) => t == token
    case Resolve(id, accepted, t, _) => accepted && t == token && IsPending(At(es, i), id)
    case _ => false
  }

  function Offer(es: seq<Event>, i: nat, token: string): Grant
    requires i < |es| && Issues(es, i, token)
  {
    match es[i]
    case Issue(_, filename, size, client, folder, at) => Grant(filename, size, client, folder, at + TTL)
    case Resolve(id, _, _, at) => GrantFor(At(es, i).requests[id], at)
  }

  /** The terms of a grant: those of the issuing call, or of the request as it was
      created, and two minutes from the issuing event. */
  lemma OfferTerms(es: seq<Event>, i: nat, token: string)
    requires i < |es| && Issues(es, i, token)
    ensures var g := Offer(es, i, token);
            && g.expiresAt == es[i].at + 120.0
            && (es[i].Issue? ==> g.filename == es[i].filename && g.size == es[i].size
                                 && g.client == es[i].client && g.folder == es[i].folder)
            && (es[i].Resolve? ==>
                  && es[i].accepted && es[i].id in At(es, i).requests
                  && var r := At(es, i).requests[es[i].id];
                     && r.status == Pending && g.filename == r.filename && g.size == r.size
                     && g.client == r.client && g.folder == r.folder)
  {
  }

  /** `consume_public_upload_grant` answers true at event `j`. */
  predicate Wins(es: seq<Event>, j: nat)
    requires j < |es|
  {
    match es[j]
    case Consume(token, filename, size, at) => Redeems(At(es, j), token, filename, size, at)
    case _ => false
  }

  predicate Spends(es: seq<Event>, j: nat, token: string)
    requires j < |es|
  {
    Wins(es, j) && es[j].token == token
  }

  /** Event `j` runs the expiry sweep at a time when `g` has expired. */
  predicate Sweeps(es: seq<Event>, j: nat, g: Grant)
    requires j < |es|
  {
    es[j].Consume? && es[j].at >= g.expiresAt
  }

  ghost predicate LiveSince(es: seq<Event>, i: nat, n: nat, token: string) {
    && i < n <= |es|
    && Issues(es, i, token)
    && (forall j :: i < j < n ==> !Spends(es, j, token))
    && (forall j :: i < j < n ==> !Sweeps(es, j, Offer(es, i, token)))
  }

  // ---------- grants ----------

  lemma {:induction false} LiveIndex(es: seq<Event>, n: nat, token: string) returns (i: nat)
    requires n <= |es| && FreshValues(es)
    requires token in At(es, n).grants
    ensures LiveSince(es, i, n, token)
    ensures At(es, n).grants[token] == Offer(es, i, token)
  {
    if Issues(es, n - 1, token) {
      i := n - 1;
    } else {
      i := LiveIndex(es, n - 1, token);
    }
  }

  lemma {:induction false} LiveStored(es: seq<Event>, i: nat, n: nat, token: string)
    requires FreshValues(es) && LiveSince(es, i, n, token)
    ensures token in At(es, n).grants && At(es, n).grants[token] == Offer(es, i, token)
    decreases n
  {
    if i < n - 1 {
      LiveStored(es, i, n - 1, token);
      assert !Spends(es, n - 1, token) && !Sweeps(es, n - 1, Offer(es, i, token));
      assert Draws(es[i]) && es[i].token == token;
    }
  }

  lemma IssuedOnce(es: seq<Event>, i: nat, j: nat, token: string)
    requires FreshValues(es) && i < |es| && j < |es|
    requires Issues(es, i, token) && Issues(es, j, token)
    ensures i == j
  {
    assert Draws(es[i]) && Draws(es[j]);
  }

  /** A grant is redeemed only strictly before it expires, only for the filename
      and size it was issued for, and never after an earlier redemption.  No
      assumption on the clock is needed for this direction. */
  lemma RedemptionIsJustified(es: seq<Event>, j: nat) returns (i: nat)
    requires j < |es| && FreshValues(es) && Wins(es, j)
    ensures i < j && Issues(es, i, es[j].token)
    ensures var g := Offer(es, i, es[j].token);
            es[j].at < g.expiresAt && es[j].filename == g.filename && es[j].size == g.size
    ensures forall k :: i < k < j ==> !Spends(es, k, es[j].token)
  {
    i := LiveIndex(es, j, es[j].token);
  }

  /** Each token is redeemed at most once in a whole run. */
  lemma RedeemedAtMostOnce(es: seq<Event>, j: nat, k: nat)
    requires j < k < |es| && FreshValues(es)
    requires Wins(es, j) && Wins(es, k)
    ensures es[j].token != es[k].token
  {
    if es[j].token == es[k].token {
      var i := RedemptionIsJustified(es, j);
      var i' := RedemptionIsJustified(es, k);
      IssuedOnce(es, i, i', es[j].token);
      assert Spends(es, j, es[k].token);
    }
  }

  /** The exact answer of a redemption when the clock never runs backwards: the
      token was issued, it fits, it has not expired and nobody spent it before.
      The lazy sweep of other grants never shows. */
  lemma RedemptionIff(es: seq<Event>, j: nat)
    requires j < |es| && es[j].Consume? && FreshValues(es) && ClockForward(es)
    ensures Wins(es, j) <==>
            exists i :: 0 <= i < j && Issues(es, i, es[j].token)
                        && es[j].at < Offer(es, i, es[j].token).expiresAt
                        && es[j].filename == Offer(es, i, es[j].token).filename
                        && es[j].size == Offer(es, i, es[j].token).size
                        && forall k :: i < k < j ==> !Spends(es, k, es[j].token)
  {
    var token := es[j].token;
    if Wins(es, j) {
      var i := RedemptionIsJustified(es, j);
    } else {
      forall i | 0 <= i < j && Issues(es, i, token) && es[j].at < Offer(es, i, token).expiresAt
                 && (forall k :: i < k < j ==> !Spends(es, k, token))
        ensures es[j].filename != Offer(es, i, token).filename || es[j].size != Offer(es, i, token).size
      {
        assert LiveSince(es, i, j, token);
        LiveStored(es, i, j, token);
      }
    }
  }

  /** Issued grants are partitioned: stored, redeemed, or swept after expiry. */
  lemma GrantsPartitioned(es: seq<Event>, i: nat, n: nat, token: string)
    requires i < n <= |es| && FreshValues(es) && Issues(es, i, token)
    ensures var stored := token in At(es, n).grants;
            var spent := exists j :: i < j < n && Spends(es, j, token);
            var swept := exists j :: i < j < n && Sweeps(es, j, Offer(es, i, token));
            && !(stored && spent)
            && !(stored && swept)
            && (stored || spent || swept)
            && (stored ==> At(es, n).grants[token] == Offer(es, i, token))
  {
    if token in At(es, n).grants {
      var i' := LiveIndex(es, n, token);
      IssuedOnce(es, i, i', token);
    } else if (forall j :: i < j < n ==> !Spends(es, j, token))
              && (forall j :: i < j < n ==> !Sweeps(es, j, Offer(es, i, token))) {
      assert LiveSince(es, i, n, token);
      LiveStored(es, i, n, token);
      assert false;
    }
  }

  /** The sweep and the redemption of a grant exclude each other in order: a grant can
      be spent only before the first sweep that finds it expired.  With the partition
      above, each issued grant is stored, or was spent, or was swept unspent. */
  lemma SpentOnlyBeforeSweep(es: seq<Event>, i: nat, j: nat, k: nat, token: string)
    requires i < j < |es| && i < k < |es| && FreshValues(es)
    requires Issues(es, i, token) && Spends(es, j, token) && Sweeps(es, k, Offer(es, i, token))
    ensures j < k
  {
    var i' := LiveIndex(es, j, token);
    IssuedOnce(es, i, i', token);
  }

  /** Nothing is stored that was never issued. */
  lemma StoredWasIssued(es: seq<Event>, n: nat, token: string)
    requires n <= |es| && FreshValues(es) && token in At(es, n).grants
    ensures exists i :: 0 <= i < n && Issues(es, i, token)
  {
    var i := LiveIndex(es, n, token);
  }

  // ---------- requests ----------

  /** Event `j` settles request `id`, if it is still pending then.  A resolution
      always settles; a look-up does only from the expiry time on. */
  predicate Settles(e: Event, id: string, expiresAt: real) {
    match e
    case Resolve(i, _, _, _) => i == id
    case Get(i, at) => i == id && at >= expiresAt
    case _ => false
  }

  function Verdict(e: Event): Status {
    match e
    case Resolve(_, accepted, _, _) => if accepted then Accepted else Declined
    case _ => Expired
  }

  ghost predicate UnsettledBetween(es: seq<Event>, c: nat, n: nat)
    requires c < n <= |es| && es[c].Create?
  {
    forall j :: c < j < n ==> !Settles(es[j], es[c].id, es[c].at + TTL)
  }

  function Asked(e: Event): Request
    requires e.Create?
  {
    Request(e.id, e.filename, e.size, e.client, e.folder, Pending, e.at, e.at + TTL, "")
  }

  lemma {:induction false} PendingUntilSettled(es: seq<Event>, c: nat, n: nat)
    requires c < n <= |es| && es[c].Create? && FreshValues(es) && UnsettledBetween(es, c, n)
    ensures es[c].id in At(es, n).requests && At(es, n).requests[es[c].id] == Asked(es[c])
    decreases n
  {
    if c < n - 1 {
      PendingUntilSettled(es, c, n - 1);
      assert !Settles(es[n - 1], es[c].id, es[c].at + TTL);
    }
  }

  /** A pending request as it was asked for, with two minutes to settle it. */
  lemma AskedTerms(e: Event)
    requires e.Create?
    ensures var r := Asked(e);
            && r.id == e.id && r.filename == e.filename && r.size == e.size && r.client == e.client
            && r.folder == e.folder && r.status == Pending && r.createdAt == e.at && r.expiresAt == e.at + 120.0
            && r.token == ""
  {
  }

  /** Which events settle a request, and how. */
  lemma SettlementTerms(c: Event, e: Event)
    requires c.Create?
    ensures Settles(e, c.id, c.at + TTL) <==>
            (e.Resolve? && e.id == c.id) || (e.Get? && e.id == c.id && e.at >= c.at + 120.0)
    ensures e.Resolve? && e.accepted ==> Verdict(e) == Accepted
    ensures e.Resolve? && !e.accepted ==> Verdict(e) == Declined
    ensures e.Get? ==> Verdict(e) == Expired
  {
  }

  /** The first settling event decides a request for good: its status, its token
      and every other field are then the same at every later point of the run. */
  lemma {:induction false} FirstSettlementIsFinal(es: seq<Event>, c: nat, d: nat, n: nat)
    requires c < d < n <= |es| && es[c].Create? && FreshValues(es)
    requires UnsettledBetween(es, c, d) && Settles(es[d], es[c].id, es[c].at + TTL)
    ensures es[c].id in At(es, n).requests
    ensures At(es, n).requests[es[c].id] ==
            Asked(es[c]).(status := Verdict(es[d]),
                          token := if Verdict(es[d]) == Accepted then es[d].token else "")
    decreases n
  {
    if d == n - 1 {
      PendingUntilSettled(es, c, d);
    } else {
      FirstSettlementIsFinal(es, c, d, n - 1);
    }
  }

  lemma {:induction false} RequestWasCreated(es: seq<Event>, n: nat, id: string) returns (c: nat)
    requires n <= |es| && id in At(es, n).requests
    ensures c < n && es[c].Create? && es[c].id == id
  {
    if es[n - 1].Create? && es[n - 1].id == id {
      c := n - 1;
    } else {
      c := RequestWasCreated(es, n - 1, id);
    }
  }

  lemma {:induction false} FirstSettlement(es: seq<Event>, c: nat, n: nat) returns (d: nat)
    requires c < n <= |es| && es[c].Create? && !UnsettledBetween(es, c, n)
    ensures c < d < n && UnsettledBetween(es, c, d) && Settles(es[d], es[c].id, es[c].at + TTL)
    decreases n
  {
    if c == n - 1 || UnsettledBetween(es, c, n - 1) {
      d := n - 1;
    } else {
      d := FirstSettlement(es, c, n - 1);
    }
  }

  /** A status leaves "pending" at most once: whatever happens after. */
  lemma SettledNeverChanges(es: seq<Event>, n: nat, m: nat, id: string)
    requires n <= m <= |es| && FreshValues(es)
    requires id in At(es, n).requests && At(es, n).requests[id].status != Pending
    ensures id in At(es, m).requests && At(es, m).requests[id] == At(es, n).requests[id]
  {
    var c := RequestWasCreated(es, n, id);
    if UnsettledBetween(es, c, n) {
      PendingUntilSettled(es, c, n);
    } else {
      var d := FirstSettlement(es, c, n);
      FirstSettlementIsFinal(es, c, d, n);
      FirstSettlementIsFinal(es, c, d, m);
    }
  }

  /** An accepted request carries a token that its own settlement put into
      circulation, for its own filename and size. */
  lemma AcceptedTokenWasIssued(es: seq<Event>, n: nat, id: string) returns (d: nat)
    requires n <= |es| && FreshValues(es)
    requires id in At(es, n).requests && At(es, n).requests[id].status == Accepted
    ensures d < n && es[d].Resolve? && es[d].id == id
    ensures var r := At(es, n).requests[id];
            && r.token != ""
            && Issues(es, d, r.token)
            && Offer(es, d, r.token).filename == r.filename
            && Offer(es, d, r.token).size == r.size
            && Offer(es, d, r.token).expiresAt == es[d].at + TTL
  {
    var c := RequestWasCreated(es, n, id);
    if UnsettledBetween(es, c, n) {
      PendingUntilSettled(es, c, n);
      assert false;
    } else {
      d := FirstSettlement(es, c, n);
      FirstSettlementIsFinal(es, c, d, n);
      PendingUntilSettled(es, c, d);
      assert Draws(es[d]);
    }
  }

  lemma AcceptedTokensDiffer(es: seq<Event>, n: nat, id: string, id': string)
    requires n <= |es| && FreshValues(es) && id != id'
    requires id in At(es, n).requests && At(es, n).requests[id].status == Accepted
    requires id' in At(es, n).requests && At(es, n).requests[id'].status == Accepted
    ensures At(es, n).requests[id].token != At(es, n).requests[id'].token
  {
    var d := AcceptedTokenWasIssued(es, n, id);
    var d' := AcceptedTokenWasIssued(es, n, id');
    if At(es, n).requests[id].token == At(es, n).requests[id'].token {
      IssuedOnce(es, d, d', At(es, n).requests[id].token);
    }
  }

  /** The time limit of a request binds only through look-ups: a resolution never
      reads it.  So an acceptance that comes any time after the limit still
      succeeds, exactly when no earlier event settled the request. */
  lemma AcceptedIffFirst(es: seq<Event>, c: nat, d: nat)
    requires c < d < |es| && es[c].Create? && FreshValues(es)
    requires es[d].Resolve? && es[d].id == es[c].id && es[d].accepted
    ensures Issues(es, d, es[d].token) <==> UnsettledBetween(es, c, d)
  {
    if UnsettledBetween(es, c, d) {
      PendingUntilSettled(es, c, d);
    } else {
      var first := FirstSettlement(es, c, d);
      FirstSettlementIsFinal(es, c, first, d);
    }
  }

  /** An acceptance long after the two minutes yields a grant that is redeemed in its
      own two minutes, and not at their end. */
  lemma LateAcceptanceExample()
    ensures var es := [Create("r", "a.txt", 7, "", "/incoming", 0.0),
                       Resolve("r", true, "t", 1000.0),
                       Consume("t", "a.txt", 7, 1119.0)];
            && Asked(es[0]).expiresAt == 120.0 && Wins(es, 2)
            && !Wins(es[..2] + [Consume("t", "a.txt", 7, 1120.0)], 2)
  {
    var es := [Create("r", "a.txt", 7, "", "/incoming", 0.0),
               Resolve("r", true, "t", 1000.0),
               Consume("t", "a.txt", 7, 1119.0)];
    assert At(es, 1) == Step(At(es, 0), es[0]);
    assert At(es, 2) == Step(At(es, 1), es[1]);
    assert At(es, 2).grants["t"] == Grant("a.txt", 7, "", "/incoming", 1120.0);
    var late := es[..2] + [Consume("t", "a.txt", 7, 1120.0)];
    assert At(late, 1) == Step(At(late, 0), late[0]);
    assert At(late, 2) == Step(At(late, 1), late[1]);
  }

  // ---------- the module's state and functions ----------

  class UploadDesk {
    var pendingRequests: map<string, Request>
    var grants: map<string, Grant>

    function Now(): State
      reads this
    {
      State(pendingRequests, grants)
    }

    constructor ()
      ensures Now() == At([], 0)
    {
      pendingRequests, grants := map[], map[];
    }

    /** `create_public_upload_request` */
    method CreateRequest(filename: string, size: int, client: string, folder: string, requestId: string, now: real)
      returns (copy: Request)
      modifies this
      ensures Now() == Step(old(Now()), Create(requestId, filename, size, client, folder, now))
      ensures requestId in pendingRequests && copy == pendingRequests[requestId]
      ensures copy.id == requestId && copy.filename == filename && copy.size == size && copy.client == client
      ensures copy.folder == folder && copy.status == Pending && copy.token == ""
      ensures copy.createdAt == now && copy.expiresAt == now + 120.0
      ensures pendingRequests == old(pendingRequests)[requestId := copy] && grants == old(grants)
    {
      copy := Request(requestId, filename, size, client, folder, Pending, now, now + TTL, "");
      pendingRequests := pendingRequests[requestId := copy];
    }

    /** `issue_public_upload_grant` */
    method IssueGrant(filename: string, size: int, client: string, folder: string, token: string, now: real)
      modifies this`grants
      ensures Now() == Step(old(Now()), Issue(token, filename, size, client, folder, now))
      ensures grants == old(grants)[token := Grant(filename, size, client, folder, now + 120.0)]
    {
      grants := grants[token := Grant(filename, size, client, folder, now + TTL)];
    }

    /** `resolve_public_upload_request` */
    method ResolveRequest(requestId: string, accepted: bool, token: string, now: real)
      returns (copy: Option<Request>)
      modifies this
      ensures Now() == Step(old(Now()), Resolve(requestId, accepted, token, now))
      ensures copy == if requestId in old(pendingRequests) then Some(pendingRequests[requestId]) else None
      ensures requestId !in old(pendingRequests) || old(pendingRequests)[requestId].status != Pending ==>
                pendingRequests == old(pendingRequests) && grants == old(grants)
      ensures requestId in old(pendingRequests) && old(pendingRequests)[requestId].status == Pending ==>
                var r := old(pendingRequests)[requestId];
                if accepted
                then pendingRequests == old(pendingRequests)[requestId := r.(status := Accepted, token := token)]
                     && grants == old(grants)[token := Grant(r.filename, r.size, r.client, r.folder, now + 120.0)]
                else pendingRequests == old(pendingRequests)[requestId := r.(status := Declined)]
                     && grants == old(grants)
    {
      if requestId !in pendingRequests {
        return None;
      }
      var request := pendingRequests[requestId];
      if request.status != Pending {
        return Some(request);
      }
      request := request.(status := if accepted then Accepted else Declined);
      if accepted {
        IssueGrant(request.filename, request.size, request.client, request.folder, token, now);
        request := request.(token := token);
      }
      pendingRequests := pendingRequests[requestId := request];
      copy := Some(request);
    }

    /** `get_public_upload_request` */
    method GetRequest(requestId: string, now: real) returns (copy: Option<Request>)
      modifies this
      ensures Now() == Step(old(Now()), Get(requestId, now))
      ensures copy == if requestId in old(pendingRequests) then Some(pendingRequests[requestId]) else None
      ensures grants == old(grants)
      ensures requestId in old(pendingRequests) ==>
                var r := old(pendingRequests)[requestId];
                pendingRequests == if r.status == Pending && now >= r.expiresAt
                                   then old(pendingRequests)[requestId := r.(status := Expired)]
                                   else old(pendingRequests)
    {
      if requestId !in pendingRequests {
        return None;
      }
      var request := pendingRequests[requestId];
      if request.status == Pending && request.expiresAt <= now {
        request := request.(status := Expired);
        pendingRequests := pendingRequests[requestId := request];
      }
      copy := Some(request);
    }

    /** The loop that pops the expired tokens collected before it. */
    method PopExpired(now: real)
      modifies this`grants
      ensures grants == Unexpired(old(grants), now)
    {
      var expired := set t | t in grants && grants[t].expiresAt <= now;
      grants := PopAll(grants, expired);
    }

    /** `consume_public_upload_grant` */
    method ConsumeGrant(token: string, filename: string, size: int, now: real) returns (ok: bool)
      modifies this`grants
      ensures Now() == Step(old(Now()), Consume(token, filename, size, now))
      ensures ok <==> token in old(grants) && now < old(grants)[token].expiresAt
                      && old(grants)[token].filename == filename && old(grants)[token].size == size
      ensures forall t :: t in grants <==> t in old(grants) && now < old(grants)[t].expiresAt && !(ok && t == token)
      ensures forall t :: t in grants ==> grants[t] == old(grants)[t]
    {
      PopExpired(now);
      if token !in grants {
        return false;
      }
      var grant := grants[token];
      if grant.filename != filename || grant.size != size {
        return false;
      }
      grants := grants - {token};
      ok := true;
    }
  }
}
