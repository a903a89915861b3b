// Trusted devices and migration challenges of src/state.py.
//
// `hash` stands for SHA-256 over UTF-8.  The one thing assumed of it is that it
// does not collide and never yields the empty string; it is a parameter of every
// statement.
module TrustedDevices {
  import opened PyText
  import opened Wrappers
  import WritePairing

  /** An entry of TRUSTED_DEVICES. Configurations written by older versions hold
      values other than records; those never verify. */
  datatype Device = Legacy | Paired(pairedAt: real, credentialHash: string)

  ghost predicate IdealHash(hash: string -> string) {
    && (exists inverse: string -> string :: Inverts(inverse, hash))
    && (forall x :: hash(x) != "")
  }

  ghost predicate Inverts(inverse: string -> string, hash: string -> string) {
    forall x :: inverse(hash(x)) == x
  }

  lemma SameHashIff(hash: string -> string, x: string, y: string)
    requires IdealHash(hash)
    ensures hash(x) == hash(y) <==> x == y
  {
    var inverse: string -> string :| Inverts(inverse, hash);
    assert inverse(hash(x)) == x && inverse(hash(y)) == y;
  }

  // ---------- one step ----------

  /** A registration is recorded after its pairing code was accepted. */
  datatype Event =
    | Register(id: string, credential: string, at: real)
    | Revoke(id: string)
    | Migrate(previous: string, current: string)

  predicate Moves(devices: map<string, Device>, previous: string, current: string) {
    && StripSpace(previous) != "" && StripSpace(current) != ""
    && StripSpace(previous) != StripSpace(current)
    && StripSpace(previous) in devices
  }

  function Step(devices: map<string, Device>, e: Event, hash: string -> string): map<string, Device> {
    match e
    case Register(id, credential, at) =>
      if StripSpace(id) == "" then devices
      else devices[StripSpace(id) := Paired(at, hash(credential))]
    case Revoke(id) => if StripSpace(id) == "" then devices else devices - {StripSpace(id)}
    case Migrate(previous, current) =>
      if !Moves(devices, previous, current) then devices
      else
        var from, to := StripSpace(previous), StripSpace(current);
        var rest := devices - {from};
        if to in rest then rest else rest[to := devices[from]]
  }

  /** TRUSTED_DEVICES after the first `n` events, starting from a loaded table. */
  function At(loaded: map<string, Device>, es: seq<Event>, n: nat, hash: string -> string): map<string, Device>
    requires n <= |es|
  {
    if n == 0 then loaded else Step(At(loaded, es, n - 1, hash), es[n - 1], hash)
  }

  /** The answer of `verify_device_credential`. */
  predicate Verifies(devices: map<string, Device>, id: string, credential: string, hash: string -> string) {
    && StripSpace(id) != "" && credential != ""
    && StripSpace(id) in devices
    && devices[StripSpace(id)].Paired?
    && devices[StripSpace(id)].credentialHash != ""
    && devices[StripSpace(id)].credentialHash == hash(credential)
  }

  // ---------- what the event sequence says ----------

  predicate Registered(loaded: set<string>, es: seq<Event>, n: nat, id: string)
    requires n <= |es|
  {
    if n == 0 then id in loaded
    else
      match es[n - 1]
      case Register(x, _, _) => (id != "" && id == StripSpace(x)) || Registered(loaded, es, n - 1, id)
      case Revoke(x) => (id == "" || id != StripSpace(x)) && Registered(loaded, es, n - 1, id)
      case Migrate(p, c) =>
        if !Migrates(loaded, es, n - 1) then Registered(loaded, es, n - 1, id)
        else id == StripSpace(c) || (id != StripSpace(p) && Registered(loaded, es, n - 1, id))
  }

  /** Event `j` is a migration that takes effect. */
  predicate Migrates(loaded: set<string>, es: seq<Event>, j: nat)
    requires j < |es|
  {
    match es[j]
    case Migrate(p, c) =>
      && StripSpace(p) != "" && StripSpace(c) != "" && StripSpace(p) != StripSpace(c)
      && Registered(loaded, es, j, StripSpace(p))
    case _ => false
  }

  /** Where the binding of an id after one event comes from: the event made it, there
      is none, or it is the one some id had before. */
  datatype Cause = Made | Gone | Had(holder: string)

  function CauseOf(loaded: set<string>, es: seq<Event>, j: nat, id: string): Cause
    requires j < |es|
  {
    match es[j]
    case Register(x, _, _) => if id != "" && id == StripSpace(x) then Made else Had(id)
    case Revoke(x) => if id != "" && id == StripSpace(x) then Gone else Had(id)
    case Migrate(p, c) =>
      if !Migrates(loaded, es, j) then Had(id)
      else if id == StripSpace(p) then Gone
      else if id == StripSpace(c) && !Registered(loaded, es, j, id) then Had(StripSpace(p))
      else Had(id)
  }

  /** Where a binding comes from in the end. */
  datatype Source = Registration(i: nat) | FromTable(holder: string) | Nowhere

  /** Follows the binding of an id back through migrations onto ids that were free, and
      not past a revocation: to the registration that made it, or to the id that held
      it in the loaded table. */
  function Origin(loaded: set<string>, es: seq<Event>, n: nat, id: string): (o: Source)
    requires n <= |es|
    ensures o.Registration? ==> o.i < n && es[o.i].Register?
    ensures o.FromTable? ==> o.holder in loaded
  {
    if n == 0 then (if id in loaded then FromTable(id) else Nowhere)
    else
      match CauseOf(loaded, es, n - 1, id)
      case Made => Registration(n - 1)
      case Gone => Nowhere
      case Had(holder) => Origin(loaded, es, n - 1, holder)
  }

  /** The table holds exactly the ids the events leave registered. */
  ghost predicate Agree(devices: map<string, Device>, loaded: set<string>, es: seq<Event>, n: nat)
    requires n <= |es|
  {
    forall id :: id in devices <==> Registered(loaded, es, n, id)
  }

  lemma RegisteredStep(before: map<string, Device>, loaded: set<string>, es: seq<Event>, j: nat, id: string,
                       hash: string -> string)
    requires j < |es| && Agree(before, loaded, es, j)
    ensures id in Step(before, es[j], hash) <==> Registered(loaded, es, j + 1, id)
  {
    assert id in before <==> Registered(loaded, es, j, id);
  }

  lemma AgreeStep(before: map<string, Device>, loaded: set<string>, es: seq<Event>, j: nat, hash: string -> string)
    requires j < |es| && Agree(before, loaded, es, j)
    ensures Agree(Step(before, es[j], hash), loaded, es, j + 1)
  {
    forall id
      ensures id in Step(before, es[j], hash) <==> Registered(loaded, es, j + 1, id)
    {
      RegisteredStep(before, loaded, es, j, id, hash);
    }
  }

  lemma {:induction false} AgreeAlways(loaded: map<string, Device>, es: seq<Event>, n: nat, hash: string -> string)
    requires n <= |es|
    ensures Agree(At(loaded, es, n, hash), loaded.Keys, es, n)
  {
    if n > 0 {
      AgreeAlways(loaded, es, n - 1, hash);
      AgreeStep(At(loaded, es, n - 1, hash), loaded.Keys, es, n - 1, hash);
    }
  }

  lemma RegisteredIffStored(loaded: map<string, Device>, es: seq<Event>, n: nat, id: string, hash: string -> string)
    requires n <= |es|
    ensures id in At(loaded, es, n, hash) <==> Registered(loaded.Keys, es, n, id)
  {
    AgreeAlways(loaded, es, n, hash);
  }

  function RecordOfId(devices: map<string, Device>, id: string): Option<Device> {
    if id in devices then Some(devices[id]) else None
  }

  /** The causes describe what the step does to the stored records. */
  lemma CauseIsStep(before: map<string, Device>, loaded: set<string>, es: seq<Event>, j: nat, id: string,
                    hash: string -> string)
    requires j < |es| && Agree(before, loaded, es, j)
    ensures var after := Step(before, es[j], hash);
            match CauseOf(loaded, es, j, id)
            case Made => es[j].Register? && RecordOfId(after, id) == Some(Paired(es[j].at, hash(es[j].credential)))
            case Gone => RecordOfId(after, id) == None
            case Had(holder) => RecordOfId(after, id) == RecordOfId(before, holder)
  {
  }

  /** The record an origin stands for. */
  function RecordFrom(o: Source, loaded: map<string, Device>, es: seq<Event>, hash: string -> string): Option<Device>
    requires o.Registration? ==> o.i < |es| && es[o.i].Register?
    requires o.FromTable? ==> o.holder in loaded
  {
    match o
    case Registration(i) => Some(Paired(es[i].at, hash(es[i].credential)))
    case FromTable(holder) => Some(loaded[holder])
    case Nowhere => None
  }

  lemma CauseAt(loaded: map<string, Device>, es: seq<Event>, j: nat, id: string, hash: string -> string)
    requires j < |es|
    ensures RecordOfId(At(loaded, es, j + 1, hash), id) ==
            match CauseOf(loaded.Keys, es, j, id)
            case Made => if es[j].Register? then Some(Paired(es[j].at, hash(es[j].credential))) else None
            case Gone => None
            case Had(holder) => RecordOfId(At(loaded, es, j, hash), holder)
  {
    AgreeAlways(loaded, es, j, hash);
    CauseIsStep(At(loaded, es, j, hash), loaded.Keys, es, j, id, hash);
  }

  /** The stored record of an id is the one of its origin. */
  lemma {:induction false} StoredRecord(loaded: map<string, Device>, es: seq<Event>, n: nat,
                                        id: string, hash: string -> string)
    requires n <= |es|
    ensures RecordOfId(At(loaded, es, n, hash), id) == RecordFrom(Origin(loaded.Keys, es, n, id), loaded, es, hash)
    decreases n
  {
    if n > 0 {
      CauseAt(loaded, es, n - 1, id, hash);
      var cause := CauseOf(loaded.Keys, es, n - 1, id);
      if cause.Had? {
        StoredRecord(loaded, es, n - 1, cause.holder, hash);
      }
    }
  }

  /** The credential that was issued with a binding. */
  predicate IssuedWith(o: Source, loaded: map<string, Device>, es: seq<Event>, credential: string,
                       hash: string -> string)
    requires o.Registration? ==> o.i < |es| && es[o.i].Register?
    requires o.FromTable? ==> o.holder in loaded
  {
    match o
    case Registration(i) => es[i].credential == credential
    case FromTable(holder) => loaded[holder].Paired? && loaded[holder].credentialHash == hash(credential)
    case Nowhere => false
  }

  /** The exact answer of a credential check after any run, from any loaded table: the
      id's binding goes back to a registration that issued this credential, or to an
      entry of the loaded table that was stored with its hash. */
  lemma VerifiesIff(loaded: map<string, Device>, es: seq<Event>, n: nat,
                    id: string, credential: string, hash: string -> string)
    requires n <= |es| && IdealHash(hash)
    ensures Verifies(At(loaded, es, n, hash), id, credential, hash) <==>
            && StripSpace(id) != "" && credential != ""
            && IssuedWith(Origin(loaded.Keys, es, n, StripSpace(id)), loaded, es, credential, hash)
  {
    var clean := StripSpace(id);
    StoredRecord(loaded, es, n, clean, hash);
    var origin := Origin(loaded.Keys, es, n, clean);
    if origin.Registration? {
      SameHashIff(hash, es[origin.i].credential, credential);
    }
  }

  /** Migration moves a binding and never copies it: two ids never share an origin. */
  lemma {:induction false} OriginsDiffer(loaded: set<string>, es: seq<Event>, n: nat, id: string, id': string)
    requires n <= |es| && id != id' && Origin(loaded, es, n, id) != Nowhere
    ensures Origin(loaded, es, n, id) != Origin(loaded, es, n, id')
    decreases n
  {
    if n > 0 {
      var cause, cause' := CauseOf(loaded, es, n - 1, id), CauseOf(loaded, es, n - 1, id');
      if cause.Had? && cause'.Had? {
        OriginsDiffer(loaded, es, n - 1, cause.holder, cause'.holder);
      }
    }
  }

  /** Credentials are drawn at random and never repeat, within a run or from the runs
      that filled the loaded table. */
  ghost predicate FreshCredentials(loaded: map<string, Device>, es: seq<Event>, hash: string -> string) {
    && (forall i, j :: 0 <= i < j < |es| && es[i].Register? && es[j].Register? ==>
          es[i].credential != es[j].credential)
    && (forall i, id :: 0 <= i < |es| && es[i].Register? && id in loaded && loaded[id].Paired? ==>
          loaded[id].credentialHash != hash(es[i].credential))
    && (forall id, id' :: id in loaded && id' in loaded && id != id' && loaded[id].Paired? && loaded[id'].Paired? ==>
          loaded[id].credentialHash != loaded[id'].credentialHash)
  }

  /** Safety over whole runs: a credential opens at most one device at a time. */
  lemma CredentialOpensOneDevice(loaded: map<string, Device>, es: seq<Event>, n: nat,
                                 id: string, id': string, credential: string, hash: string -> string)
    requires n <= |es| && IdealHash(hash) && FreshCredentials(loaded, es, hash)
    requires Verifies(At(loaded, es, n, hash), id, credential, hash)
    requires Verifies(At(loaded, es, n, hash), id', credential, hash)
    ensures StripSpace(id) == StripSpace(id')
  {
    VerifiesIff(loaded, es, n, id, credential, hash);
    VerifiesIff(loaded, es, n, id', credential, hash);
    OneSource(loaded, es, Origin(loaded.Keys, es, n, StripSpace(id)), Origin(loaded.Keys, es, n, StripSpace(id')),
              credential, hash);
    if StripSpace(id) != StripSpace(id') {
      OriginsDiffer(loaded.Keys, es, n, StripSpace(id), StripSpace(id'));
      assert false;
    }
  }

  lemma OneSource(loaded: map<string, Device>, es: seq<Event>, o: Source, o': Source, credential: string,
                  hash: string -> string)
    requires FreshCredentials(loaded, es, hash)
    requires o.Registration? ==> o.i < |es| && es[o.i].Register?
    requires o.FromTable? ==> o.holder in loaded
    requires o'.Registration? ==> o'.i < |es| && es[o'.i].Register?
    requires o'.FromTable? ==> o'.holder in loaded
    requires IssuedWith(o, loaded, es, credential, hash) && IssuedWith(o', loaded, es, credential, hash)
    ensures o == o'
  {
  }

  /** A migration onto a free id hands the binding over and keeps the number of
      devices; onto a registered id it keeps the target's binding and drops one. */
  lemma MigrationConserves(devices: map<string, Device>, previous: string, current: string,
                           credential: string, hash: string -> string)
    requires Moves(devices, previous, current)
    ensures var after := Step(devices, Migrate(previous, current), hash);
            var free := StripSpace(current) !in devices;
            && !Verifies(after, previous, credential, hash)
            && (Verifies(after, current, credential, hash) <==>
                  Verifies(devices, if free then previous else current, credential, hash))
            && |after| == |devices| - (if free then 0 else 1)
            && forall id :: StripSpace(id) != StripSpace(previous) && StripSpace(id) != StripSpace(current) ==>
                              (Verifies(after, id, credential, hash) <==> Verifies(devices, id, credential, hash))
  {
    var from, to := StripSpace(previous), StripSpace(current);
    SizeAfterMove(devices, from, to, devices[from]);
  }

  lemma SizeAfterMove(devices: map<string, Device>, from: string, to: string, record: Device)
    requires from in devices && from != to
    ensures |(devices - {from})[to := record]| == |devices| - if to in devices then 1 else 0
    ensures |devices - {from}| == |devices| - 1
  {
    var rest := devices - {from};
    SizeIsKeys(devices);
    SizeIsKeys(rest);
    SizeIsKeys(rest[to := record]);
    assert devices.Keys == rest.Keys + {from};
    assert rest[to := record].Keys == rest.Keys + {to};
  }

  lemma SizeIsKeys(devices: map<string, Device>)
    ensures |devices| == |devices.Keys|
  {
  }

  // ---------- migration challenges ----------

  const CHALLENGE_TTL := 60.0

  datatype Challenge = Challenge(previousId: string, currentId: string, expiresAt: real)

  datatype ChallengeEvent =
    | Issue(challenge: string, previousId: string, currentId: string, at: real)
    | Present(challenge: string, previousId: string, currentId: string, at: real)

  function StepChallenges(cs: map<string, Challenge>, e: ChallengeEvent, hash: string -> string)
    : map<string, Challenge>
  {
    match e
    case Issue(challenge, p, c, at) => map[hash(challenge) := Challenge(p, c, at + CHALLENGE_TTL)]
    case Present(challenge, _, _, _) => cs - {hash(challenge)}
  }

  function ChallengesAt(es: seq<ChallengeEvent>, n: nat, hash: string -> string): map<string, Challenge>
    requires n <= |es|
  {
    if n == 0 then map[] else StepChallenges(ChallengesAt(es, n - 1, hash), es[n - 1], hash)
  }

  /** `hmac.compare_digest` on two texts. */
  function ComparesEqual(a: string, b: string): Result<bool> {
    if IsAscii(a) && IsAscii(b) then Ok(a == b) else Err(TypeError)
  }

  /** The answer of `consume_migration_challenge`, from left to right. */
  function Answer(record: Option<Challenge>, previousId: string, currentId: string, now: real): Result<bool> {
    match record
    case None => Ok(false)
    case Some(r) =>
      if r.expiresAt < now then Ok(false)
      else
        match ComparesEqual(r.previousId, previousId)
        case Ok(true) => ComparesEqual(r.currentId, currentId)
        case other => other
  }

  function Popped(cs: map<string, Challenge>, key: string): Option<Challenge> {
    if key in cs then Some(cs[key]) else None
  }

  function AnswerAt(es: seq<ChallengeEvent>, j: nat, hash: string -> string): Result<bool>
    requires j < |es| && es[j].Present?
  {
    Answer(Popped(ChallengesAt(es, j, hash), hash(es[j].challenge)), es[j].previousId, es[j].currentId, es[j].at)
  }

  /** Challenge `i` is the newest one when event `n` happens, and nobody presented it. */
  ghost predicate Outstanding(es: seq<ChallengeEvent>, i: nat, n: nat) {
    && i < n <= |es| && es[i].Issue?
    && forall k :: i < k < n ==> es[k].Present? && es[k].challenge != es[i].challenge
  }

  function Newest(es: seq<ChallengeEvent>, n: nat): (i: Option<nat>)
    requires n <= |es|
    ensures i.Some? ==> i.value < n && es[i.value].Issue?
  {
    if n == 0 then None
    else if es[n - 1].Issue? then Some(n - 1)
    else
      match Newest(es, n - 1)
      case Some(i) => if es[i].challenge == es[n - 1].challenge then None else Some(i)
      case None => None
  }

  lemma {:induction false} NewestIffOutstanding(es: seq<ChallengeEvent>, i: nat, n: nat)
    requires n <= |es|
    ensures Newest(es, n) == Some(i) <==> Outstanding(es, i, n)
  {
    if n > 0 && i < n - 1 {
      NewestIffOutstanding(es, i, n - 1);
      if Outstanding(es, i, n) {
        assert es[n - 1].Present? && es[n - 1].challenge != es[i].challenge;
      }
    }
  }

  function RecordOf(e: ChallengeEvent): Challenge
    requires e.Issue?
  {
    Challenge(e.previousId, e.currentId, e.at + CHALLENGE_TTL)
  }

  function Table(es: seq<ChallengeEvent>, newest: Option<nat>, hash: string -> string): map<string, Challenge>
    requires newest.Some? ==> newest.value < |es| && es[newest.value].Issue?
  {
    match newest
    case Some(i) => map[hash(es[i].challenge) := RecordOf(es[i])]
    case None => map[]
  }

  /** The table is empty or holds exactly the one outstanding challenge. */
  lemma {:induction false} AtMostOneOutstanding(es: seq<ChallengeEvent>, n: nat, hash: string -> string)
    requires n <= |es| && IdealHash(hash)
    ensures ChallengesAt(es, n, hash) == Table(es, Newest(es, n), hash)
  {
    if n > 0 {
      AtMostOneOutstanding(es, n - 1, hash);
      NextOnTable(es, n, hash);
    }
  }

  lemma NextOnTable(es: seq<ChallengeEvent>, n: nat, hash: string -> string)
    requires 0 < n <= |es| && IdealHash(hash)
    ensures StepChallenges(Table(es, Newest(es, n - 1), hash), es[n - 1], hash) == Table(es, Newest(es, n), hash)
  {
    var e := es[n - 1];
    var newest := Newest(es, n - 1);
    if e.Present? {
      PresentOnTable(es, newest, e, hash);
    } else {
      IssueOnTable(es, n - 1, Table(es, newest, hash), hash);
    }
  }

  lemma IssueOnTable(es: seq<ChallengeEvent>, i: nat, cs: map<string, Challenge>, hash: string -> string)
    requires i < |es| && es[i].Issue?
    ensures StepChallenges(cs, es[i], hash) == Table(es, Some(i), hash)
  {
  }

  lemma PresentOnTable(es: seq<ChallengeEvent>, newest: Option<nat>, e: ChallengeEvent, hash: string -> string)
    requires newest.Some? ==> newest.value < |es| && es[newest.value].Issue?
    requires IdealHash(hash) && e.Present?
    ensures StepChallenges(Table(es, newest, hash), e, hash) ==
            if newest.Some? && es[newest.value].challenge == e.challenge then map[] else Table(es, newest, hash)
  {
    if newest.Some? {
      SameHashIff(hash, es[newest.value].challenge, e.challenge);
    }
  }

  /** The exact answer: true precisely for the newest challenge, presented for the
      first time, no later than its deadline, with the same ordered pair of ids
      (ids beyond ASCII cannot be compared and raise). */
  lemma PresentIff(es: seq<ChallengeEvent>, j: nat, hash: string -> string)
    requires j < |es| && es[j].Present? && IdealHash(hash)
    ensures AnswerAt(es, j, hash) == Ok(true) <==>
            exists i :: 0 <= i < j && Outstanding(es, i, j)
                        && es[i].challenge == es[j].challenge
                        && es[j].at <= es[i].at + 60.0
                        && es[i].previousId == es[j].previousId && es[i].currentId == es[j].currentId
                        && IsAscii(es[j].previousId) && IsAscii(es[j].currentId)
  {
    AtMostOneOutstanding(es, j, hash);
    var newest := Newest(es, j);
    if newest.Some? {
      NewestIffOutstanding(es, newest.value, j);
      AnswerOnTable(es, newest.value, es[j], hash);
    }
    forall i | 0 <= i < j && Outstanding(es, i, j)
      ensures newest == Some(i)
    {
      NewestIffOutstanding(es, i, j);
    }
  }

  lemma AnswerOnTable(es: seq<ChallengeEvent>, i: nat, e: ChallengeEvent, hash: string -> string)
    requires i < |es| && es[i].Issue? && e.Present? && IdealHash(hash)
    ensures Answer(Popped(Table(es, Some(i), hash), hash(e.challenge)), e.previousId, e.currentId, e.at) == Ok(true)
            <==>
            && es[i].challenge == e.challenge && e.at <= es[i].at + 60.0
            && es[i].previousId == e.previousId && es[i].currentId == e.currentId
            && IsAscii(e.previousId) && IsAscii(e.currentId)
  {
    SameHashIff(hash, es[i].challenge, e.challenge);
  }

  /** Presenting a challenge spends it, whatever the ids and whatever the answer. */
  lemma PresentSpends(es: seq<ChallengeEvent>, j: nat, k: nat, hash: string -> string)
    requires j < k < |es| && es[j].Present? && es[k].Present? && es[j].challenge == es[k].challenge
    requires forall m :: j < m < k ==> es[m].Present?
    requires IdealHash(hash)
    ensures AnswerAt(es, k, hash) == Ok(false)
  {
    AtMostOneOutstanding(es, k, hash);
    var newest := Newest(es, k);
    if newest.Some? {
      NewestIffOutstanding(es, newest.value, k);
      NotTheNewest(es, j, newest.value, k);
      OtherAnswer(es, newest.value, es[k], hash);
    }
  }

  lemma NotTheNewest(es: seq<ChallengeEvent>, j: nat, i: nat, k: nat)
    requires j < k <= |es| && es[j].Present? && Outstanding(es, i, k)
    requires forall m :: j < m < k ==> es[m].Present?
    ensures es[i].challenge != es[j].challenge
  {
    assert es[i].Issue?;
  }

  lemma OtherAnswer(es: seq<ChallengeEvent>, i: nat, e: ChallengeEvent, hash: string -> string)
    requires i < |es| && es[i].Issue? && e.Present? && IdealHash(hash) && es[i].challenge != e.challenge
    ensures Answer(Popped(Table(es, Some(i), hash), hash(e.challenge)), e.previousId, e.currentId, e.at) == Ok(false)
  {
    SameHashIff(hash, es[i].challenge, e.challenge);
  }

  // ---------- the module's state and functions ----------

  /** What `register_device` demands: a device id, and the displayed code or else a
      valid authenticator code. `totp` is the answer of `verify_totp` for `code`;
      it is not asked for when comparing the displayed code raises. */
  predicate MayRegister(s: WritePairing.State, deviceId: string, code: string, totp: Result<bool>, now: real) {
    && StripSpace(deviceId) != ""
    && !WritePairing.Raises(s, code, now)
    && (WritePairing.Redeems(s, WritePairing.ConsumeOtp(code, now)) || totp == Ok(true))
  }

  /** The same in the fields: the displayed code, typed with or without blanks around it
      and still valid, or else the authenticator's answer; a blank id is refused first. */
  lemma MayRegisterIff(s: WritePairing.State, deviceId: string, code: string, totp: Result<bool>, now: real)
    ensures var shown := s.otp != "" && now <= s.otpExpiresAt;
            MayRegister(s, deviceId, code, totp, now) <==>
            && (exists i :: 0 <= i < |deviceId| && !IsSpace(deviceId[i]))
            && (shown ==> IsAscii(StripSpace(code)) && IsAscii(s.otp))
            && ((shown && StripSpace(code) == s.otp) || totp == Ok(true))
  {
    var from, to := StripShape(deviceId, IsSpace);
    if StripSpace(deviceId) != "" {
      assert !IsSpace(deviceId[from]) by {
        assert StripSpace(deviceId)[0] == deviceId[from];
      }
    }
  }

  class DeviceTrust {
    var trustedDevices: map<string, Device>
    var migrationChallenges: map<string, Challenge>
    const hash: string -> string

    constructor (loaded: map<string, Device>, hash: string -> string)
      ensures trustedDevices == loaded && migrationChallenges == map[] && this.hash == hash
    {
      trustedDevices, migrationChallenges := loaded, map[];
      this.hash := hash;
    }

    /** `register_device` */
    method RegisterDevice(pairing: WritePairing.WriteAuth, deviceId: string, code: string,
                          totp: Result<bool>, credential: string, now: real, pairedAt: real)
      returns (r: Result<Option<string>>)
      modifies this`trustedDevices, pairing
      ensures r == Ok(Some(credential)) <==> MayRegister(old(pairing.Now()), deviceId, code, totp, now)
      ensures r == Ok(Some(credential)) ==> StripSpace(deviceId) != ""
      ensures r.Err? <==> StripSpace(deviceId) != ""
                          && (WritePairing.Raises(old(pairing.Now()), code, now)
                              || (totp.Err? && !WritePairing.Redeems(old(pairing.Now()),
                                                                     WritePairing.ConsumeOtp(code, now))))
      ensures r == Ok(Some(credential)) ==>
                trustedDevices == old(trustedDevices)[StripSpace(deviceId) := Paired(pairedAt, hash(credential))]
      ensures trustedDevices == if r == Ok(Some(credential))
                                then Step(old(trustedDevices), Register(deviceId, credential, pairedAt), hash)
                                else old(trustedDevices)
      ensures r.Ok? ==> r.value == None || r.value == Some(credential)
      // a step that spends the displayed code exactly when that code was presented
      ensures pairing.Now() ==
              if StripSpace(deviceId) != "" && !WritePairing.Raises(old(pairing.Now()), code, now)
              then WritePairing.Step(old(pairing.Now()), WritePairing.ConsumeOtp(code, now))
              else old(pairing.Now())
      ensures r.Err? ==> trustedDevices == old(trustedDevices) && pairing.Now() == old(pairing.Now())
    {
      var cleanId := StripSpace(deviceId);
      if cleanId == "" {
        return Ok(None);
      }
      var consumed := pairing.ConsumeWriteOtp(code, now);
      if consumed.Err? {
        return Err(consumed.error);
      }
      if !consumed.value {
        if totp.Err? {
          return Err(totp.error);
        }
        if !totp.value {
          return Ok(None);
        }
      }
      trustedDevices := trustedDevices[cleanId := Paired(pairedAt, hash(credential))];
      r := Ok(Some(credential));
    }

    /** `verify_device_credential` */
    method VerifyDeviceCredential(deviceId: string, credential: string) returns (ok: bool)
      ensures ok == Verifies(trustedDevices, deviceId, credential, hash)
      ensures ok <==> StripSpace(deviceId) != "" && credential != "" && StripSpace(deviceId) in trustedDevices
                      && trustedDevices[StripSpace(deviceId)].Paired?
                      && trustedDevices[StripSpace(deviceId)].credentialHash != ""
                      && trustedDevices[StripSpace(deviceId)].credentialHash == hash(credential)
    {
      var cleanId := StripSpace(deviceId);
      if cleanId !in trustedDevices {
        return false;
      }
      var record := trustedDevices[cleanId];
      if cleanId == "" || credential == "" || !record.Paired? {
        return false;
      }
      var expected := record.credentialHash;
      ok := expected != "" && expected == hash(credential);
    }

    /** `revoke_device` */
    method RevokeDevice(deviceId: string)
      modifies this`trustedDevices
      ensures trustedDevices == Step(old(trustedDevices), Revoke(deviceId), hash)
      ensures StripSpace(deviceId) == "" ==> trustedDevices == old(trustedDevices)
      ensures StripSpace(deviceId) != "" ==> trustedDevices == old(trustedDevices) - {StripSpace(deviceId)}
    {
      var cleanId := StripSpace(deviceId);
      if cleanId == "" {
        return;
      }
      trustedDevices := trustedDevices - {cleanId};
    }

    /** `migrate_trusted_device` */
    method MigrateTrustedDevice(previousDeviceId: string, deviceId: string) returns (moved: bool)
      modifies this`trustedDevices
      ensures trustedDevices == Step(old(trustedDevices), Migrate(previousDeviceId, deviceId), hash)
      ensures moved <==> StripSpace(previousDeviceId) in old(trustedDevices) && StripSpace(previousDeviceId) != ""
                         && StripSpace(deviceId) != "" && StripSpace(previousDeviceId) != StripSpace(deviceId)
      ensures !moved ==> trustedDevices == old(trustedDevices)
      ensures moved ==> StripSpace(previousDeviceId) !in trustedDevices
      ensures moved ==> StripSpace(deviceId) in trustedDevices && trustedDevices[StripSpace(deviceId)] ==
                        old(trustedDevices)[if StripSpace(deviceId) in old(trustedDevices) then StripSpace(deviceId)
                                            else StripSpace(previousDeviceId)]
    {
      var previous := StripSpace(previousDeviceId);
      var current := StripSpace(deviceId);
      if previous == "" || current == "" || previous == current || previous !in trustedDevices {
        return false;
      }
      var registeredAt := trustedDevices[previous];
      trustedDevices := trustedDevices - {previous};
      if current !in trustedDevices {
        trustedDevices := trustedDevices[current := registeredAt];
      }
      moved := true;
    }

    /** `create_migration_challenge` */
    method CreateMigrationChallenge(previousId: string, currentId: string, challenge: string, now: real)
      modifies this`migrationChallenges
      ensures migrationChallenges ==
              StepChallenges(old(migrationChallenges), Issue(challenge, previousId, currentId, now), hash)
      ensures migrationChallenges == map[hash(challenge) := Challenge(previousId, currentId, now + 60.0)]
    {
      migrationChallenges := map[];
      migrationChallenges :=
        migrationChallenges[hash(challenge) := Challenge(previousId, currentId, now + CHALLENGE_TTL)];
    }

    /** `consume_migration_challenge` */
    method ConsumeMigrationChallenge(challenge: string, previousId: string, currentId: string, now: real)
      returns (r: Result<bool>)
      modifies this`migrationChallenges
      ensures migrationChallenges ==
              StepChallenges(old(migrationChallenges), Present(challenge, previousId, currentId, now), hash)
      ensures r == Answer(Popped(old(migrationChallenges), hash(challenge)), previousId, currentId, now)
      ensures migrationChallenges == old(migrationChallenges) - {hash(challenge)}
      ensures hash(challenge) !in old(migrationChallenges) ==> r == Ok(false)
      ensures hash(challenge) in old(migrationChallenges) ==>
                var record := old(migrationChallenges)[hash(challenge)];
                var previousSame := record.previousId == previousId;
                && (r == Ok(true) <==> now <= record.expiresAt && previousSame && record.currentId == currentId
                                       && IsAscii(previousId) && IsAscii(currentId))
                && (r.Err? <==> now <= record.expiresAt
                                && (!IsAscii(record.previousId) || !IsAscii(previousId)
                                    || (previousSame && (!IsAscii(record.currentId) || !IsAscii(currentId)))))
    {
      var key := hash(challenge);
      var record := if key in migrationChallenges then Some(migrationChallenges[key]) else None;
      migrationChallenges := migrationChallenges - {key};
      if record.None? || record.value.expiresAt < now {
        return Ok(false);
      }
      r := ComparesEqual(record.value.previousId, previousId);
      if r == Ok(true) {
        r := ComparesEqual(record.value.currentId, currentId);
      }
    }
  }
}
