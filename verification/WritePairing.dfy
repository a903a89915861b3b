// The write-pairing codes of src/state.py: a displayed one-time code that can be
// redeemed by two routes, and the bearer tokens one of the routes hands out.
module WritePairing {
  import opened PyDict
  import opened PyText
  import opened Wrappers

  const OTP_TTL := 600.0
  const TOKEN_TTL := 3600.0

  datatype State = State(otp: string, otpExpiresAt: real, tokens: map<string, real>)

  datatype Event =
    | Reset(code: string, at: real)
    | ConsumeOtp(otp: string, at: real)
    | IssueToken(otp: string, token: string, at: real)
    | Validate(token: string, at: real)
    | ExpireOtp(at: real)
    | ClearAuth(at: real)

  // ---------- one step ----------

  /** The code an event presents. Only `consume_write_otp` strips its argument. */
  function Presented(e: Event): Option<string> {
    match e
    case ConsumeOtp(otp, _) => Some(StripSpace(otp))
    case IssueToken(otp, _, _) => Some(otp)
    case _ => None
  }

  predicate Redeems(s: State, e: Event) {
    s.otp != "" && e.at <= s.otpExpiresAt && Presented(e) == Some(s.otp)
  }

  /** `consume_write_otp` cannot compare text beyond ASCII and raises, but only
      while a code is on display. */
  predicate Raises(s: State, otp: string, now: real) {
    s.otp != "" && now <= s.otpExpiresAt && !(IsAscii(StripSpace(otp)) && IsAscii(s.otp))
  }

  function Unexpired(tokens: map<string, real>, now: real): map<string, real> {
    map t | t in tokens && tokens[t] > now :: tokens[t]
  }

  function Step(s: State, e: Event): State {
    match e
    case Reset(code, at) => State(code, at + OTP_TTL, map[])
    case ConsumeOtp(_, _) => if Redeems(s, e) then State("", 0.0, s.tokens) else s
    case IssueToken(_, token, at) =>
      if Redeems(s, e) then State("", 0.0, s.tokens[token := at + TOKEN_TTL]) else s
    case Validate(token, at) =>
      if token == "" then s else s.(tokens := Unexpired(s.tokens, at))
    case ExpireOtp(_) => State("", 0.0, s.tokens)
    case ClearAuth(_) => State("", 0.0, map[])
  }

  /** The globals after the first `n` events of a run. */
  function At(es: seq<Event>, n: nat): State
    requires n <= |es|
  {
    if n == 0 then State("", 0.0, map[]) else Step(At(es, n - 1), es[n - 1])
  }

  /** The answer of `validate_write_token`. A missing token reads as deadline 0, which
      only a clock before the epoch undercuts. */
  predicate Accepts(s: State, token: string, now: real) {
    token != "" && (now < 0.0 || (token in s.tokens && s.tokens[token] > now))
  }

  // ---------- what the event sequence says ----------

  /** Event `j` is a successful redemption, by either route. */
  predicate Redeemed(es: seq<Event>, j: nat)
    requires j < |es|
  {
    Redeems(At(es, j), es[j])
  }

  /** Event `j` takes the displayed code away or replaces it. */
  predicate Ends(es: seq<Event>, j: nat)
    requires j < |es|
  {
    es[j].Reset? || es[j].ExpireOtp? || es[j].ClearAuth? || Redeemed(es, j)
  }

  /** Codes are six digits; tokens are never empty and never drawn twice. */
  ghost predicate GoodValues(es: seq<Event>) {
    && (forall i :: 0 <= i < |es| && es[i].Reset? ==> |es[i].code| == 6 && AllDigits(es[i].code))
    && (forall i :: 0 <= i < |es| && es[i].IssueToken? ==> es[i].token != "")
    && (forall i, j :: 0 <= i < j < |es| && es[i].IssueToken? && es[j].IssueToken? ==>
                         es[i].token != es[j].token)
  }

  ghost predicate ClockForward(es: seq<Event>) {
    forall i, j :: 0 <= i < j < |es| ==> es[i].at <= es[j].at
  }

  /** The code of reset `k` is the one displayed when event `n` happens. */
  ghost predicate DisplayedSince(es: seq<Event>, k: nat, n: nat) {
    k < n <= |es| && es[k].Reset? && forall i :: k < i < n ==> !Ends(es, i)
  }

  lemma {:induction false} DisplayedStored(es: seq<Event>, k: nat, n: nat)
    requires DisplayedSince(es, k, n)
    ensures At(es, n).otp == es[k].code && At(es, n).otpExpiresAt == es[k].at + OTP_TTL
    decreases n
  {
    if k < n - 1 {
      DisplayedStored(es, k, n - 1);
      assert !Ends(es, n - 1);
    }
  }

  lemma {:induction false} DisplayedIndex(es: seq<Event>, n: nat) returns (k: nat)
    requires n <= |es| && At(es, n).otp != ""
    ensures DisplayedSince(es, k, n)
  {
    if es[n - 1].Reset? {
      k := n - 1;
    } else {
      k := DisplayedIndex(es, n - 1);
      assert !Ends(es, n - 1);
    }
  }

  /** The exact answer of both redemption routes, for any clock: the code presented
      is that of a reset not yet followed by a redemption, an expiry, a clear or
      another reset, at most ten minutes old. One route strips the code, the other
      takes it as it is. */
  lemma RedemptionIff(es: seq<Event>, j: nat)
    requires j < |es| && GoodValues(es)
    ensures Redeemed(es, j) <==>
            (exists k :: 0 <= k < j && DisplayedSince(es, k, j) && es[j].at <= es[k].at + 600.0
                         && ((es[j].ConsumeOtp? && StripSpace(es[j].otp) == es[k].code)
                             || (es[j].IssueToken? && es[j].otp == es[k].code)))
  {
    if Redeemed(es, j) {
      var k := DisplayedIndex(es, j);
      DisplayedStored(es, k, j);
    }
    forall k | 0 <= k < j && DisplayedSince(es, k, j)
               && Presented(es[j]) == Some(es[k].code) && es[j].at <= es[k].at + OTP_TTL
      ensures Redeemed(es, j)
    {
      DisplayedStored(es, k, j);
    }
  }

  /** Between two successful redemptions, whatever their routes, lies a reset. */
  lemma OneRedemptionPerReset(es: seq<Event>, i: nat, j: nat)
    requires i < j < |es| && Redeemed(es, i) && Redeemed(es, j)
    ensures exists k :: i < k < j && es[k].Reset?
  {
    var k := DisplayedIndex(es, j);
    if k <= i {
      assert Ends(es, i);
    }
  }

  function Redemptions(es: seq<Event>, n: nat): nat
    requires n <= |es|
  {
    if n == 0 then 0 else Redemptions(es, n - 1) + if Redeemed(es, n - 1) then 1 else 0
  }

  function Resets(es: seq<Event>, n: nat): nat
    requires n <= |es|
  {
    if n == 0 then 0 else Resets(es, n - 1) + if es[n - 1].Reset? then 1 else 0
  }

  /** Redemptions through both routes together, plus the code still on display,
      never exceed the resets. */
  lemma {:induction false} RedemptionsBounded(es: seq<Event>, n: nat)
    requires n <= |es|
    ensures Redemptions(es, n) + (if At(es, n).otp != "" then 1 else 0) <= Resets(es, n)
  {
    if n > 0 {
      RedemptionsBounded(es, n - 1);
    }
  }

  // ---------- tokens ----------

  predicate Grants(es: seq<Event>, i: nat, token: string)
    requires i < |es|
  {
    es[i].IssueToken? && es[i].token == token && Redeemed(es, i)
  }

  predicate Revokes(e: Event) {
    e.Reset? || e.ClearAuth?
  }

  /** Event `j` runs the expiry sweep once `deadline` has come. */
  predicate Sweeps(e: Event, deadline: real) {
    e.Validate? && e.token != "" && e.at >= deadline
  }

  ghost predicate HeldSince(es: seq<Event>, i: nat, n: nat, token: string) {
    && i < n <= |es|
    && Grants(es, i, token)
    && forall j :: i < j < n ==> !Revokes(es[j]) && !Sweeps(es[j], es[i].at + TOKEN_TTL)
  }

  lemma {:induction false} HeldStored(es: seq<Event>, i: nat, n: nat, token: string)
    requires GoodValues(es) && HeldSince(es, i, n, token)
    ensures token in At(es, n).tokens && At(es, n).tokens[token] == es[i].at + TOKEN_TTL
    decreases n
  {
    if i < n - 1 {
      HeldStored(es, i, n - 1, token);
      assert !Revokes(es[n - 1]) && !Sweeps(es[n - 1], es[i].at + TOKEN_TTL);
    }
  }

  lemma {:induction false} HeldIndex(es: seq<Event>, n: nat, token: string) returns (i: nat)
    requires GoodValues(es) && n <= |es| && token in At(es, n).tokens
    ensures HeldSince(es, i, n, token)
    ensures At(es, n).tokens[token] == es[i].at + TOKEN_TTL
  {
    if Grants(es, n - 1, token) {
      i := n - 1;
    } else {
      i := HeldIndex(es, n - 1, token);
    }
  }

  /** The exact answer of a validation: the token was granted less than an hour
      ago and no reset or clear came since.  The sweep never changes an answer.
      (With a clock before the epoch every non-empty token validates.) */
  lemma ValidationIff(es: seq<Event>, j: nat)
    requires j < |es| && es[j].Validate? && GoodValues(es) && ClockForward(es)
    ensures Accepts(At(es, j), es[j].token, es[j].at) <==>
            if es[j].at < 0.0 then es[j].token != ""
            else exists i :: 0 <= i < j && Grants(es, i, es[j].token)
                             && es[j].at < es[i].at + 3600.0
                             && forall k :: i < k < j ==> !es[k].Reset? && !es[k].ClearAuth?
  {
    var token := es[j].token;
    if Accepts(At(es, j), token, es[j].at) && es[j].at >= 0.0 {
      var i := HeldIndex(es, j, token);
    }
    forall i | 0 <= i < j && Grants(es, i, token) && es[j].at < es[i].at + TOKEN_TTL
               && (forall k :: i < k < j ==> !es[k].Reset? && !es[k].ClearAuth?)
      ensures Accepts(At(es, j), token, es[j].at)
    {
      forall k | i < k < j
        ensures !Sweeps(es[k], es[i].at + TOKEN_TTL)
      {
        assert es[k].at <= es[j].at;
      }
      assert HeldSince(es, i, j, token);
      HeldStored(es, i, j, token);
    }
  }

  /** Once a token is refused after having been granted, it is refused for ever. */
  lemma NeverAcceptedAgain(es: seq<Event>, i: nat, j: nat, k: nat)
    requires i < j < k < |es| && GoodValues(es) && ClockForward(es)
    requires es[j].Validate? && es[k].Validate? && es[k].token == es[j].token && Grants(es, i, es[j].token)
    requires !Accepts(At(es, j), es[j].token, es[j].at)
    ensures !Accepts(At(es, k), es[k].token, es[k].at)
  {
    ValidationIff(es, j);
    ValidationIff(es, k);
  }

  // ---------- the module's state and functions ----------

  class WriteAuth {
    var writeOtp: string
    var writeOtpExpiresAt: real
    var writeTokens: map<string, real>

    function Now(): State
      reads this
    {
      State(writeOtp, writeOtpExpiresAt, writeTokens)
    }

    constructor ()
      ensures Now() == At([], 0)
    {
      writeOtp, writeOtpExpiresAt, writeTokens := "", 0.0, map[];
    }

    /** `reset_write_auth`, with the random number drawn below one million. */
    method ResetWriteAuth(draw: nat, now: real) returns (otp: string)
      requires draw < 1_000_000
      modifies this
      ensures Now() == Step(old(Now()), Reset(otp, now))
      ensures writeOtp == otp && writeOtpExpiresAt == now + 600.0 && writeTokens == map[]
      ensures |otp| == 6 && AllDigits(otp) && Value(otp) == draw
    {
      assert Power10(6) == 1_000_000;
      FixedWidth(draw, 6);
      writeOtp := ZeroFill(Decimal(draw), 6);
      writeOtpExpiresAt := now + OTP_TTL;
      writeTokens := map[];
      otp := writeOtp;
    }

    /** `consume_write_otp` */
    method ConsumeWriteOtp(otp: string, now: real) returns (r: Result<bool>)
      modifies this
      ensures r == if old(writeOtp) == "" || now > old(writeOtpExpiresAt) then Ok(false)
                   else if IsAscii(StripSpace(otp)) && IsAscii(old(writeOtp)) then Ok(StripSpace(otp) == old(writeOtp))
                   else Err(TypeError)
      ensures r == if Raises(old(Now()), otp, now) then Err(TypeError)
                   else Ok(Redeems(old(Now()), ConsumeOtp(otp, now)))
      ensures writeTokens == old(writeTokens)
      ensures r == Ok(true) ==> writeOtp == "" && writeOtpExpiresAt == 0.0
      ensures r != Ok(true) ==> writeOtp == old(writeOtp) && writeOtpExpiresAt == old(writeOtpExpiresAt)
      ensures Now() == if r.Ok? then Step(old(Now()), ConsumeOtp(otp, now)) else old(Now())
    {
      var clean := StripSpace(otp);
      if writeOtp == "" || now > writeOtpExpiresAt {
        return Ok(false);
      }
      if !IsAscii(clean) || !IsAscii(writeOtp) {
        return Err(TypeError);
      }
      if clean != writeOtp {
        return Ok(false);
      }
      writeOtp := "";
      writeOtpExpiresAt := 0.0;
      r := Ok(true);
    }

    /** `expire_write_otp` */
    method ExpireWriteOtp(ghost now: real)
      modifies this
      ensures Now() == Step(old(Now()), ExpireOtp(now))
      ensures writeOtp == "" && writeOtpExpiresAt == 0.0 && writeTokens == old(writeTokens)
    {
      writeOtp := "";
      writeOtpExpiresAt := 0.0;
    }

    /** `issue_write_token` */
    method IssueWriteToken(otp: string, drawn: string, now: real) returns (token: Option<string>)
      modifies this
      ensures Now() == Step(old(Now()), IssueToken(otp, drawn, now))
      ensures token.Some? <==> old(writeOtp) != "" && now <= old(writeOtpExpiresAt) && otp == old(writeOtp)
      ensures token.Some? ==> token.value == drawn && writeOtp == "" && writeOtpExpiresAt == 0.0
                              && writeTokens == old(writeTokens)[drawn := now + 3600.0]
      ensures token.None? ==> Now() == old(Now())
    {
      if writeOtp == "" || now > writeOtpExpiresAt || otp != writeOtp {
        return None;
      }
      writeTokens := writeTokens[drawn := now + TOKEN_TTL];
      writeOtp := "";
      writeOtpExpiresAt := 0.0;
      token := Some(drawn);
    }

    method PopExpired(now: real)
      modifies this`writeTokens
      ensures writeTokens == Unexpired(old(writeTokens), now)
    {
      var expired := set t | t in writeTokens && writeTokens[t] <= now;
      writeTokens := PopAll(writeTokens, expired);
    }

    /** `validate_write_token` */
    method ValidateWriteToken(token: string, now: real) returns (valid: bool)
      modifies this`writeTokens
      ensures Now() == Step(old(Now()), Validate(token, now))
      ensures valid == Accepts(old(Now()), token, now)
      ensures now >= 0.0 ==> (valid <==> token != "" && token in old(writeTokens) && old(writeTokens)[token] > now)
      ensures token != "" ==> forall t :: t in writeTokens <==> t in old(writeTokens) && old(writeTokens)[t] > now
      ensures forall t :: t in writeTokens ==> t in old(writeTokens) && writeTokens[t] == old(writeTokens)[t]
    {
      if token == "" {
        return false;
      }
      PopExpired(now);
      var deadline := if token in writeTokens then writeTokens[token] else 0.0;
      valid := deadline > now;
    }

    /** `clear_write_auth` */
    method ClearWriteAuth(ghost now: real)
      modifies this
      ensures Now() == Step(old(Now()), ClearAuth(now))
      ensures writeOtp == "" && writeOtpExpiresAt == 0.0 && writeTokens == map[]
    {
      writeOtp := "";
      writeOtpExpiresAt := 0.0;
      writeTokens := map[];
    }
  }
}
