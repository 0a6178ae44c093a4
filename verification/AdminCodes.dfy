/**
 * The admin verification-code cache of the auth controller: a process-wide
 * map from email to `{code, expires}`, written by `requestAdminCode`, read
 * and consumed by the admin branch of `register`, and read by
 * `verifyAdminCode`. The random draw, the clock (milliseconds) and the
 * outcome of sending the email are inputs.
 */
module AdminCodes {
  import opened Wrappers
  import opened Text

  /** The admin domain used when none is configured. */
  const DefaultAdminDomain: string := "@yourlibrary.com"

  /** Fifteen minutes in milliseconds: how long a code stays usable. */
  const CodeLifetimeMs: int := 15 * 60 * 1000

  /** `crypto.randomInt(100000, 999999)`: the upper bound is exclusive. */
  type Drawn = n: nat | 100000 <= n < 999999 witness 100000

  datatype CodeEntry = CodeEntry(code: string, expires: int)

  type Codes = map<string, CodeEntry>

  /** The cache pair produced by a request, and what the request answered. */
  datatype CodesStep<T> = CodesStep(codes: Codes, outcome: T)

  /** JavaScript truthiness of a string field: present and not empty. */
  predicate Truthy(v: Option<string>)
  {
    v.Some? && v.value != ""
  }

  /** `process.env.ADMIN_EMAIL_DOMAIN || '@yourlibrary.com'`. */
  function AdminDomain(setting: Option<string>): (d: string)
    ensures Truthy(setting) ==> d == setting.value
    ensures !Truthy(setting) ==> d == DefaultAdminDomain
  {
    if Truthy(setting) then setting.value else DefaultAdminDomain
  }

  /** A code as stored: six decimal digits. */
  predicate IsSixDigitCode(code: string)
  {
    |code| == 6 && forall i :: 0 <= i < 6 ==> IsDigit(code[i])
  }

  /** Every stored code has six digits. */
  ghost predicate WellFormed(codes: Codes)
  {
    forall e :: e in codes ==> IsSixDigitCode(codes[e].code)
  }

  /** `randomInt(...).toString()`: the decimal rendering of the draw, six digits long. */
  function CodeOf(drawn: Drawn): (code: string)
    ensures IsSixDigitCode(code)
    ensures code[0] != '0'
    ensures ParseDecimal(code) == drawn
  {
    assert Pow10(2) == 100;
    assert Pow10(4) == 10000;
    assert Pow10(6) == 1000000;
    DecimalLength(drawn, 6);
    DecimalRoundTrip(drawn);
    Decimal(drawn)
  }

  // ---------------------------------------------------------------------
  // requestAdminCode

  datatype RequestOutcome =
    | CodeSent                       // 200
    | EmailRequired                  // 400
    | ForbiddenDomain(domain: string) // 403
    | DeliveryFailed                 // 500, the code stays stored

  /**
   * `requestAdminCode`: the email must be given and end with the admin
   * domain; the entry is stored (overwriting any earlier one) before the
   * email is sent, so a failed delivery leaves it in place.
   */
  function RequestCode(codes: Codes, email: Option<string>, domainSetting: Option<string>,
                       drawn: Drawn, now: int, delivered: bool): (r: CodesStep<RequestOutcome>)
    ensures !Truthy(email) ==> r == CodesStep(codes, EmailRequired)
    ensures Truthy(email) && !EndsWith(email.value, AdminDomain(domainSetting)) ==>
      r == CodesStep(codes, ForbiddenDomain(AdminDomain(domainSetting)))
    ensures Truthy(email) && EndsWith(email.value, AdminDomain(domainSetting)) ==>
      && r.codes.Keys == codes.Keys + {email.value}
      && r.codes[email.value].expires == now + CodeLifetimeMs
      && IsSixDigitCode(r.codes[email.value].code)
      && ParseDecimal(r.codes[email.value].code) == drawn
      && (forall e :: e in codes && e != email.value ==> r.codes[e] == codes[e])
      && r.outcome == (if delivered then CodeSent else DeliveryFailed)
    ensures WellFormed(codes) ==> WellFormed(r.codes)
  {
    if !Truthy(email) then CodesStep(codes, EmailRequired)
    else
      var domain := AdminDomain(domainSetting);
      if !EndsWith(email.value, domain) then CodesStep(codes, ForbiddenDomain(domain))
      else
        var stored := codes[email.value := CodeEntry(CodeOf(drawn), now + CodeLifetimeMs)];
        CodesStep(stored, if delivered then CodeSent else DeliveryFailed)
  }

  // ---------------------------------------------------------------------
  // The validation and admin-code branch of register

  datatype RegisterRequest = RegisterRequest(
    name: Option<string>,
    email: Option<string>,
    password: Option<string>,
    role: Option<string>,
    adminCode: Option<string>)

  datatype RegisterOutcome =
    | Registered(role: string)  // 201: the user would now be created
    | MissingFields             // 400
    | InvalidRole               // 400
    | AdminCodeRequired         // 400
    | InvalidAdminCode          // 400
    | AdminCodeExpired          // 400
    | EmailTaken                // 400

  /** `role = 'member'` in the destructuring of the request body. */
  function RoleOf(req: RegisterRequest): string
  {
    if req.role.Some? then req.role.value else "member"
  }

  /** The stored entry for `email` exists and holds `code`. */
  predicate CodeMatches(codes: Codes, email: string, code: string)
  {
    email in codes && codes[email].code == code
  }

  /**
   * `register` up to the creation of the user, which is left out: required
   * fields, then the role, then (for admins) the code, then the
   * duplicate-email check against the emails already `registered`.
   */
  function Register(codes: Codes, req: RegisterRequest, registered: set<string>, now: int): (r: CodesStep<RegisterOutcome>)
    ensures !(Truthy(req.name) && Truthy(req.email) && Truthy(req.password)) ==>
      r == CodesStep(codes, MissingFields)
    ensures Truthy(req.name) && Truthy(req.email) && Truthy(req.password) && RoleOf(req) !in {"member", "admin"} ==>
      r == CodesStep(codes, InvalidRole)
    ensures Truthy(req.name) && Truthy(req.email) && Truthy(req.password) && RoleOf(req) == "member" ==>
      r == CodesStep(codes, if req.email.value in registered then EmailTaken else Registered("member"))
    ensures Truthy(req.name) && Truthy(req.email) && Truthy(req.password) && RoleOf(req) == "admin" ==>
      var email := req.email.value;
      && (!Truthy(req.adminCode) ==> r == CodesStep(codes, AdminCodeRequired))
      && (Truthy(req.adminCode) && !CodeMatches(codes, email, req.adminCode.value) ==>
            r == CodesStep(codes, InvalidAdminCode))
      && (Truthy(req.adminCode) && CodeMatches(codes, email, req.adminCode.value) ==>
            && r.codes.Keys == codes.Keys - {email}
            && r.outcome == (if codes[email].expires < now then AdminCodeExpired
                             else if email in registered then EmailTaken
                             else Registered("admin")))
    ensures r.codes.Keys <= codes.Keys
    ensures forall e :: e in r.codes ==> r.codes[e] == codes[e]
  {
    if !(Truthy(req.name) && Truthy(req.email) && Truthy(req.password)) then CodesStep(codes, MissingFields)
    else
      var email, role := req.email.value, RoleOf(req);
      if role !in {"member", "admin"} then CodesStep(codes, InvalidRole)
      else
        var checked: CodesStep<RegisterOutcome> :=
          if role != "admin" then CodesStep(codes, Registered(role))
          else if !Truthy(req.adminCode) then CodesStep(codes, AdminCodeRequired)
          else if !CodeMatches(codes, email, req.adminCode.value) then CodesStep(codes, InvalidAdminCode)
          else if codes[email].expires < now then CodesStep(codes - {email}, AdminCodeExpired)
          else CodesStep(codes - {email}, Registered(role));
        if !checked.outcome.Registered? then checked
        else if email in registered then CodesStep(checked.codes, EmailTaken)
        else checked
  }

  // ---------------------------------------------------------------------
  // verifyAdminCode

  datatype VerifyOutcome =
    | Verified                 // 200
    | EmailAndCodeRequired     // 400
    | InvalidCode              // 400
    | CodeExpired              // 400

  /**
   * `verifyAdminCode`: like the admin branch of `register`, but a matching,
   * unexpired code is left in place.
   */
  function Verify(codes: Codes, email: Option<string>, code: Option<string>, now: int): (r: CodesStep<VerifyOutcome>)
    ensures !(Truthy(email) && Truthy(code)) ==> r == CodesStep(codes, EmailAndCodeRequired)
    ensures Truthy(email) && Truthy(code) && !CodeMatches(codes, email.value, code.value) ==>
      r == CodesStep(codes, InvalidCode)
    ensures Truthy(email) && Truthy(code) && CodeMatches(codes, email.value, code.value) ==>
      if codes[email.value].expires < now then r == CodesStep(codes - {email.value}, CodeExpired)
      else r == CodesStep(codes, Verified)
  {
    if !(Truthy(email) && Truthy(code)) then CodesStep(codes, EmailAndCodeRequired)
    else if !CodeMatches(codes, email.value, code.value) then CodesStep(codes, InvalidCode)
    else if codes[email.value].expires < now then CodesStep(codes - {email.value}, CodeExpired)
    else CodesStep(codes, Verified)
  }

  // ---------------------------------------------------------------------
  // Properties relating several requests

  /**
   * A code admits one admin registration: once it has been accepted (the
   * user created or the email found taken), the same request is refused
   * as carrying an invalid code.
   */
  lemma AdminCodeSingleUse(codes: Codes, req: RegisterRequest, registered: set<string>, registered': set<string>,
                           now: int, now': int)
    requires RoleOf(req) == "admin"
    requires Register(codes, req, registered, now).outcome in {Registered("admin"), EmailTaken}
    ensures Register(Register(codes, req, registered, now).codes, req, registered', now').outcome == InvalidAdminCode
  {
  }

  /**
   * Verifying does not consume the code: a successful verification leaves
   * the cache as it was, so the same code verifies again until it expires.
   */
  lemma VerifyRepeatable(codes: Codes, email: Option<string>, code: Option<string>, now: int, now': int)
    requires Verify(codes, email, code, now).outcome == Verified
    requires now' <= codes[email.value].expires
    ensures Verify(codes, email, code, now).codes == codes
    ensures Verify(Verify(codes, email, code, now).codes, email, code, now') == CodesStep(codes, Verified)
  {
  }

  /**
   * A freshly requested code admits an admin registration up to and
   * including its expiry instant, and is refused and purged one
   * millisecond later.
   */
  lemma RequestThenRegister(codes: Codes, req: RegisterRequest, domainSetting: Option<string>, drawn: Drawn,
                            issued: int, delivered: bool, registered: set<string>, now: int)
    requires Truthy(req.name) && Truthy(req.email) && Truthy(req.password)
    requires RoleOf(req) == "admin" && req.adminCode == Some(CodeOf(drawn))
    requires EndsWith(req.email.value, AdminDomain(domainSetting))
    ensures
      var stored := RequestCode(codes, req.email, domainSetting, drawn, issued, delivered).codes;
      var r := Register(stored, req, registered, now);
      && (now <= issued + CodeLifetimeMs ==> r.outcome in {Registered("admin"), EmailTaken})
      && (now > issued + CodeLifetimeMs ==> r.outcome == AdminCodeExpired)
      && req.email.value !in r.codes
  {
  }

  /** A code requested at t and checked at t + 16 minutes has expired. */
  lemma SixteenMinutesLater(codes: Codes, email: string, drawn: Drawn, issued: int)
    requires EndsWith(email, DefaultAdminDomain) && email != ""
    ensures
      var stored := RequestCode(codes, Some(email), None, drawn, issued, true).codes;
      Verify(stored, Some(email), Some(CodeOf(drawn)), issued + 16 * 60 * 1000).outcome == CodeExpired
  {
  }

  /** Every request handler keeps every stored code six digits long. */
  lemma HandlersKeepWellFormed(codes: Codes, req: RegisterRequest, registered: set<string>,
                                                  email: Option<string>, code: Option<string>, now: int)
    requires WellFormed(codes)
    ensures WellFormed(Register(codes, req, registered, now).codes)
    ensures WellFormed(Verify(codes, email, code, now).codes)
  {
  }

  /** The process-wide `adminCodes` map and the three handlers that use it. */
  class AdminCodeCache {
    var codes: Codes

    constructor ()
      ensures codes == map[]
    {
      codes := map[];
    }

    /** `requestAdminCode`; `delivered` is whether sending the email succeeded. */
    method RequestAdminCode(email: Option<string>, domainSetting: Option<string>, drawn: Drawn,
                            now: int, delivered: bool) returns (outcome: RequestOutcome)
      modifies this
      ensures CodesStep(codes, outcome) == RequestCode(old(codes), email, domainSetting, drawn, now, delivered)
    {
      if !Truthy(email) {
        return EmailRequired;
      }
      var domain := AdminDomain(domainSetting);
      if !EndsWith(email.value, domain) {
        return ForbiddenDomain(domain);
      }
      var code := CodeOf(drawn);
      var expires := now + CodeLifetimeMs;
      codes := codes[email.value := CodeEntry(code, expires)];
      if !delivered {
        return DeliveryFailed;
      }
      outcome := CodeSent;
    }

    /** `register`, up to the creation of the user. */
    method RegisterCheck(req: RegisterRequest, registered: set<string>, now: int) returns (outcome: RegisterOutcome)
      modifies this
      ensures CodesStep(codes, outcome) == Register(old(codes), req, registered, now)
    {
      if !(Truthy(req.name) && Truthy(req.email) && Truthy(req.password)) {
        return MissingFields;
      }
      var email, role := req.email.value, RoleOf(req);
      if role !in {"member", "admin"} {
        return InvalidRole;
      }
      if role == "admin" {
        if !Truthy(req.adminCode) {
          return AdminCodeRequired;
        }
        if email !in codes || codes[email].code != req.adminCode.value {
          return InvalidAdminCode;
        }
        if codes[email].expires < now {
          codes := codes - {email};
          return AdminCodeExpired;
        }
        codes := codes - {email};
      }
      if email in registered {
        return EmailTaken;
      }
      outcome := Registered(role);
    }

    /** `verifyAdminCode`. */
    method VerifyAdminCode(email: Option<string>, code: Option<string>, now: int) returns (outcome: VerifyOutcome)
      modifies this
      ensures CodesStep(codes, outcome) == Verify(old(codes), email, code, now)
    {
      if !(Truthy(email) && Truthy(code)) {
        return EmailAndCodeRequired;
      }
      if email.value !in codes || codes[email.value].code != code.value {
        return InvalidCode;
      }
      if codes[email.value].expires < now {
        codes := codes - {email.value};
        return CodeExpired;
      }
      outcome := Verified;
    }
  }
}
