/** The account life cycle of backEnd/src/controllers/user.controller.js:
    registration with an e-mailed one-time code, the code resend throttle, code
    verification, password and user name setup, profile pictures, and the
    login lockout. The limits come from backEnd/src/constants.js. */
module Accounts {
  import opened Wrappers
  import opened Text
  import opened Paging
  import Otp
  import UserNames
  import Media
  import PublicId

  const MAX_LOGIN_ATTEMPTS: nat := 5
  const LOCK_TIME: nat := 30 * 60 * 1000
  const MAX_OTP_REQUESTS: nat := 5
  const OTP_BLOCK_TIME: nat := 30 * 60 * 1000
  const MINUTE: nat := 60 * 1000
  const MIN_PASSWORD: nat := 6
  const OTP_LENGTH: nat := 6

  // ---------------------------------------------------------------- login lockout

  /** The lockout fields of a user: `isLocked`, `loginAttempts`, `lockUntil`. */
  datatype LockState = LockState(isLocked: bool, loginAttempts: nat, lockUntil: Option<nat>)

  /** What the lockout keeps true: the counter stays within the limit, a lock
      always has an end time, and the account is locked exactly when the
      counter has reached the limit. */
  predicate LockOk(s: LockState) {
    s.loginAttempts <= MAX_LOGIN_ATTEMPTS
    && (s.isLocked <==> s.lockUntil.Some?)
    && (s.isLocked <==> s.loginAttempts == MAX_LOGIN_ATTEMPTS)
  }

  const Unlocked := LockState(false, 0, None)

  /** The answer to a login attempt that reached the lockout logic. */
  datatype LoginOutcome =
    | Locked(minutes: nat)        // 403 while the lock lasts
    | WrongPassword(remaining: nat) // 400, attempts left
    | LockedOut                   // 400, this failure locked the account
    | Matched                     // the password was right
    | NoPassword                  // 500, no hash to compare with

  /** A lock whose end time is not in the future is lifted (and saved) before
      the password is compared. */
  function ClearExpiredLock(s: LockState, now: nat): (r: LockState)
    ensures s.isLocked && s.lockUntil.Some? && s.lockUntil.value <= now ==> r == Unlocked
    ensures !(s.isLocked && s.lockUntil.Some?) ==> r == s
  {
    if s.isLocked && s.lockUntil.Some? && s.lockUntil.value <= now then Unlocked else s
  }

  /** The lockout fields after a login attempt whose password comparison gave
      `matches`, and the answer. A match resets the fields. */
  function LoginStep(s: LockState, now: nat, matches: bool): (LockState, LoginOutcome) {
    if s.isLocked && s.lockUntil.Some? && s.lockUntil.value > now then
      (s, Locked(CeilDiv(s.lockUntil.value - now, MINUTE)))
    else
      var c := ClearExpiredLock(s, now);
      if matches then (Unlocked, Matched)
      else
        var attempts := c.loginAttempts + 1;
        if attempts >= MAX_LOGIN_ATTEMPTS then
          (LockState(true, attempts, Some(now + LOCK_TIME)), LockedOut)
        else
          (LockState(c.isLocked, attempts, c.lockUntil), WrongPassword(MAX_LOGIN_ATTEMPTS - attempts))
  }

  /** Every login attempt keeps the lockout invariant, so `loginAttempts` never
      exceeds MAX_LOGIN_ATTEMPTS; a wrong password adds exactly one attempt to
      the (possibly just cleared) counter and reports at least one attempt left
      unless it locks the account for LOCK_TIME. */
  lemma LoginStepKeepsLock(s: LockState, now: nat, matches: bool)
    requires LockOk(s)
    ensures LockOk(LoginStep(s, now, matches).0)
    ensures LockOk(ClearExpiredLock(s, now))
    ensures var (t, out) := LoginStep(s, now, matches);
      && (out.WrongPassword? ==>
            t.loginAttempts == ClearExpiredLock(s, now).loginAttempts + 1
            && 1 <= out.remaining == MAX_LOGIN_ATTEMPTS - t.loginAttempts)
      && (out.LockedOut? ==>
            t.isLocked && t.lockUntil == Some(now + LOCK_TIME)
            && t.loginAttempts == ClearExpiredLock(s, now).loginAttempts + 1)
      && (out.Matched? <==> matches && !(s.isLocked && s.lockUntil.value > now))
  {
  }

  /** While a lock lasts, every attempt is refused with the remaining whole
      minutes and changes nothing, whatever the password. */
  lemma LockedAccountRefuses(s: LockState, now: nat, matches: bool)
    requires LockOk(s) && s.isLocked && s.lockUntil.value > now
    ensures LoginStep(s, now, matches) == (s, Locked(CeilDiv(s.lockUntil.value - now, MINUTE)))
    ensures LoginStep(s, now, matches).1.minutes >= 1
  {
  }

  /** The lockout fields after a run of failed attempts at the given times. */
  function Failures(s: LockState, times: seq<nat>): LockState
    decreases |times|
  {
    if times == [] then s else Failures(LoginStep(s, times[0], false).0, times[1..])
  }

  /** An unlocked account with k failed attempts is locked by the next
      MAX_LOGIN_ATTEMPTS - k wrong passwords, for LOCK_TIME after the last. */
  lemma {:induction false} WrongPasswordsLock(s: LockState, times: seq<nat>)
    requires LockOk(s) && !s.isLocked
    requires |times| == MAX_LOGIN_ATTEMPTS - s.loginAttempts
    ensures Failures(s, times) == LockState(true, MAX_LOGIN_ATTEMPTS, Some(times[|times| - 1] + LOCK_TIME))
    decreases |times|
  {
    var t := LoginStep(s, times[0], false).0;
    if |times| == 1 {
      assert Failures(t, times[1..]) == t;
    } else {
      assert !t.isLocked && t.loginAttempts == s.loginAttempts + 1;
      WrongPasswordsLock(t, times[1..]);
      assert times[1..][|times[1..]| - 1] == times[|times| - 1];
    }
  }

  // ---------------------------------------------------------------- one-time codes

  /** The `OTP` sub-document: hashed code, expiry, request counter, last
      request time and the end of a resend block. */
  datatype OtpState = OtpState(
    code: Option<string>,
    expiresAt: Option<nat>,
    otpRequests: nat,
    lastOtpRequestAt: Option<nat>,
    otpBlockedUntil: Option<nat>)

  /** The answer to a resend request that reached the throttle. */
  datatype ResendOutcome =
    | Blocked(minutes: nat)      // 429 while a block lasts
    | Throttled                  // 429, this request started a block
    | Resent(remaining: int)     // 200 with the requests left

  /** A resend at `now` whose new code hashes to `hashed`. An elapsed block
      resets the counter; a full counter starts a block of OTP_BLOCK_TIME;
      otherwise a fresh code valid for ten minutes replaces the old one. */
  function ResendStep(s: OtpState, now: nat, hashed: string): (OtpState, ResendOutcome) {
    if s.otpBlockedUntil.Some? && s.otpBlockedUntil.value > now then
      (s, Blocked(CeilDiv(s.otpBlockedUntil.value - now, MINUTE)))
    else
      var c := if s.otpBlockedUntil.Some? then s.(otpRequests := 0, otpBlockedUntil := None) else s;
      if c.otpRequests >= MAX_OTP_REQUESTS then
        (c.(otpBlockedUntil := Some(now + OTP_BLOCK_TIME)), Throttled)
      else
        (c.(code := Some(hashed), expiresAt := Some(now + Otp.OTP_TTL),
            otpRequests := c.otpRequests + 1, lastOtpRequestAt := Some(now)),
         Resent(MAX_OTP_REQUESTS - (c.otpRequests + 1)))
  }

  /** The throttle keeps the counter within MAX_OTP_REQUESTS: a resend either
      adds exactly one request and installs the new code, or refuses; a full
      counter starts a block, and a block in force changes nothing. */
  lemma ResendStepBounds(s: OtpState, now: nat, hashed: string)
    requires s.otpRequests <= MAX_OTP_REQUESTS
    ensures var (t, out) := ResendStep(s, now, hashed);
      && t.otpRequests <= MAX_OTP_REQUESTS
      && (out.Resent? ==>
            t.code == Some(hashed) && t.expiresAt == Some(now + Otp.OTP_TTL)
            && 0 <= out.remaining < MAX_OTP_REQUESTS
            && t.otpRequests == (if s.otpBlockedUntil.Some? then 0 else s.otpRequests) + 1)
      && (out.Throttled? ==>
            t.otpBlockedUntil == Some(now + OTP_BLOCK_TIME)
            && s.otpRequests == MAX_OTP_REQUESTS && s.otpBlockedUntil.None?)
      && (out.Blocked? ==> t == s && out.minutes >= 1)
  {
  }

  /** The result of checking a submitted code at `now`; `matches` is the
      outcome of comparing it with the stored hash. */
  function VerifyStep(s: OtpState, now: nat, matches: bool): (r: Checked<OtpState>)
    ensures r.Stop? ==> r.status == BAD_REQUEST
    ensures r.Pass? ==> r.value.code.None? && r.value.expiresAt.None? && r.value.otpRequests == 0
  {
    if s.code.None? || s.expiresAt.None? then Stop(BAD_REQUEST)
    else if now > s.expiresAt.value then Stop(BAD_REQUEST)
    else if !matches then Stop(BAD_REQUEST)
    else Pass(s.(code := None, expiresAt := None, otpRequests := 0))
  }

  /** A code that was just resent is accepted for ten minutes, and rejected
      after that even when it matches. */
  lemma ResentCodeVerifies(s: OtpState, sent: nat, now: nat, hashed: string)
    requires ResendStep(s, sent, hashed).1.Resent?
    ensures sent <= now <= sent + Otp.OTP_TTL ==> VerifyStep(ResendStep(s, sent, hashed).0, now, true).Pass?
    ensures now > sent + Otp.OTP_TTL ==> VerifyStep(ResendStep(s, sent, hashed).0, now, true).Stop?
  {
  }

  // ---------------------------------------------------------------- the user document

  datatype AccountState = AccountState(
    email: string, fullName: string, username: string, isVerified: bool, password: Option<string>,
    otp: OtpState, lock: LockState, lastLoginAt: Option<nat>,
    avatarUrl: string, bannerUrl: string, bio: string, location: string, website: string)

  class Account {
    var email: string
    var fullName: string
    var username: string
    var isVerified: bool
    /** The bcrypt hash of the password, once one is set. */
    var password: Option<string>
    var otp: OtpState
    var isLocked: bool
    var loginAttempts: nat
    var lockUntil: Option<nat>
    var lastLoginAt: Option<nat>
    /** "" while unset. */
    var avatarUrl: string
    var bannerUrl: string
    var bio: string
    var location: string
    var website: string

    function Lock(): LockState
      reads this
    {
      LockState(isLocked, loginAttempts, lockUntil)
    }

    /** All stored fields at once, so that a handler can say which of them it
        changes and that the rest stay as they were. */
    function Snapshot(): AccountState
      reads this
    {
      AccountState(email, fullName, username, isVerified, password, otp, Lock(), lastLoginAt,
                   avatarUrl, bannerUrl, bio, location, website)
    }

    predicate Valid()
      reads this
    {
      LockOk(Lock()) && otp.otpRequests <= MAX_OTP_REQUESTS
    }

    /** `User.create` in `registerUser`: schema defaults for everything the
        handler does not set. */
    constructor (email: string, fullName: string, otp: OtpState)
      requires otp.otpRequests <= MAX_OTP_REQUESTS
      ensures Valid()
      ensures this.email == email && this.fullName == fullName && this.otp == otp
      ensures !isVerified && password.None? && username == ""
      ensures Lock() == Unlocked && lastLoginAt.None?
      ensures avatarUrl == "" && bannerUrl == "" && bio == "" && location == "" && website == ""
    {
      this.email := email;
      this.fullName := fullName;
      this.otp := otp;
      username := "";
      isVerified := false;
      password := None;
      isLocked := false;
      loginAttempts := 0;
      lockUntil := None;
      lastLoginAt := None;
      avatarUrl := "";
      bannerUrl := "";
      bio := "";
      location := "";
      website := "";
    }
  }

  // ---------------------------------------------------------------- handlers
  // Each handler receives the account its `findOne({ email })` lookup found,
  // or null; hashing, e-mail delivery and token issuance are parameters. Each
  // one states which fields it may change: the rest of the snapshot stays.

  /** `registerUser`. `registered` holds the e-mails in use, `draw` the random
      code digits, `hash` bcrypt, `taken` the user names in use, and
      `emailSent` whether the verification mail went out. The account exists
      once the request passes the 409 check, even if a later step fails. */
  method RegisterUser(email: string, fullName: string, dobComplete: bool, registered: set<string>,
                      now: nat, draw: nat -> Otp.Digit, hash: string -> string,
                      taken: set<string>, o: UserNames.Oracles, fuel: nat, emailSent: bool)
    returns (status: nat, user: Account?)
    ensures status in {CREATED, BAD_REQUEST, CONFLICT, SERVER_ERROR}
    ensures email == "" || fullName == "" || !dobComplete ==> status == BAD_REQUEST && user == null
    ensures email != "" && fullName != "" && dobComplete && ToLower(email) in registered ==>
      status == CONFLICT && user == null
    ensures email != "" && fullName != "" && dobComplete && ToLower(email) !in registered ==>
      user != null && status in {CREATED, SERVER_ERROR}
    ensures status == CREATED ==> emailSent
    ensures user != null ==>
      && fresh(user) && user.Valid()
      && user.email == ToLower(email) && user.fullName == Trim(fullName)
      && !user.isVerified && user.password.None? && user.Lock() == Unlocked
      && user.otp.otpRequests == 1 && user.otp.lastOtpRequestAt == Some(now)
      && user.otp.expiresAt == Some(now + Otp.OTP_TTL) && user.otp.code.Some?
      && user.otp.otpBlockedUntil.None?
    ensures status == CREATED ==>
      && user.username !in taken
      && StartsWith(user.username, UserNames.BaseName(Trim(fullName), ToLower(email)))
      && (UserNames.BaseName(Trim(fullName), ToLower(email)) !in taken ==>
            user.username == UserNames.BaseName(Trim(fullName), ToLower(email)))
    ensures user != null && emailSent && fuel > 0 && UserNames.BaseName(Trim(fullName), ToLower(email)) !in taken ==>
      status == CREATED
  {
    if email == "" || fullName == "" || !dobComplete {
      return BAD_REQUEST, null;
    }
    var lower := ToLower(email);
    if lower in registered {
      return CONFLICT, null;
    }
    var trimmed := Trim(fullName);
    var code, expire := Otp.GenerateOtp(OTP_LENGTH, now, draw);
    user := new Account(lower, trimmed, OtpState(Some(hash(code)), Some(expire), 1, Some(now), None));
    ghost var base := UserNames.BaseName(trimmed, lower);
    var names := UserNames.GenerateUserNames(trimmed, lower, taken, o, fuel);
    assert fuel > 0 && base !in taken ==> |names| > 0 && names[0] == base;
    if |names| == 0 {
      return SERVER_ERROR, user;
    }
    var name := names[0];
    assert name !in taken && StartsWith(name, base);
    assert base !in taken ==> name == base;
    user.username := name;
    if !emailSent {
      return SERVER_ERROR, user;
    }
    assert user.username == name;
    return CREATED, user;
  }

  /** `reSendOTP`: the new code is drawn by `draw` and stored as `hash` of it. */
  method ReSendOtp(email: string, user: Account?, now: nat, draw: nat -> Otp.Digit, hash: string -> string,
                   emailSent: bool)
    returns (status: nat, outcome: Option<ResendOutcome>)
    requires user != null ==> user.Valid()
    modifies user
    ensures user != null ==> user.Valid() && user.Snapshot() == old(user.Snapshot()).(otp := user.otp)
    ensures email == "" ==> status == BAD_REQUEST && outcome.None?
    ensures email != "" && user == null ==> status == NOT_FOUND && outcome.None?
    ensures outcome.None? && user != null ==> user.otp == old(user.otp)
    ensures email != "" && user != null ==>
      && outcome.Some?
      && (exists code :: user.otp == ResendStep(old(user.otp), now, hash(code)).0
            && outcome.value == ResendStep(old(user.otp), now, hash(code)).1)
      && (outcome.value.Resent? ==> status == (if emailSent then OK else SERVER_ERROR))
      && (!outcome.value.Resent? ==> status == TOO_MANY_REQUESTS)
  {
    if email == "" {
      return BAD_REQUEST, None;
    }
    if user == null {
      return NOT_FOUND, None;
    }
    var s := user.otp;
    if s.otpBlockedUntil.Some? && s.otpBlockedUntil.value > now {
      assert ResendStep(s, now, hash("")) == (s, Blocked(CeilDiv(s.otpBlockedUntil.value - now, MINUTE)));
      return TOO_MANY_REQUESTS, Some(Blocked(CeilDiv(s.otpBlockedUntil.value - now, MINUTE)));
    }
    if s.otpBlockedUntil.Some? {
      user.otp := user.otp.(otpRequests := 0, otpBlockedUntil := None);
    }
    if user.otp.otpRequests >= MAX_OTP_REQUESTS {
      user.otp := user.otp.(otpBlockedUntil := Some(now + OTP_BLOCK_TIME));
      assert user.otp == ResendStep(s, now, hash("")).0;
      return TOO_MANY_REQUESTS, Some(Throttled);
    }
    var code, expire := Otp.GenerateOtp(OTP_LENGTH, now, draw);
    user.otp := user.otp.(code := Some(hash(code)), expiresAt := Some(expire),
                          otpRequests := user.otp.otpRequests + 1, lastOtpRequestAt := Some(now));
    outcome := Some(Resent(MAX_OTP_REQUESTS - user.otp.otpRequests));
    assert user.otp == ResendStep(s, now, hash(code)).0 && outcome.value == ResendStep(s, now, hash(code)).1;
    status := if emailSent then OK else SERVER_ERROR;
  }

  /** `verifyOTP`: `matches` is bcrypt's comparison of the submitted code with
      the stored hash, `tokensOk` whether tokens could be issued afterwards
      (the account is saved before that). */
  method VerifyOtp(email: string, code: string, user: Account?, now: nat, matches: bool, tokensOk: bool)
    returns (status: nat)
    requires user != null ==> user.Valid()
    modifies user
    ensures user != null ==> user.Valid()
    ensures user != null ==>
      user.Snapshot() == old(user.Snapshot()).(otp := user.otp, isVerified := user.isVerified)
    ensures status in {OK, BAD_REQUEST, NOT_FOUND, SERVER_ERROR}
    ensures email == "" || code == "" ==> status == BAD_REQUEST
    ensures email != "" && code != "" && user == null ==> status == NOT_FOUND
    ensures (email == "" || code == "") && user != null ==> user.Snapshot() == old(user.Snapshot())
    ensures email != "" && code != "" && user != null ==>
      match VerifyStep(old(user.otp), now, matches)
      case Stop(s) => status == s && user.Snapshot() == old(user.Snapshot())
      case Pass(t) => user.otp == t && user.isVerified && status == (if tokensOk then OK else SERVER_ERROR)
  {
    if email == "" || code == "" {
      return BAD_REQUEST;
    }
    if user == null {
      return NOT_FOUND;
    }
    var s := user.otp;
    if s.code.None? || s.expiresAt.None? {
      return BAD_REQUEST;
    }
    if now > s.expiresAt.value {
      return BAD_REQUEST;
    }
    if !matches {
      return BAD_REQUEST;
    }
    user.isVerified := true;
    user.otp := user.otp.(code := None, expiresAt := None, otpRequests := 0);
    status := if tokensOk then OK else SERVER_ERROR;
  }

  /** `setPassword`: stores the hash `hashed` of a password of at least six
      characters for a verified account; the length is checked before the
      account is looked up. */
  method SetPassword(email: string, password: string, user: Account?, hashed: string)
    returns (status: nat)
    modifies user
    ensures status in {OK, BAD_REQUEST, NOT_FOUND}
    ensures status == OK <==>
      email != "" && |password| >= MIN_PASSWORD && user != null && user.isVerified
    ensures status == NOT_FOUND <==> email != "" && |password| >= MIN_PASSWORD && user == null
    ensures user != null ==>
      user.Snapshot() == old(user.Snapshot()).(password := if status == OK then Some(hashed) else old(user.password))
  {
    if email == "" || password == "" {
      return BAD_REQUEST;
    }
    if |password| < MIN_PASSWORD {
      return BAD_REQUEST;
    }
    if user == null {
      return NOT_FOUND;
    }
    if !user.isVerified {
      return BAD_REQUEST;
    }
    user.password := Some(hashed);
    return OK;
  }

  /** `sendDefaultUserName`: proposes user names for a verified account
      without storing any. */
  method SendDefaultUserName(email: string, user: Account?, taken: set<string>, o: UserNames.Oracles, fuel: nat)
    returns (r: Result<seq<string>>)
    ensures email == "" ==> r == Fail(BAD_REQUEST)
    ensures email != "" && user == null ==> r == Fail(NOT_FOUND)
    ensures r.Ok? ==>
      && r.status == OK && 1 <= |r.value| <= 2 && user != null && user.isVerified
      && forall i :: 0 <= i < |r.value| ==> r.value[i] !in taken
    ensures
      (email != "" && user != null && user.isVerified && fuel > 0
       && UserNames.BaseName(user.fullName, user.email) !in taken) ==> r.Ok?
  {
    if email == "" {
      return Fail(BAD_REQUEST);
    }
    if user == null {
      return Fail(NOT_FOUND);
    }
    if !user.isVerified {
      return Fail(BAD_REQUEST);
    }
    var names := UserNames.GenerateUserNames(user.fullName, user.email, taken, o, fuel);
    if |names| == 0 {
      return Fail(SERVER_ERROR);
    }
    return Ok(OK, names);
  }

  /** `setUserName`: stores the lowercased name when nobody has it. */
  method SetUserName(email: string, username: string, user: Account?, taken: set<string>)
    returns (status: nat)
    modifies user
    ensures status in {OK, BAD_REQUEST, NOT_FOUND, CONFLICT}
    ensures status == CONFLICT <==>
      email != "" && username != "" && user != null && user.isVerified && ToLower(username) in taken
    ensures status == OK <==>
      email != "" && username != "" && user != null && user.isVerified && ToLower(username) !in taken
    ensures user != null ==>
      user.Snapshot() == old(user.Snapshot()).(username := if status == OK then ToLower(username) else old(user.username))
  {
    if email == "" || username == "" {
      return BAD_REQUEST;
    }
    if user == null {
      return NOT_FOUND;
    }
    if !user.isVerified {
      return BAD_REQUEST;
    }
    var availability := UserNames.CheckAvailable(ToLower(username), taken);
    if !availability.available {
      return CONFLICT;
    }
    user.username := ToLower(username);
    return OK;
  }

  /** The shared checks of `setProfileImage` and `setBannerImage` up to the
      upload: the file must have content and an allow-listed image type (the
      5 MB limit compares with an undefined field and never applies), and
      `uploaded` is the URL the storage service returns ("" on failure). The
      value is the quality the image is re-encoded at. */
  function ImageUpload(email: string, file: Option<Media.Upload>, user: Account?, uploaded: string)
    : (r: Result<nat>)
    reads user
    ensures r.Ok? ==>
      && file.Some? && user != null && user.isVerified && file.value.mimetype in Media.IMAGE_TYPES
      && uploaded != "" && 10 <= r.value <= 90
      && r.value == Media.ProfileImageQuality(file.value.size, Media.TARGET_SIZE)
    ensures r.Fail? ==> r.status in {BAD_REQUEST, NOT_FOUND, SERVER_ERROR}
    ensures
      (email != "" && file.Some? && file.value.hasBuffer && file.value.mimetype in Media.IMAGE_TYPES
       && user != null && user.isVerified && uploaded != "") ==> r.Ok?
  {
    if email == "" || file.None? then Fail(BAD_REQUEST)
    else if user == null then Fail(NOT_FOUND)
    else if !user.isVerified then Fail(BAD_REQUEST)
    else if !file.value.hasBuffer || file.value.mimetype == "" then Fail(BAD_REQUEST)
    else if file.value.mimetype !in Media.IMAGE_TYPES then Fail(BAD_REQUEST)
    else if uploaded == "" then Fail(SERVER_ERROR)
    else Ok(OK, Media.ProfileImageQuality(file.value.size, Media.TARGET_SIZE))
  }

  /** `setProfileImage`. The new URL is stored only when the account had no
      avatar; otherwise the old asset is deleted (its public id is returned as
      `deleted`) and the stored URL stays the old one. */
  method SetProfileImage(email: string, file: Option<Media.Upload>, user: Account?, uploaded: string)
    returns (r: Result<string>, deleted: Option<string>)
    modifies user
    ensures user != null ==> user.Snapshot() == old(user.Snapshot()).(avatarUrl := user.avatarUrl)
    ensures ImageUpload(email, file, user, uploaded).Fail? ==>
      && r == Fail(ImageUpload(email, file, user, uploaded).status) && deleted.None?
      && (user != null ==> user.avatarUrl == old(user.avatarUrl))
    ensures ImageUpload(email, file, user, uploaded).Ok? ==>
      && r == Ok(OK, uploaded) && user != null
      && (old(user.avatarUrl) == "" ==> user.avatarUrl == uploaded && deleted.None?)
      && (old(user.avatarUrl) != "" ==>
            user.avatarUrl == old(user.avatarUrl) && deleted == PublicId.GetPublicId(Some(old(user.avatarUrl))))
  {
    var check := ImageUpload(email, file, user, uploaded);
    if check.Fail? {
      return Fail(check.status), None;
    }
    if user.avatarUrl != "" {
      deleted := PublicId.GetPublicId(Some(user.avatarUrl));
    } else {
      deleted := None;
      user.avatarUrl := uploaded;
    }
    r := Ok(OK, uploaded);
  }

  /** `setBannerImage`: the same rules as `setProfileImage` for `bannerUrl`. */
  method SetBannerImage(email: string, file: Option<Media.Upload>, user: Account?, uploaded: string)
    returns (r: Result<string>, deleted: Option<string>)
    modifies user
    ensures user != null ==> user.Snapshot() == old(user.Snapshot()).(bannerUrl := user.bannerUrl)
    ensures ImageUpload(email, file, user, uploaded).Fail? ==>
      && r == Fail(ImageUpload(email, file, user, uploaded).status) && deleted.None?
      && (user != null ==> user.bannerUrl == old(user.bannerUrl))
    ensures ImageUpload(email, file, user, uploaded).Ok? ==>
      && r == Ok(OK, uploaded) && user != null
      && (old(user.bannerUrl) == "" ==> user.bannerUrl == uploaded && deleted.None?)
      && (old(user.bannerUrl) != "" ==>
            user.bannerUrl == old(user.bannerUrl) && deleted == PublicId.GetPublicId(Some(old(user.bannerUrl))))
  {
    var check := ImageUpload(email, file, user, uploaded);
    if check.Fail? {
      return Fail(check.status), None;
    }
    if user.bannerUrl != "" {
      deleted := PublicId.GetPublicId(Some(user.bannerUrl));
    } else {
      deleted := None;
      user.bannerUrl := uploaded;
    }
    r := Ok(OK, uploaded);
  }

  /** `x || user.x`: an empty submitted value keeps the stored one. */
  function OrKeep(submitted: string, stored: string): (r: string)
    ensures submitted != "" ==> r == submitted
    ensures submitted == "" ==> r == stored
  {
    if submitted != "" then submitted else stored
  }

  /** `updateProfile`: overwrites each of the four fields for which a
      non-empty value is submitted. */
  method UpdateProfile(email: string, fullName: string, bio: string, location: string, website: string,
                       user: Account?)
    returns (status: nat)
    modifies user
    ensures email == "" ==> status == BAD_REQUEST
    ensures email != "" && user == null ==> status == NOT_FOUND
    ensures status == OK <==> email != "" && user != null && user.isVerified
    ensures user != null && status == OK ==>
      user.Snapshot() == old(user.Snapshot()).(
        fullName := OrKeep(fullName, old(user.fullName)), bio := OrKeep(bio, old(user.bio)),
        location := OrKeep(location, old(user.location)), website := OrKeep(website, old(user.website)))
    ensures user != null && status != OK ==> user.Snapshot() == old(user.Snapshot())
  {
    if email == "" {
      return BAD_REQUEST;
    }
    if user == null {
      return NOT_FOUND;
    }
    if !user.isVerified {
      return BAD_REQUEST;
    }
    user.fullName := OrKeep(fullName, user.fullName);
    user.bio := OrKeep(bio, user.bio);
    user.location := OrKeep(location, user.location);
    user.website := OrKeep(website, user.website);
    return OK;
  }

  /** A lock whose end time is still ahead. */
  predicate LockInForce(s: LockState, now: nat) {
    s.isLocked && s.lockUntil.Some? && s.lockUntil.value > now
  }

  /** `loginUser`: `matches` is bcrypt's comparison of the submitted password
      with the stored hash and `tokensOk` whether tokens could be issued. The
      success-path reset is saved only after the tokens, so a token failure
      keeps the fields as they were after any expired lock was cleared. A
      verified account that has no password yet has no hash to compare with:
      bcrypt rejects the call, which is a 500 with the attempts untouched. */
  method LoginUser(email: string, password: string, user: Account?, now: nat, matches: bool, tokensOk: bool)
    returns (status: nat, outcome: Option<LoginOutcome>)
    requires user != null ==> user.Valid()
    modifies user
    ensures user != null ==> user.Valid()
    ensures user != null ==>
      user.Snapshot() == old(user.Snapshot()).(lock := user.Lock(), lastLoginAt := user.lastLoginAt)
    ensures email == "" || password == "" ==> status == BAD_REQUEST && outcome.None?
    ensures email != "" && password != "" && user == null ==> status == NOT_FOUND && outcome.None?
    ensures outcome.None? && user != null ==> user.Snapshot() == old(user.Snapshot())
    ensures email != "" && password != "" && user != null && !old(user.isVerified) ==>
      status == BAD_REQUEST && outcome.None?
    ensures email != "" && password != "" && user != null && user.isVerified ==>
      if old(user.password).None? && !LockInForce(old(user.Lock()), now) then outcome == Some(NoPassword)
      else outcome == Some(LoginStep(old(user.Lock()), now, matches).1)
    ensures outcome.Some? && user != null ==>
      match outcome.value
      case Locked(_) => status == FORBIDDEN && user.Snapshot() == old(user.Snapshot())
      case WrongPassword(_) =>
        && status == BAD_REQUEST && user.Lock() == LoginStep(old(user.Lock()), now, matches).0
        && user.lastLoginAt == old(user.lastLoginAt)
      case LockedOut =>
        && status == BAD_REQUEST && user.Lock() == LoginStep(old(user.Lock()), now, matches).0
        && user.lastLoginAt == old(user.lastLoginAt)
      case NoPassword =>
        && status == SERVER_ERROR && old(user.password).None?
        && user.Lock() == ClearExpiredLock(old(user.Lock()), now) && user.lastLoginAt == old(user.lastLoginAt)
      case Matched =>
        if tokensOk then status == OK && user.Lock() == Unlocked && user.lastLoginAt == Some(now)
        else
          && status == SERVER_ERROR && user.Lock() == ClearExpiredLock(old(user.Lock()), now)
          && user.lastLoginAt == old(user.lastLoginAt)
  {
    if email == "" || password == "" {
      return BAD_REQUEST, None;
    }
    if user == null {
      return NOT_FOUND, None;
    }
    if !user.isVerified {
      return BAD_REQUEST, None;
    }
    ghost var s := user.Lock();
    LoginStepKeepsLock(s, now, matches);
    if user.isLocked && user.lockUntil.Some? {
      if user.lockUntil.value > now {
        return FORBIDDEN, Some(Locked(CeilDiv(user.lockUntil.value - now, MINUTE)));
      } else {
        user.isLocked := false;
        user.loginAttempts := 0;
        user.lockUntil := None;
      }
    }
    assert user.Lock() == ClearExpiredLock(s, now);
    if user.password.None? {
      return SERVER_ERROR, Some(NoPassword);
    }
    if !matches {
      user.loginAttempts := user.loginAttempts + 1;
      if user.loginAttempts >= MAX_LOGIN_ATTEMPTS {
        user.isLocked := true;
        user.lockUntil := Some(now + LOCK_TIME);
        return BAD_REQUEST, Some(LockedOut);
      }
      return BAD_REQUEST, Some(WrongPassword(MAX_LOGIN_ATTEMPTS - user.loginAttempts));
    }
    if !tokensOk {
      return SERVER_ERROR, Some(Matched);
    }
    user.loginAttempts := 0;
    user.isLocked := false;
    user.lockUntil := None;
    user.lastLoginAt := Some(now);
    return OK, Some(Matched);
  }
}
