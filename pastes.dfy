/**
 * The paste handlers: creating a paste, viewing it (with lazy expiry, the
 * password gate and the view counter), submitting a paste password, the raw
 * view and deletion, each reduced to the outcome it renders and its effect on
 * the tables.
 */
module Pastes {
  import opened Wrappers
  import opened Models
  import opened Db
  import opened Auth

  /** Whether the resolved user is the paste's owner; never for an anonymous paste or visitor. */
  predicate IsOwner(user: Option<User>, p: Paste)
    ensures user.None? || p.userId.None? ==> !IsOwner(user, p)
  {
    user.Some? && p.userId == Some(user.value.id)
  }

  /** `delete_paste`'s rule: the owner may delete, and anyone may delete an anonymous paste. */
  predicate MayDelete(user: Option<User>, p: Paste)
    ensures p.userId.None? ==> MayDelete(user, p)
    ensures user.None? ==> (MayDelete(user, p) <==> p.userId.None?)
  {
    IsOwner(user, p) || p.userId.None?
  }

  /** What the view page says about the time left before a paste expires. */
  datatype Remaining = AlreadyExpired | DaysLeft(days: int) | HoursLeft(hours: int) | MinutesLeft(minutes: int)

  /**
   * `calculate_expires_in`: no expiry gives nothing; no time left gives
   * "Expired"; otherwise the time left in whole days if at least a day, else in
   * whole hours if at least an hour, else in whole minutes (0 under a minute).
   */
  function CalculateExpiresIn(expiresAt: Option<int>, now: int): (r: Option<Remaining>)
    ensures r.None? <==> expiresAt.None?
    ensures r == Some(AlreadyExpired) <==> expiresAt.Some? && expiresAt.value <= now
    ensures r.Some? && r.value.DaysLeft? ==>
      var left := expiresAt.value - now;
      1 <= r.value.days && r.value.days * 86400 <= left < (r.value.days + 1) * 86400
    ensures r.Some? && r.value.HoursLeft? ==>
      var left := expiresAt.value - now;
      1 <= r.value.hours <= 23 && r.value.hours * 3600 <= left < (r.value.hours + 1) * 3600
    ensures r.Some? && r.value.MinutesLeft? ==>
      var left := expiresAt.value - now;
      0 <= r.value.minutes <= 59 && 0 < left && r.value.minutes * 60 <= left < (r.value.minutes + 1) * 60
    ensures expiresAt.Some? && expiresAt.value - now >= 86400 ==> r.value.DaysLeft?
    ensures expiresAt.Some? && 3600 <= expiresAt.value - now < 86400 ==> r.value.HoursLeft?
    ensures expiresAt.Some? && 0 < expiresAt.value - now < 3600 ==> r.value.MinutesLeft?
  {
    match expiresAt
    case None => None
    case Some(t) =>
      var seconds := t - now;
      if seconds <= 0 then Some(AlreadyExpired)
      else if seconds / 86400 > 0 then Some(DaysLeft(seconds / 86400))
      else if seconds / 3600 > 0 then Some(HoursLeft(seconds / 3600))
      else Some(MinutesLeft(seconds / 60))
  }

  /** An expiration token `create_paste` can handle: it splits, and chrono accepts its duration. */
  predicate AcceptableToken(token: string) {
    SplittableToken(token) && DurationInRange(FromStr(token))
  }

  /**
   * The row `create_paste` inserts: language defaults to "plaintext", an empty
   * password counts as none and is never hashed, a failed hash stores no hash,
   * the expiry comes from the token (none without one), `created_at` is `now`,
   * the view count starts at 0 and the owner is the signed-in user, if any.
   */
  function NewPaste(id: string, form: CreatePasteForm, user: Option<User>,
                    hash: string -> Option<string>, now: int): (p: Paste)
    requires form.expiration.Some? ==> AcceptableToken(form.expiration.value)
    ensures p.id == id && p.content == form.content && p.createdAt == now && p.viewCount == 0
    ensures p.language == Some(if form.language.Some? then form.language.value else "plaintext")
    ensures p.userId.Some? <==> user.Some?
    ensures user.Some? ==> p.userId == Some(user.value.id)
    ensures p.passwordHash.Some? ==>
      form.password.Some? && form.password.value != "" && p.passwordHash == hash(form.password.value)
    ensures form.password.Some? && form.password.value != "" && hash(form.password.value).Some? ==>
      p.passwordHash == hash(form.password.value)
    ensures p.expiresAt.Some? <==> form.expiration.Some? && !FromStr(form.expiration.value).Never?
    ensures p.expiresAt.Some? ==> p.expiresAt.value == now + DurationSeconds(FromStr(form.expiration.value))
  {
    var passwordHash :=
      match form.password
      case Some(pw) => if pw != "" then hash(pw) else None
      case None => None;
    var expiresAt :=
      match form.expiration
      case Some(token) => ToDateTime(FromStr(token), now)
      case None => None;
    Paste(id, form.content, Some(form.language.GetOr("plaintext")), passwordHash, expiresAt,
          now, 0, if user.Some? then Some(user.value.id) else None)
  }

  datatype CreateOutcome = RedirectTo(location: string) | ServerError(message: string)

  /**
   * `create_paste` with the id `newId` the generator produced: the new row goes
   * in under that id and the browser is sent to "/<id>". If the id is taken the
   * insert fails, nothing changes and the answer is a server error.
   */
  method CreatePaste(db: Store, session: Option<string>, form: CreatePasteForm, newId: string,
                     hash: string -> Option<string>, now: int) returns (r: CreateOutcome)
    requires db.Valid()
    requires form.expiration.Some? ==> AcceptableToken(form.expiration.value)
    modifies db
    ensures db.Valid() && db.users == old(db.users) && db.nextUserId == old(db.nextUserId)
    ensures newId in old(db.pastes) ==> r == ServerError("Failed to create paste") && db.pastes == old(db.pastes)
    ensures newId !in old(db.pastes) ==>
      && r == RedirectTo("/" + newId)
      && db.pastes == old(db.pastes)[newId := NewPaste(newId, form, old(CurrentUser(db, session)), hash, now)]
  {
    var user := CurrentUser(db, session);
    var paste := NewPaste(newId, form, user, hash, now);
    var ok := db.InsertPaste(paste);
    if ok {
      r := RedirectTo("/" + newId);
    } else {
      r := ServerError("Failed to create paste");
    }
  }

  /** What a request for a paste page renders. */
  datatype ViewOutcome =
    | NotFound
    | PasswordPrompt(id: string, error: Option<string>)
    | Shown(paste: Paste, isOwner: bool, expiresIn: Option<Remaining>)

  /** Whether the password gate stops `user` from seeing `p`. */
  predicate Gated(user: Option<User>, p: Paste)
    ensures p.passwordHash.None? || IsOwner(user, p) ==> !Gated(user, p)
    ensures user.None? || p.userId.None? ==> (Gated(user, p) <==> p.passwordHash.Some?)
  {
    p.passwordHash.Some? && !IsOwner(user, p)
  }

  /**
   * `view_paste`: a missing paste is not found. An expired one is deleted and
   * not found. A password-protected paste viewed by anyone but its owner
   * renders the password prompt with no error. Otherwise the paste is shown as
   * it was read, and its view count goes up by exactly one. Nothing else changes.
   */
  method ViewPaste(db: Store, session: Option<string>, id: string, now: int) returns (r: ViewOutcome)
    requires db.Valid()
    modifies db
    ensures db.Valid() && db.users == old(db.users) && db.nextUserId == old(db.nextUserId)
    ensures id !in old(db.pastes) ==> r == NotFound && db.pastes == old(db.pastes)
    ensures id in old(db.pastes) && Expired(old(db.pastes)[id], now) ==>
      r == NotFound && db.pastes == old(db.pastes) - {id}
    ensures id in old(db.pastes) && !Expired(old(db.pastes)[id], now) ==>
      var p := old(db.pastes)[id];
      var user := old(CurrentUser(db, session));
      if Gated(user, p) then
        r == PasswordPrompt(id, None) && db.pastes == old(db.pastes)
      else
        && r == Shown(p, IsOwner(user, p), CalculateExpiresIn(p.expiresAt, now))
        && db.pastes == old(db.pastes)[id := p.(viewCount := p.viewCount + 1)]
    ensures r.Shown? ==> !Expired(r.paste, now) && (r.paste.passwordHash.None? || r.isOwner)
  {
    var user := CurrentUser(db, session);
    if id !in db.pastes {
      return NotFound;
    }
    var paste := db.pastes[id];
    if Expired(paste, now) {
      db.DeletePaste(id);
      return NotFound;
    }
    var isOwner := IsOwner(user, paste);
    if paste.passwordHash.Some? && !isOwner {
      return PasswordPrompt(id, None);
    }
    db.IncrementViewCount(paste.id);
    r := Shown(paste, isOwner, CalculateExpiresIn(paste.expiresAt, now));
  }

  const IncorrectPassword: string := "Incorrect password"

  /**
   * `verify_paste_password`: the paste is shown, and its view count goes up by
   * one, only when it has a password hash and the submitted password verifies
   * against it. A paste without a hash always answers "Incorrect password",
   * and the owner gets no bypass here. This handler does not look at the expiry.
   */
  method VerifyPastePassword(db: Store, session: Option<string>, id: string, form: PasswordForm,
                             verify: (string, string) -> bool, now: int) returns (r: ViewOutcome)
    requires db.Valid()
    modifies db
    ensures db.Valid() && db.users == old(db.users) && db.nextUserId == old(db.nextUserId)
    ensures id !in old(db.pastes) ==> r == NotFound && db.pastes == old(db.pastes)
    ensures id in old(db.pastes) ==>
      var p := old(db.pastes)[id];
      if p.passwordHash.Some? && verify(form.password, p.passwordHash.value) then
        && r == Shown(p, IsOwner(old(CurrentUser(db, session)), p), CalculateExpiresIn(p.expiresAt, now))
        && db.pastes == old(db.pastes)[id := p.(viewCount := p.viewCount + 1)]
      else
        r == PasswordPrompt(id, Some(IncorrectPassword)) && db.pastes == old(db.pastes)
    ensures r.Shown? ==> r.paste.passwordHash.Some? && verify(form.password, r.paste.passwordHash.value)
  {
    var user := CurrentUser(db, session);
    if id !in db.pastes {
      return NotFound;
    }
    var paste := db.pastes[id];
    var isValid := paste.passwordHash.Some? && verify(form.password, paste.passwordHash.value);
    if !isValid {
      return PasswordPrompt(id, Some(IncorrectPassword));
    }
    db.IncrementViewCount(paste.id);
    var isOwner := IsOwner(user, paste);
    r := Shown(paste, isOwner, CalculateExpiresIn(paste.expiresAt, now));
  }

  datatype RawOutcome = RawNotFound | RawForbidden | RawContent(content: string)

  /**
   * `view_raw`: the bare content of a paste without a password, a refusal for
   * a protected one (whoever asks), not found for a missing one. It neither
   * checks expiry nor counts a view.
   */
  method ViewRaw(db: Store, id: string) returns (r: RawOutcome)
    ensures r.RawNotFound? <==> id !in db.pastes
    ensures r.RawForbidden? <==> id in db.pastes && db.pastes[id].passwordHash.Some?
    ensures r.RawContent? <==> id in db.pastes && db.pastes[id].passwordHash.None?
    ensures r.RawContent? ==> r.content == db.pastes[id].content
  {
    if id !in db.pastes {
      return RawNotFound;
    }
    var paste := db.pastes[id];
    if paste.passwordHash.None? {
      r := RawContent(paste.content);
    } else {
      r := RawForbidden;
    }
  }

  datatype Redirect = Redirect(location: string)

  /**
   * `delete_paste`: the paste goes exactly when it exists and the requester
   * owns it or it has no owner; otherwise nothing changes. The answer is always
   * a redirect to "/".
   */
  method DeletePaste(db: Store, session: Option<string>, id: string) returns (r: Redirect)
    requires db.Valid()
    modifies db
    ensures db.Valid() && db.users == old(db.users) && db.nextUserId == old(db.nextUserId)
    ensures r == Redirect("/")
    ensures id in old(db.pastes) && MayDelete(old(CurrentUser(db, session)), old(db.pastes)[id]) ==>
      db.pastes == old(db.pastes) - {id}
    ensures !(id in old(db.pastes) && MayDelete(old(CurrentUser(db, session)), old(db.pastes)[id])) ==>
      db.pastes == old(db.pastes)
  {
    var user := CurrentUser(db, session);
    if id in db.pastes {
      var paste := db.pastes[id];
      var isOwner := IsOwner(user, paste);
      var isAnonymous := paste.userId.None?;
      if isOwner || isAnonymous {
        db.DeletePaste(id);
      }
    }
    r := Redirect("/");
  }

  /** Only the owner may delete an owned paste: another signed-in user, or a visitor, may not. */
  lemma OnlyOwnerDeletesOwned(user: Option<User>, p: Paste, owner: int)
    requires p.userId == Some(owner)
    ensures MayDelete(user, p) <==> user.Some? && user.value.id == owner
  {
  }
}
