/**
 * End-to-end runs of the handlers on a fresh database, proved from their
 * contracts alone: a paste that expires, a password-protected paste, and
 * deletion rights.
 */
module Scenarios {
  import opened Wrappers
  import Text
  import opened Models
  import opened Db
  import opened Auth
  import opened Pastes

  /**
   * An anonymous paste "hello" that expires in one minute is shown right away
   * and, 61 seconds later, is not found and gone from the table.
   */
  method ExpiringPaste(hash: string -> Option<string>, now: int)
    returns (first: ViewOutcome, later: ViewOutcome, stillStored: bool)
    ensures first.Shown? && first.paste.content == "hello" && !first.isOwner
    ensures later == NotFound && !stillStored
  {
    var db := new Store();
    Models.ToDateTimeExamples(now);
    assert "1m"[..1] == "1" && "1"[..0] == "";
    FromStrUnit("1m");
    var form := CreatePasteForm("hello", None, None, Some("1m"));
    var created := CreatePaste(db, None, form, "Xy3_kP9a", hash, now);
    first := ViewPaste(db, None, "Xy3_kP9a", now);
    later := ViewPaste(db, None, "Xy3_kP9a", now + 61);
    stillStored := "Xy3_kP9a" in db.pastes;
  }

  /**
   * A paste protected by the password "x" and owned by a registered user: a
   * visitor gets the prompt, a wrong password gets "Incorrect password", the
   * right one shows the paste, and the owner sees it without any password.
   */
  method ProtectedPaste(hash: string -> Option<string>, verify: (string, string) -> bool, now: int)
    returns (visitor: ViewOutcome, wrong: ViewOutcome, right: ViewOutcome, owner: ViewOutcome)
    requires hash("secret1").Some? && hash("x").Some?
    requires verify("x", hash("x").value) && !verify("y", hash("x").value)
    ensures visitor == PasswordPrompt("pw", None)
    ensures wrong == PasswordPrompt("pw", Some(IncorrectPassword))
    ensures right.Shown? && !right.isOwner
    ensures owner.Shown? && owner.isOwner
  {
    var db := new Store();
    var alice := RegisterAlice(db, hash, now);
    var form := CreatePasteForm("secret text", Some("rust"), Some("x"), None);
    var created := CreatePaste(db, Some(alice), form, "pw", hash, now);
    visitor := ViewPaste(db, None, "pw", now);
    wrong := VerifyPastePassword(db, None, "pw", PasswordForm("y"), verify, now);
    right := VerifyPastePassword(db, None, "pw", PasswordForm("x"), verify, now);
    owner := ViewPaste(db, Some(alice), "pw", now);
  }

  /** An anonymous paste goes when a user who did not write it asks. */
  method AnonymousDeletion(hash: string -> Option<string>, now: int) returns (gone: bool)
    requires hash("secret1").Some?
    ensures gone
  {
    var db := new Store();
    var alice := RegisterAlice(db, hash, now);
    var _ := CreatePaste(db, None, CreatePasteForm("anyone's", None, None, None), "anon", hash, now);
    var _ := DeletePaste(db, Some(alice), "anon");
    gone := "anon" !in db.pastes;
  }

  /** A paste owned by one user survives another user's request and goes at its owner's. */
  method OwnedDeletion(hash: string -> Option<string>, now: int) returns (keptForOther: bool, goneForOwner: bool)
    requires hash("secret1").Some? && hash("secret2").Some?
    ensures keptForOther && goneForOwner
  {
    var db := new Store();
    var alice := RegisterAlice(db, hash, now);
    var bob := RegisterBob(db, hash, now);
    var _ := CreatePaste(db, Some(alice), CreatePasteForm("alice's", None, None, None), "mine", hash, now);
    var _ := DeletePaste(db, Some(bob), "mine");
    keptForOther := "mine" in db.pastes;
    var _ := DeletePaste(db, Some(alice), "mine");
    goneForOwner := "mine" !in db.pastes;
  }

  /** Registers "bobby" with password "secret2" after "alice" and returns the new user's session. */
  method RegisterBob(db: Store, hash: string -> Option<string>, now: int) returns (session: string)
    requires db.Valid() && db.pastes == map[] && db.nextUserId == 2 && db.users.Keys == {1}
    requires db.users[1].username == "alice"
    requires hash("secret2").Some?
    modifies db
    ensures db.Valid() && db.pastes == map[] && db.users.Keys == {1, 2}
    ensures db.users[1] == old(db.users[1]) && db.users[2].username == "bobby"
    ensures CurrentUser(db, Some(session)) == Some(db.users[2])
  {
    assert Text.Utf8Len("bobby") == 5;
    assert Text.Utf8Len("secret2") == 7;
    assert !UsernameTaken(db.users, "bobby");
    var r := Register(db, RegisterForm("bobby", "secret2", "secret2"), hash, now);
    session := r.session;
  }

  /** Registers "alice" with password "secret1" on an empty database and returns the new user's session. */
  method RegisterAlice(db: Store, hash: string -> Option<string>, now: int) returns (session: string)
    requires db.Valid() && db.users == map[] && db.pastes == map[] && db.nextUserId == 1
    requires hash("secret1").Some?
    modifies db
    ensures db.Valid() && db.pastes == map[] && 1 in db.users && db.users[1].username == "alice"
    ensures db.nextUserId == 2 && db.users.Keys == {1}
    ensures CurrentUser(db, Some(session)) == Some(db.users[1])
  {
    assert Text.Utf8Len("alice") == 5;
    assert Text.Utf8Len("secret1") == 7;
    var r := Register(db, RegisterForm("alice", "secret1", "secret1"), hash, now);
    session := r.session;
  }
}
