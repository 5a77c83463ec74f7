/**
 * The user routes that change the user table: editing one's profile,
 * changing one's password, and, for administrators, changing a user's
 * status and deleting a user. Password hashing and comparison are
 * parameters.
 */
module Users {
  import opened Common
  import opened Store
  import Auth

  const UserNotFound := "Utilisateur non trouvé"
  const SelfDeletion := "Vous ne pouvez pas supprimer votre propre compte"
  const CreatorDeletion := "Impossible de supprimer un utilisateur qui a créé des lectures partagées"

  /** No two users share an address: the unique key of the e-mail column. */
  predicate UniqueEmails(users: map<Id, User>) {
    forall a, b :: a in users && b in users && a != b ==> users[a].email != users[b].email
  }

  /** Another user than `self` has the address. */
  predicate EmailTakenByOther(users: map<Id, User>, email: string, self: Id) {
    exists id :: id in users && id != self && users[id].email == email
  }

  // ---------------------------------------------------------------------------
  // Profile

  /** The fields of `PUT /profile`, `None` when undefined. */
  datatype ProfileRequest = ProfileRequest(name: Option<string>, email: Option<string>)

  /** The first key the body breaks: a name of 2 to 50 characters, an address. */
  function ProfileViolation(req: ProfileRequest): (key: Option<string>)
    ensures key.None? <==> (req.name.None? || 2 <= |req.name.value| <= 50) && (req.email.None? || EmailLike(req.email.value))
    ensures key == Some("name") <==> req.name.Some? && !(2 <= |req.name.value| <= 50)
    ensures key.Some? ==> key == Some("name") || key == Some("email")
  {
    if req.name.Some? && !(2 <= |req.name.value| <= 50) then Some("name")
    else if req.email.Some? && !EmailLike(req.email.value) then Some("email")
    else None
  }

  /** The supplied name and address replace the old ones, an uploaded avatar sets the avatar path, and nothing else changes. */
  predicate ProfileUpdated(before: User, req: ProfileRequest, avatarFile: Option<string>, after: User) {
    && after.name == req.name.GetOr(before.name)
    && after.email == req.email.GetOr(before.email)
    && after.avatar == (if avatarFile.Some? then Some("/uploads/avatars/" + avatarFile.value) else before.avatar)
    && after.password == before.password && after.status == before.status
  }

  /**
   * `PUT /profile`: `avatarFile` is the stored name of an uploaded image. The
   * user is the one `authenticate` found.
   */
  method UpdateProfile(db: Database, user: Principal, req: ProfileRequest, avatarFile: Option<string>) returns (r: Response<User>)
    requires user.id in db.users
    modifies db`users
    ensures ProfileViolation(req).Some? ==> r == Refused(400, ProfileViolation(req).value)
    ensures ProfileViolation(req).None? && req.email.Some? && EmailTakenByOther(old(db.users), req.email.value, user.id) ==>
      r == Refused(400, "Cet email est déjà utilisé")
    ensures r.Ok? <==>
      ProfileViolation(req).None? && !(req.email.Some? && EmailTakenByOther(old(db.users), req.email.value, user.id))
    ensures r.Ok? ==> ProfileUpdated(old(db.users)[user.id], req, avatarFile, r.value) && db.users == old(db.users)[user.id := r.value]
    ensures !r.Ok? ==> db.users == old(db.users)
  {
    var violation := ProfileViolation(req);
    if violation.Some? {
      return Refused(400, violation.value);
    }
    var after := db.users[user.id];
    if req.name.Some? {
      after := after.(name := req.name.value);
    }
    if req.email.Some? {
      if EmailTakenByOther(db.users, req.email.value, user.id) {
        return Refused(400, "Cet email est déjà utilisé");
      }
      after := after.(email := req.email.value);
    }
    if avatarFile.Some? {
      after := after.(avatar := Some("/uploads/avatars/" + avatarFile.value));
    }
    db.users := db.users[user.id := after];
    r := Ok(after);
  }

  /** A profile update never gives two users the same address. */
  lemma ProfileKeepsEmailsUnique(users: map<Id, User>, self: Id, req: ProfileRequest, avatarFile: Option<string>, after: User)
    requires UniqueEmails(users) && self in users
    requires ProfileUpdated(users[self], req, avatarFile, after)
    requires !(req.email.Some? && EmailTakenByOther(users, req.email.value, self))
    ensures UniqueEmails(users[self := after])
  {
    var m := users[self := after];
    forall a, b | a in m && b in m && a != b ensures m[a].email != m[b].email {
      if a == self {
        if req.email.None? {
          assert m[a].email == users[self].email;
        } else {
          assert !(b in users && b != self && users[b].email == req.email.value);
        }
      } else if b == self {
        if req.email.None? {
          assert m[b].email == users[self].email;
        } else {
          assert !(a in users && a != self && users[a].email == req.email.value);
        }
      }
    }
  }

  // ---------------------------------------------------------------------------
  // Password

  /**
   * `PUT /password`: both passwords are required, the new one of at least 6
   * characters; `matches(plain, hashed)` tells whether a password fits a
   * stored hash.
   */
  method ChangePassword(db: Database, user: Principal, current: Option<string>, next: Option<string>,
                        matches: (string, string) -> bool, hash: string -> string) returns (r: Response<()>)
    modifies db`users
    ensures !Truthy(current) ==> r == Refused(400, "currentPassword")
    ensures Truthy(current) && !(next.Some? && |next.value| >= 6) ==> r == Refused(400, "newPassword")
    ensures Truthy(current) && next.Some? && |next.value| >= 6
            && (user.id !in old(db.users) || !matches(current.value, old(db.users)[user.id].password)) ==>
      r == Refused(400, "Mot de passe actuel incorrect")
    ensures r.Ok? <==>
      Truthy(current) && next.Some? && |next.value| >= 6 && user.id in old(db.users)
      && matches(current.value, old(db.users)[user.id].password)
    ensures r.Ok? ==> db.users == old(db.users)[user.id := old(db.users)[user.id].(password := hash(next.value))]
    ensures !r.Ok? ==> db.users == old(db.users)
  {
    if !Truthy(current) {
      return Refused(400, "currentPassword");
    }
    if next.None? || |next.value| < 6 {
      return Refused(400, "newPassword");
    }
    if user.id !in db.users || !matches(current.value, db.users[user.id].password) {
      return Refused(400, "Mot de passe actuel incorrect");
    }
    db.users := db.users[user.id := db.users[user.id].(password := hash(next.value))];
    r := Ok(());
  }

  // ---------------------------------------------------------------------------
  // Administration of users

  /** `PUT /:id/status`: any of the five statuses, GUEST included. */
  method UpdateStatus(db: Database, admin: Principal, id: Id, status: Option<string>) returns (r: Response<User>)
    modifies db`users
    ensures admin.status != ADMIN ==> r == Refused(403, "Accès non autorisé")
    ensures admin.status == ADMIN && (status.None? || ParseRole(status.value).None?) ==> r == Refused(400, "status")
    ensures admin.status == ADMIN && status.Some? && ParseRole(status.value).Some? && id !in old(db.users) ==>
      r == Refused(404, UserNotFound)
    ensures r.Ok? <==> admin.status == ADMIN && status.Some? && ParseRole(status.value).Some? && id in old(db.users)
    ensures r.Ok? ==>
      && RoleName(r.value.status) == status.value
      && r.value == old(db.users)[id].(status := r.value.status) && db.users == old(db.users)[id := r.value]
    ensures !r.Ok? ==> db.users == old(db.users)
  {
    var gate := Auth.Authorize([ADMIN], Some(admin));
    if gate.Reject? {
      return Refused(gate.status, gate.error);
    }
    if status.None? || ParseRole(status.value).None? {
      return Refused(400, "status");
    }
    if id !in db.users {
      return Refused(404, UserNotFound);
    }
    var updated := db.users[id].(status := ParseRole(status.value).value);
    db.users := db.users[id := updated];
    r := Ok(updated);
  }

  /** The only statuses the endpoint accepts are the enum's five names. */
  lemma StatusWhitelist(s: string)
    ensures ParseRole(s).Some? <==> s == "USER" || s == "TRANSLATOR" || s == "AUTHOR" || s == "GUEST" || s == "ADMIN"
  {
    if ParseRole(s).Some? {
      ParseRoleName(ParseRole(s).value);
    }
  }

  predicate CreatedBy(id: Id, reading: Reading) {
    reading.createdBy == id
  }

  /**
   * `DELETE /:id`: deleting oneself is refused before the lookup, and so is a
   * user who created shared readings.
   */
  method DeleteUser(db: Database, admin: Principal, id: Id) returns (r: Response<()>)
    modifies db`users
    ensures admin.status != ADMIN ==> r == Refused(403, "Accès non autorisé")
    ensures admin.status == ADMIN && id == admin.id ==> r == Refused(400, SelfDeletion)
    ensures admin.status == ADMIN && id != admin.id && id !in old(db.users) ==> r == Refused(404, UserNotFound)
    ensures admin.status == ADMIN && id != admin.id && id in old(db.users)
            && (exists rid :: rid in db.readings && db.readings[rid].createdBy == id) ==>
      r == Refused(400, CreatorDeletion)
    ensures r.Ok? <==>
      admin.status == ADMIN && id != admin.id && id in old(db.users)
      && forall rid :: rid in db.readings ==> db.readings[rid].createdBy != id
    ensures r.Ok? ==> db.users == old(db.users) - {id}
    ensures !r.Ok? ==> db.users == old(db.users)
  {
    var gate := Auth.Authorize([ADMIN], Some(admin));
    if gate.Reject? {
      return Refused(gate.status, gate.error);
    }
    if id == admin.id {
      return Refused(400, SelfDeletion);
    }
    if id !in db.users {
      return Refused(404, UserNotFound);
    }
    var created := CountReadings(db.readings, (x: Reading) => CreatedBy(id, x));
    CountReadingsZero(db.readings, (x: Reading) => CreatedBy(id, x));
    assert created == 0 <==> forall rid :: rid in db.readings ==> db.readings[rid].createdBy != id;
    if created > 0 {
      return Refused(400, CreatorDeletion);
    }
    db.users := db.users - {id};
    r := Ok(());
  }
}
