/** What the account endpoints promise: an email is used by at most one
    account, and teachers may only create accounts whose email domain fits
    the role. */
module AccountRules {
  import opened Types
  import opened Seqs
  import opened Endpoints

  ghost predicate EmailUsed(db: Db, email: string) {
    exists i :: 0 <= i < |db.users| && db.users[i].email == email
  }

  /** The domain rule of `POST /create-user`; roles other than teacher and
      student are not checked. */
  predicate EmailFitsRole(email: string, role: Role) {
    match role
    case Teacher => EndsWith(email, TeacherEmailSuffix)
    case Student => EndsWith(email, StudentEmailSuffix)
    case OtherRole(_) => true
  }

  lemma FindUserFindsUsed(db: Db, email: string)
    ensures FindUser(db.users, email).None? <==> !EmailUsed(db, email)
  {
    var found := FindUser(db.users, email);
    if found.Some? {
      assert db.users[found.value].email == email;
    } else {
      forall i | 0 <= i < |db.users| ensures db.users[i].email != email {
        assert !((u: User) => u.email == email)(db.users[i]);
      }
    }
  }

  lemma RegisterRejectsUsedEmail(db: Db, user: User)
    ensures var r := Register(db, user);
      && (r.result.Failure? <==> EmailUsed(db, user.email))
      && (r.result.Failure? ==> r.result.error == EmailAlreadyRegistered && r.db == db)
      && (r.result.Success? ==> r.db == db.(users := db.users + [user]))
  {
    FindUserFindsUsed(db, user.email);
  }

  lemma RegisterPreservesValid(db: Db, user: User)
    requires Valid(db)
    ensures Valid(Register(db, user).db)
  {
    FindUserFindsUsed(db, user.email);
  }

  lemma CreateUserRules(db: Db, caller: User, user: User)
    ensures var r := CreateUser(db, caller, user);
      && (r.result == Failure(OnlyTeachersCreateUsers) <==> caller.role != Teacher)
      && (r.result == Failure(BadTeacherEmail) <==>
            caller.role == Teacher && user.role == Teacher && !EndsWith(user.email, TeacherEmailSuffix))
      && (r.result == Failure(BadStudentEmail) <==>
            caller.role == Teacher && user.role == Student && !EndsWith(user.email, StudentEmailSuffix))
      && (r.result == Failure(EmailInUse) <==>
            caller.role == Teacher && EmailFitsRole(user.email, user.role) && EmailUsed(db, user.email))
      && (r.result.Success? <==>
            caller.role == Teacher && EmailFitsRole(user.email, user.role) && !EmailUsed(db, user.email))
      && (r.result.Failure? ==> r.db == db)
      && (r.result.Success? ==> r.result.value == user && r.db == db.(users := db.users + [user]))
  {
    FindUserFindsUsed(db, user.email);
  }

  lemma CreateUserPreservesValid(db: Db, caller: User, user: User)
    requires Valid(db)
    ensures Valid(CreateUser(db, caller, user).db)
  {
    FindUserFindsUsed(db, user.email);
  }

  /** Every account `POST /create-user` adds has an email in its role's
      domain (for the two known roles). */
  lemma CreatedAccountFitsRole(db: Db, caller: User, user: User)
    requires CreateUser(db, caller, user).result.Success?
    ensures user.role == Teacher ==> exists local: string :: local + TeacherEmailSuffix == user.email
    ensures user.role == Student ==> exists local: string :: local + StudentEmailSuffix == user.email
  {
    EndsWithIsSplit(user.email, TeacherEmailSuffix);
    EndsWithIsSplit(user.email, StudentEmailSuffix);
  }
}
