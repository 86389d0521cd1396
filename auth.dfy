/**
 * The user table and the register / authenticate rules of the authentication service.
 * The password hash (SHA-256 of the UTF-8 bytes, then Base64) is an injected function.
 */
module Auth {
  import opened Common
  import opened Seqs

  datatype User = User(
    id: Guid,
    username: string,
    email: string,
    passwordHash: string,
    role: string,
    createdAt: Time,
    lastLoginAt: Option<Time>)

  function UserId(u: User): Guid { u.id }
  function UserEmail(u: User): string { u.email }
  function UserName(u: User): string { u.username }

  const DefaultRole: string := "Editor"

  /** `Author.Username` and the like: the username of a user the foreign key guarantees exists. */
  function UsernameOf(users: seq<User>, id: Guid): (name: string)
    requires id in Keys(users, UserId)
    ensures exists u :: u in users && u.id == id && u.username == name
  {
    var i := FindKey(users, UserId, id).value;
    assert users[i] in users;
    users[i].username
  }

  /**
   * What registering gives.  `EmailTaken` is the service's own `null`;
   * `UsernameTaken` is the unique index on Username rejecting the insert, which the
   * service does not check beforehand, so the save throws.
   */
  datatype RegisterResult = Registered(user: User) | EmailTaken | UsernameTaken

  class AuthService {
    /** `HashPassword`: a deterministic function of the password. */
    const hashPassword: string -> string
    var users: seq<User>

    /** The primary key and the two unique indexes of the Users table. */
    ghost predicate Valid()
      reads this
    {
      UniqueBy(users, UserId) && UniqueBy(users, UserEmail) && UniqueBy(users, UserName)
    }

    constructor (hashPassword: string -> string, users: seq<User>)
      requires UniqueBy(users, UserId) && UniqueBy(users, UserEmail) && UniqueBy(users, UserName)
      ensures Valid()
      ensures this.hashPassword == hashPassword && this.users == users
    {
      this.hashPassword := hashPassword;
      this.users := users;
    }

    /** A password verifies against a stored hash exactly when the stored hash is the one made from it. */
    predicate VerifyPassword(password: string, passwordHash: string): (ok: bool)
      reads this
      ensures ok <==> hashPassword(password) == passwordHash
    {
      hashPassword(password) == passwordHash
    }

    method Register(username: string, email: string, password: string, newId: Guid, now: Time,
                    role: string := DefaultRole)
      returns (r: RegisterResult)
      requires Valid() && newId !in Keys(users, UserId)
      modifies this
      ensures Valid()
      ensures r.EmailTaken? <==> email in Keys(old(users), UserEmail)
      ensures r.UsernameTaken? <==>
                email !in Keys(old(users), UserEmail) && username in Keys(old(users), UserName)
      ensures !r.Registered? ==> users == old(users)
      ensures r.Registered? ==>
                && r.user == User(newId, username, email, hashPassword(password), role, now, None)
                && users == old(users) + [r.user]
    {
      if FindKey(users, UserEmail, email).Some? {
        return EmailTaken;
      }
      if FindKey(users, UserName, username).Some? {
        return UsernameTaken;
      }
      var user := User(newId, username, email, hashPassword(password), role, now, None);
      AppendKeepsUnique(users, UserId, user);
      AppendKeepsUnique(users, UserEmail, user);
      AppendKeepsUnique(users, UserName, user);
      users := users + [user];
      r := Registered(user);
    }

    /** Finds the user by e-mail, checks the password and stamps LastLoginAt. */
    method Authenticate(email: string, password: string, now: Time) returns (r: Option<User>)
      requires Valid()
      modifies this
      ensures Valid()
      ensures var i := FindKey(old(users), UserEmail, email);
              if i.None? || !VerifyPassword(password, old(users)[i.value].passwordHash) then
                r.None? && users == old(users)
              else
                && r == Some(old(users)[i.value].(lastLoginAt := Some(now)))
                && users == old(users)[i.value := r.value]
    {
      var i := FindKey(users, UserEmail, email);
      if i.None? || !VerifyPassword(password, users[i.value].passwordHash) {
        return None;
      }
      var user := users[i.value].(lastLoginAt := Some(now));
      UpdateKeepsUnique(users, UserId, i.value, user);
      UpdateKeepsUnique(users, UserEmail, i.value, user);
      UpdateKeepsUnique(users, UserName, i.value, user);
      users := users[i.value := user];
      r := Some(user);
    }
  }
}
