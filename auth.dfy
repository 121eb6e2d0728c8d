/** The credential flow of Backend/Controllers/AuthController.cs.
    Register lower-cases the name, refuses a name already present, and
    stores the keyed hash of the password under a fresh random key (the
    salt); Login lower-cases the name, looks the single user up,
    recomputes the hash under the stored salt and issues a token.
    HMAC-SHA512 of the UTF-8 bytes of the password is the parameter
    `hmac`; the random key drawn by `new HMACSHA512()` is the parameter
    `salt`. */
module Auth {
  import opened Common
  import opened Claims
  import opened Models
  import opened Tokens

  /** `HMACSHA512(key).ComputeHash(Encoding.UTF8.GetBytes(password))`. */
  type Hmac = (Bytes, string) -> Bytes

  const UsernameTaken: string := "Username is taken"
  const InvalidCredentials: string := "Invalid username or password"

  /** `s.ToLower()` on the ASCII letters. */
  function ToLower(s: string): (r: string)
    ensures |r| == |s|
    ensures forall i :: 0 <= i < |r| ==> !IsUpper(r[i])
    ensures forall i :: 0 <= i < |r| ==> r[i] == s[i] || (IsUpper(s[i]) && r[i] as int == s[i] as int + 32)
  {
    seq(|s|, i requires 0 <= i < |s| => LowerChar(s[i]))
  }

  /** A lower-cased name is its own lower case. */
  lemma ToLowerIdempotent(s: string)
    ensures ToLower(ToLower(s)) == ToLower(s)
  {
  }

  /** The invariant Register keeps: stored names are lower case and no two
      users share one, so the lookup of Login finds at most one user. */
  ghost predicate NamesLowerAndUnique(users: seq<User>)
  {
    && (forall i :: 0 <= i < |users| ==> ToLower(users[i].userName) == users[i].userName)
    && (forall i, j :: 0 <= i < j < |users| ==> users[i].userName != users[j].userName)
  }

  /** `Users.AnyAsync(x => x.UserName == name)`: it agrees with the
      lookup of Login, which finds someone exactly when the name is taken. */
  function NameTaken(users: seq<User>, name: string): (b: bool)
    ensures b <==> UsersNamed(users, name) != []
  {
    assert UsersNamed(users, name) != [] ==> UsersNamed(users, name)[0] in users;
    exists i :: 0 <= i < |users| && users[i].userName == name
  }

  /** `Users.Where(x => x.UserName == name)`, in table order. */
  function UsersNamed(users: seq<User>, name: string): (r: seq<User>)
    ensures forall i :: 0 <= i < |r| ==> r[i] in users && r[i].userName == name
    ensures forall i :: 0 <= i < |users| && users[i].userName == name ==> users[i] in r
    decreases |users|
  {
    if users == [] then []
    else (if users[0].userName == name then [users[0]] else []) + UsersNamed(users[1..], name)
  }

  /** `_context.Users`, with keys handed out by a counter. */
  class UserTable {
    var users: seq<User>
    /** The last key handed out. */
    var lastId: int

    ghost predicate Valid()
      reads this
    {
      && 0 <= lastId <= MaxInt32
      && (forall i :: 0 <= i < |users| ==> 0 < users[i].id <= lastId)
      && (forall i, j :: 0 <= i < j < |users| ==> users[i].id != users[j].id)
    }

    constructor ()
      ensures Valid() && users == [] && lastId == 0
    {
      users := [];
      lastId := 0;
    }

    /** `Users.Add(user)` then `SaveChanges`: the user gets the next key;
        fails once the 32-bit key space is used up. */
    method Insert(userName: string, passwordHash: Bytes, passwordSalt: Bytes) returns (id: Option<int32>)
      requires Valid()
      modifies this
      ensures Valid()
      ensures old(lastId) < MaxInt32 ==> id == Some(old(lastId) + 1) && lastId == old(lastId) + 1
                                          && users == old(users) + [User(old(lastId) + 1, userName, passwordHash, passwordSalt)]
      ensures old(lastId) == MaxInt32 ==> id == None && lastId == old(lastId) && users == old(users)
      ensures id.Some? ==> forall j :: 0 <= j < |old(users)| ==> old(users)[j].id != id.value
    {
      if lastId == MaxInt32 {
        return None;
      }
      users := users + [User(lastId + 1, userName, passwordHash, passwordSalt)];
      lastId := lastId + 1;
      id := Some(lastId);
    }
  }

  /** Register: the lower-cased name is refused with "Username is taken"
      when present, in any casing; otherwise exactly one user is added,
      under a fresh key, with the salt and the hash of the password under
      it. The names stay lower case and distinct. */
  method Register(table: UserTable, dto: RegisterDto, salt: Bytes, hmac: Hmac) returns (r: ActionResult<()>)
    requires table.Valid() && NamesLowerAndUnique(table.users)
    modifies table
    ensures table.Valid() && NamesLowerAndUnique(table.users)
    ensures r == OkResult || r == BadRequestObject(UsernameTaken) || r.InternalServerError?
    ensures r == BadRequestObject(UsernameTaken) <==> NameTaken(old(table.users), ToLower(dto.userName))
    ensures r.InternalServerError? <==> !NameTaken(old(table.users), ToLower(dto.userName)) && old(table.lastId) == MaxInt32
    ensures !r.OkResult? ==> table.users == old(table.users)
    ensures r.OkResult? ==>
      && table.users == old(table.users) + [User(table.lastId, ToLower(dto.userName), hmac(salt, dto.password), salt)]
      && (forall j :: 0 <= j < |old(table.users)| ==> old(table.users)[j].id != table.lastId)
  {
    var username := ToLower(dto.userName);
    if NameTaken(table.users, username) {
      return BadRequestObject(UsernameTaken);
    }
    ToLowerIdempotent(dto.userName);
    var id := table.Insert(username, hmac(salt, dto.password), salt);
    if id.None? {
      return InternalServerError("the key generator has run out of 32-bit keys");
    }
    r := OkResult;
  }

  /** Login, a read of the user table: `OkObject` carries the token that
      TokenService issues; an unknown name and a wrong password get the
      same Unauthorized message. `SingleOrDefault` throws when two users
      match, and a token that cannot be issued is an exception too. */
  function Login(users: seq<User>, dto: LoginDto, hmac: Hmac, config: JwtConfig, now: DateTime): (r: ActionResult<SecurityToken>)
    ensures r.OkObject? || r == UnauthorizedObject(InvalidCredentials) || r.InternalServerError?
    ensures r.OkObject? ==> exists u :: u in users && u.userName == ToLower(dto.userName)
                                        && hmac(u.passwordSalt, dto.password) == u.passwordHash
                                        && CreateToken(config, u, now) == Ok(r.value)
    ensures !NameTaken(users, ToLower(dto.userName)) ==> r == UnauthorizedObject(InvalidCredentials)
  {
    var username := ToLower(dto.userName);
    var matches := UsersNamed(users, username);
    if |matches| == 0 then
      assert !NameTaken(users, username) by {
        assert forall i :: 0 <= i < |users| && users[i].userName == username ==> users[i] in matches;
      }
      UnauthorizedObject(InvalidCredentials)
    else
      assert NameTaken(users, username) by {
        assert matches[0] in users && matches[0].userName == username;
      }
      if |matches| > 1 then InternalServerError("Sequence contains more than one element")
      else
        var user := matches[0];
        if hmac(user.passwordSalt, dto.password) != user.passwordHash then UnauthorizedObject(InvalidCredentials)
        else
          match CreateToken(config, user, now)
          case Ok(token) => OkObject(token)
          case Err(_) => InternalServerError("the token could not be issued")
  }

  /** Under the invariant the lookup of Login finds exactly the one user
      with that name. */
  lemma {:induction false} UsersNamedUnique(users: seq<User>, i: nat)
    requires NamesLowerAndUnique(users)
    requires i < |users|
    ensures UsersNamed(users, users[i].userName) == [users[i]]
    decreases |users|
  {
    var name := users[i].userName;
    assert NamesLowerAndUnique(users[1..]);
    if i == 0 {
      NoneNamed(users[1..], name);
    } else {
      assert users[0].userName != name;
      UsersNamedUnique(users[1..], i - 1);
    }
  }

  lemma {:induction false} NoneNamed(users: seq<User>, name: string)
    requires forall i :: 0 <= i < |users| ==> users[i].userName != name
    ensures UsersNamed(users, name) == []
    decreases |users|
  {
    if users != [] {
      NoneNamed(users[1..], name);
    }
  }

  /** Under the invariant the `SingleOrDefault` of Login never meets two
      users: the lookup yields at most one, for every name. */
  lemma LoginLookupUnambiguous(users: seq<User>, name: string)
    requires NamesLowerAndUnique(users)
    ensures |UsersNamed(users, name)| <= 1
  {
    if i :| 0 <= i < |users| && users[i].userName == name {
      UsersNamedUnique(users, i);
    } else {
      NoneNamed(users, name);
    }
  }

  /** A stored user who gives the wrong password is refused with the
      same message as an unknown name. */
  lemma LoginRejectsWrongPassword(users: seq<User>, i: nat, dto: LoginDto, hmac: Hmac, config: JwtConfig, now: DateTime)
    requires NamesLowerAndUnique(users)
    requires i < |users| && users[i].userName == ToLower(dto.userName)
    requires hmac(users[i].passwordSalt, dto.password) != users[i].passwordHash
    ensures Login(users, dto, hmac, config, now) == UnauthorizedObject(InvalidCredentials)
  {
    UsersNamedUnique(users, i);
  }

  /** A stored user who gives the right password, in any casing of the
      name, gets the token TokenService issues for that user, and that
      token identifies the user. */
  lemma LoginAcceptsRightPassword(users: seq<User>, i: nat, dto: LoginDto, hmac: Hmac, config: JwtConfig, now: DateTime)
    requires NamesLowerAndUnique(users)
    requires i < |users| && users[i].userName == ToLower(dto.userName)
    requires hmac(users[i].passwordSalt, dto.password) == users[i].passwordHash
    requires CreateToken(config, users[i], now).Ok?
    ensures Login(users, dto, hmac, config, now) == OkObject(CreateToken(config, users[i], now).value)
    ensures GetUserId(Login(users, dto, hmac, config, now).value.subject) == Ok(users[i].id)
  {
    UsersNamedUnique(users, i);
    TokenIdentifiesUser(config, users[i], now);
  }

  /** Register then Login: after the user row that a successful Register
      appends, logging in with the same password and any casing of the
      name yields a token whose caller id is the new user's key. */
  lemma RegisterThenLogin(users: seq<User>, id: int32, reg: RegisterDto, salt: Bytes, hmac: Hmac,
                          loginName: string, config: JwtConfig, now: DateTime)
    requires NamesLowerAndUnique(users) && !NameTaken(users, ToLower(reg.userName))
    requires ToLower(loginName) == ToLower(reg.userName)
    requires CreateToken(config, User(id, ToLower(reg.userName), hmac(salt, reg.password), salt), now).Ok?
    ensures var user := User(id, ToLower(reg.userName), hmac(salt, reg.password), salt);
      var r := Login(users + [user], LoginDto(loginName, reg.password), hmac, config, now);
      && r == OkObject(CreateToken(config, user, now).value)
      && GetUserId(r.value.subject) == Ok(id)
  {
    var user := User(id, ToLower(reg.userName), hmac(salt, reg.password), salt);
    var users' := users + [user];
    ToLowerIdempotent(reg.userName);
    assert users'[|users|] == user;
    assert NamesLowerAndUnique(users');
    LoginAcceptsRightPassword(users', |users|, LoginDto(loginName, reg.password), hmac, config, now);
  }
}
