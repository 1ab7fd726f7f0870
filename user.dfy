/** The user record and the user store: a login-keyed map of users and the
    counter that hands out their ids. */
module UserRepo {
  import opened Results

  /** A registered user. The password is stored as given, in plain text. */
  datatype User = User(id: nat, username: string, password: string)

  class UsersDataRepo {
    var lastID: nat
    var data: map<string, User>

    /** Every stored user sits under its own login, carries an id the counter
        has already handed out, and no two logins share an id. */
    ghost predicate Valid()
      reads this
    {
      && (forall login :: login in data ==> data[login].username == login)
      && (forall login :: login in data ==> 1 <= data[login].id <= lastID)
      && (forall a, b :: a in data && b in data && a != b ==> data[a].id != data[b].id)
    }

    /** An empty store whose counter starts at 0. */
    constructor ()
      ensures Valid()
      ensures lastID == 0 && data == map[]
    {
      lastID := 0;
      data := map[];
    }

    /** Looks the login up first and compares the password only for a known
        login, so an unknown login never reports a wrong password. */
    method Authorize(login: string, password: string) returns (r: Result<User>)
      requires Valid()
      ensures login !in data ==> r == Err(ErrNoUser)
      ensures login in data && data[login].password != password ==> r == Err(ErrWrongPassword)
      ensures r.Ok? <==> login in data && data[login].password == password
      ensures r.Ok? ==> r.value == data[login] && r.value.username == login
    {
      if login !in data {
        return Err(ErrNoUser);
      }
      var u := data[login];
      if password != u.password {
        return Err(ErrWrongPassword);
      }
      r := Ok(u);
    }

    /** Reserves the next id before the existence check, so the counter moves
        on a refused registration as well. A new login is stored with that id
        and the given password; an existing one leaves the map as it was. */
    method CreateUser(login: string, pass: string) returns (r: Result<User>)
      requires Valid()
      modifies this
      ensures Valid()
      ensures lastID == old(lastID) + 1
      ensures login in old(data) ==> r == Err(ErrAlreadyExist) && data == old(data)
      ensures login !in old(data) ==>
        && r == Ok(User(lastID, login, pass))
        && data == old(data)[login := r.value]
      ensures r.Ok? ==> forall other :: other in old(data) ==> old(data)[other].id < r.value.id
    {
      lastID := lastID + 1;
      var newID := lastID;
      if login in data {
        return Err(ErrAlreadyExist);
      }
      var newUser := User(newID, login, pass);
      data := data[login := newUser];
      r := Ok(newUser);
    }

    /** A read-only lookup by login. */
    method Get(login: string) returns (r: Result<User>)
      requires Valid()
      ensures r.Ok? <==> login in data
      ensures r.Ok? ==> r.value == data[login] && r.value.username == login
      ensures r.Err? ==> r.error == ErrNoUser
    {
      if login !in data {
        return Err(ErrNoUser);
      }
      r := Ok(data[login]);
    }
  }

  /** Registering "alice" twice: the first call stores her with id 1, the
      second is refused, and her password then authorizes her. */
  method RegistrationScenario()
  {
    var repo := new UsersDataRepo();
    var first := repo.CreateUser("alice", "pw1");
    assert first == Ok(User(1, "alice", "pw1"));
    var second := repo.CreateUser("alice", "pw2");
    assert second == Err(ErrAlreadyExist);
    var login := repo.Authorize("alice", "pw1");
    assert login == Ok(User(1, "alice", "pw1"));
    var wrong := repo.Authorize("alice", "pw2");
    assert wrong == Err(ErrWrongPassword);
    var nobody := repo.Get("bob");
    assert nobody == Err(ErrNoUser);
  }
}
