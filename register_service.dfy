/**
 * User registration: a new user is stored with an encoded password and
 * enabled, together with one authority row naming the user's role; a taken
 * username is refused and nothing changes.
 */
module Registration {
  import opened Entities

  /** The user entity the caller hands in; registration updates it in place. */
  class User {
    const username: Username
    var password: string
    var enabled: bool

    constructor (username: Username, password: string, enabled: bool)
      ensures this.username == username && this.password == password && this.enabled == enabled
    {
      this.username := username;
      this.password := password;
      this.enabled := enabled;
    }

    /** The row `save` writes for this user. */
    function Record(): UserRecord
      reads this
    {
      UserRecord(username, password, enabled)
    }
  }

  /** Every authority row belongs to a stored user. */
  ghost predicate AuthoritiesOfUsers(users: map<Username, UserRecord>, authorities: seq<Authority>) {
    forall a :: a in authorities ==> a.username in users
  }

  class RegisterService {
    /** The user table, keyed by username. */
    var users: map<Username, UserRecord>
    /** The authority table, in insertion order. */
    var authorities: seq<Authority>
    /** `PasswordEncoder.encode`. */
    const encode: string -> string

    ghost predicate Valid()
      reads this
    {
      AuthoritiesOfUsers(users, authorities)
    }

    constructor (encode: string -> string, users: map<Username, UserRecord>, authorities: seq<Authority>)
      requires AuthoritiesOfUsers(users, authorities)
      ensures Valid()
      ensures this.encode == encode && this.users == users && this.authorities == authorities
    {
      this.encode := encode;
      this.users := users;
      this.authorities := authorities;
    }

    /**
     * `add(user, role)`: refuses a username that is already stored; otherwise
     * replaces the user's password by its encoding, enables the user, stores
     * it, and stores the authority `(username, role.name())`.
     */
    method Add(user: User, role: UserRole) returns (r: Result<()>)
      requires Valid()
      modifies this, user
      ensures Valid()
      ensures r.Err? <==> old(user.username in users)
      ensures r.Err? ==> r.error == UserAlreadyExist
      ensures r.Err? ==> users == old(users) && authorities == old(authorities)
      ensures r.Err? ==> user.password == old(user.password) && user.enabled == old(user.enabled)
      ensures r.Ok? ==> user.password == encode(old(user.password)) && user.enabled
      ensures r.Ok? ==> users == old(users)[user.username := UserRecord(user.username, encode(old(user.password)), true)]
      ensures r.Ok? ==> user.username !in old(users) && user.username in users
      ensures r.Ok? ==> authorities == old(authorities) + [Authority(user.username, role.name)]
    {
      if user.username in users {
        return Err(UserAlreadyExist);
      }
      user.password := encode(user.password);
      user.enabled := true;
      users := users[user.username := user.Record()];
      authorities := authorities + [Authority(user.username, role.name)];
      r := Ok(());
    }
  }
}
