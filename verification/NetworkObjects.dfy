/** The live objects behind the directory: users and servers with mutable fields, the registry
    map and the network's counter, each operation in step with the functions of `Directory`. */
module NetworkObjects {
  import opened Names
  import opened Directory

  class Server {
    var userCount: Counter

    constructor ()
      ensures userCount == Counter(0, 0)
    {
      userCount := Counter(0, 0);
    }
  }

  class User {
    var nickname: string
    const server: Server

    constructor (nickname: string, server: Server)
      ensures this.nickname == nickname && this.server == server
    {
      this.nickname, this.server := nickname, server;
    }
  }

  /** `MyNetwork` together with the registry it registers users in. */
  class Network {
    var users: map<string, User>
    var userCount: Counter
    /** Every user object, registered or not, and every server. */
    ghost var known: set<User>
    ghost var servers: set<Server>

    ghost function Nicknames(): map<User, string>
      reads this`known, known
    {
      map u | u in known :: u.nickname
    }

    ghost function Homes(): map<User, Server>
      reads this`known
    {
      map u | u in known :: u.server
    }

    ghost function Counts(): map<Server, Counter>
      reads this`servers, servers
    {
      map s | s in servers :: s.userCount
    }

    ghost function Now(): Dir<User, Server>
      reads this, known, servers
    {
      Dir(users, Nicknames(), Homes(), Counts(), userCount)
    }

    constructor (local: Server)
      ensures servers == {local} && known == {}
      ensures users == map[] && userCount == Counter(0, 0)
    {
      users, userCount, known, servers := map[], Counter(0, 0), {}, {local};
    }

    method FindUser(name: string) returns (found: User?)
      ensures found == if Find(Now(), name).Some? then Find(Now(), name).value else null
    {
      if Fold(name) in users {
        return users[Fold(name)];
      }
      return null;
    }

    /** `Registry::addUser`. */
    method AddEntity(user: User, maxLength: nat) returns (status: Status)
      modifies this`users
      ensures var validity := NickValidity(user.nickname, maxLength);
              status == if validity != NoError then BadName(validity)
                        else if Fold(user.nickname) in old(users) then EntityExists else Done
      ensures users == if status == Done then old(users)[Fold(user.nickname) := user] else old(users)
    {
      var validity := NickValidity(user.nickname, maxLength);
      if validity != NoError {
        return BadName(validity);
      }
      var found := FindUser(user.nickname);
      if found == null {
        users := users[Fold(user.nickname) := user];
        return Done;
      }
      return EntityExists;
    }

    /** `Server::addUser`, called on `server`. */
    method AddUserTo(server: Server, user: User, maxLength: nat) returns (status: Status)
      requires user in known && server in servers && WellFormed(Now())
      modifies this`users, this`userCount, server
      ensures (Now(), status) == AddUser(old(Now()), server, user, maxLength)
    {
      if user.server != server {
        return ServersDontMatch;
      }
      status := AddEntity(user, maxLength);
      if status == Done {
        server.userCount := Up(server.userCount);
        userCount := Up(userCount);
      }
      assert status == Done ==> Counts() == old(Counts())[server := Up(old(server.userCount))];
    }

    /** `User::quit`. */
    method QuitUser(user: User) returns (status: Status)
      requires user in known && user.server in servers && WellFormed(Now())
      modifies this`users, this`userCount, user.server
      ensures (Now(), status) == Quit(old(Now()), user)
    {
      user.server.userCount := Down(user.server.userCount);
      userCount := Down(userCount);
      assert Counts() == old(Counts())[user.server := Down(old(user.server.userCount))];
      var key := Fold(user.nickname);
      if key in users {
        assert key == Key(old(Now()), user);
        users := users - {key};
        assert Quit(old(Now()), user).0 == Now();
        return Done;
      }
      return UnregisteredEntity;
    }

    /** `Registry::changeUserNickname`. */
    method ChangeUserNickname(user: User, newNickname: string, maxLength: nat) returns (status: Status)
      requires user in known
      modifies this`users
      ensures (Now(), status) == Rekey(old(Now()), user, newNickname, maxLength)
    {
      var oldKey, newKey := Fold(user.nickname), Fold(newNickname);
      if newKey == oldKey {
        return Done;
      }
      if oldKey in users {
        var validity := NickValidity(newNickname, maxLength);
        if validity != NoError {
          return BadName(validity);
        }
        users := users - {oldKey};
        if newKey !in users {
          users := users[newKey := user];
        }
        return Done;
      }
      return UnregisteredEntity;
    }

    method AssignNickname(user: User, newNickname: string)
      requires user in known
      modifies user`nickname
      ensures Now() == old(Now()).(nick := old(Nicknames())[user := newNickname])
    {
      user.nickname := newNickname;
      assert Nicknames() == old(Nicknames())[user := newNickname];
    }

    /** The drafted `User::changeNickname`: the assignment comes last, whatever the registry said. */
    method ChangeNickname(user: User, newNickname: string, usedByService: bool, maxLength: nat) returns (status: Status)
      requires user in known
      modifies this`users, user`nickname
      ensures (Now(), status) == Rename(old(Now()), user, newNickname, usedByService, maxLength)
    {
      var validity := NickValidity(newNickname, maxLength);
      if validity != NoError {
        return BadName(validity);
      }
      var found := FindUser(newNickname);
      if found != null && found != user {
        return NameInUse;
      }
      if found == null && usedByService {
        return NameInUse;
      }
      status := ChangeUserNickname(user, newNickname, maxLength);
      AssignNickname(user, newNickname);
    }
  }
}
