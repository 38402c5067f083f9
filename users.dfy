/** `FileUserService`: the accounts of `users.json`, the password hash and
    the sign-in check.

    PBKDF2 is a parameter of the service producing a 32-byte key from the
    password, the salt text (taken as its UTF-8 bytes) and the iteration
    count (the pseudo-random function, HMAC-SHA1, being fixed). The users
    file is modelled by what deserialisation gives: a list of users or
    `null`. */
module Users {
  import opened Wrappers
  import opened Text
  import opened Encoding
  import opened Ids

  datatype User = User(userName: string, password: string, email: string, lastLoginTime: Ticks)

  /** What `JsonSerializer.Deserialize<List<User>>` makes of `users.json`. */
  datatype UsersFile = UsersJson(users: seq<User>) | NullJson

  type Key32 = s: seq<byte> | |s| == 32
    witness [0, 0, 0, 0, 0, 0, 0, 0, 0, 0, 0, 0, 0, 0, 0, 0, 0, 0, 0, 0, 0, 0, 0, 0, 0, 0, 0, 0, 0, 0, 0, 0]

  /** The salt used when the configuration has no `user:salt`. */
  const DefaultSalt: string := "some custom string"
  const Iterations: nat := 1000

  const AdminName: string := "admin"
  const AdminEmail: string := "admin@admin.com"

  /** `string.CompareTo`, taken character by character: a proper prefix
      comes first. */
  function CompareOrdinal(a: string, b: string): (c: int)
    ensures -1 <= c <= 1
    ensures c == 0 <==> a == b
  {
    if a == [] then (if b == [] then 0 else -1)
    else if b == [] then 1
    else if a[0] < b[0] then -1
    else if a[0] > b[0] then 1
    else
      var c := CompareOrdinal(a[1..], b[1..]);
      assert a == [a[0]] + a[1..] && b == [b[0]] + b[1..];
      c
  }

  lemma {:induction false} CompareAntisymmetric(a: string, b: string)
    ensures CompareOrdinal(a, b) == -CompareOrdinal(b, a)
  {
    if a != [] && b != [] && a[0] == b[0] {
      CompareAntisymmetric(a[1..], b[1..]);
    }
  }

  lemma {:induction false} CompareTransitive(a: string, b: string, c: string)
    requires CompareOrdinal(a, b) >= 0 && CompareOrdinal(b, c) >= 0
    ensures CompareOrdinal(a, c) >= 0
  {
    if a != [] && b != [] && c != [] && a[0] == b[0] == c[0] {
      CompareTransitive(a[1..], b[1..], c[1..]);
    }
  }

  /** Each user name is at least the next one: the order of
      `Sort((p1, p2) => p2.UserName.CompareTo(p1.UserName))`. */
  predicate SortedDescending(us: seq<User>) {
    |us| <= 1 || (CompareOrdinal(us[0].userName, us[1].userName) >= 0 && SortedDescending(us[1..]))
  }

  /** Put `u` into a descending list in front of the first name it is not
      below. */
  function Insert(u: User, us: seq<User>): (r: seq<User>)
    requires SortedDescending(us)
    ensures SortedDescending(r)
    ensures multiset(r) == multiset(us) + multiset{u}
    ensures |r| == |us| + 1 && (r[0] == u || (us != [] && r[0] == us[0]))
  {
    if us == [] then [u]
    else if CompareOrdinal(u.userName, us[0].userName) >= 0 then
      assert ([u] + us)[1..] == us;
      [u] + us
    else
      var rest := Insert(u, us[1..]);
      InsertBehind(u, us, rest);
      [us[0]] + rest
  }

  /** The head of the list stays in front when `u` goes further down. */
  lemma InsertBehind(u: User, us: seq<User>, rest: seq<User>)
    requires SortedDescending(us) && us != [] && CompareOrdinal(u.userName, us[0].userName) < 0
    requires SortedDescending(rest) && multiset(rest) == multiset(us[1..]) + multiset{u}
    requires |rest| == |us| && (rest[0] == u || (|us| > 1 && rest[0] == us[1]))
    ensures SortedDescending([us[0]] + rest)
    ensures multiset([us[0]] + rest) == multiset(us) + multiset{u}
  {
    CompareAntisymmetric(u.userName, us[0].userName);
    assert ([us[0]] + rest)[1..] == rest;
    HeadTail(us);
  }

  /** The users in descending order of name, the same users the same number
      of times. */
  function SortDescending(us: seq<User>): (r: seq<User>)
    ensures SortedDescending(r)
    ensures multiset(r) == multiset(us)
  {
    if us == [] then []
    else
      HeadTail(us);
      Insert(us[0], SortDescending(us[1..]))
  }

  /** A descending list is descending between any two positions, not only
      neighbours. */
  lemma {:induction false} SortedDescendingPairs(us: seq<User>, i: nat, j: nat)
    requires SortedDescending(us) && i <= j < |us|
    ensures CompareOrdinal(us[i].userName, us[j].userName) >= 0
    decreases i, j
  {
    if i == j {
      assert CompareOrdinal(us[i].userName, us[j].userName) == 0;
    } else if i == 0 {
      SortedDescendingPairs(us[1..], 0, j - 1);
      CompareTransitive(us[0].userName, us[1].userName, us[j].userName);
    } else {
      SortedDescendingPairs(us[1..], i - 1, j - 1);
    }
  }

  /** The index of the first user whose lower-cased name equals the given
      one's, or `|us|` when there is none. */
  function FindUser(us: seq<User>, username: string): (k: nat)
    ensures k <= |us|
    ensures k < |us| ==> Lower(us[k].userName) == Lower(username)
    ensures forall j :: 0 <= j < k ==> Lower(us[j].userName) != Lower(username)
  {
    if us == [] then 0
    else if Lower(us[0].userName) == Lower(username) then 0
    else 1 + FindUser(us[1..], username)
  }

  class FileUserService {
    /** `_users`. */
    var users: seq<User>
    /** `Data/Users/users.json`, when it exists. */
    var file: Option<UsersFile>
    /** The configured `user:salt`, if any. */
    const salt: Option<string>
    /** `KeyDerivation.Pbkdf2` with HMAC-SHA1. */
    const kdf: (string, string, nat) -> Key32

    /** `Initialize`: load the users, creating the file with the
        administrator when it is missing, then sort them. */
    constructor (file: Option<UsersFile>, salt: Option<string>, kdf: (string, string, nat) -> Key32, now: Ticks)
      ensures this.salt == salt && this.kdf == kdf
      ensures this.file == Some(file.GetOr(UsersJson([AdminUser(now)])))
      ensures users == SortDescending(match this.file.value case UsersJson(us) => us case NullJson => [])
    {
      this.salt := salt;
      this.kdf := kdf;
      this.file := file;
      users := [];
      new;
      LoadUsers(now);
      SortUsers();
    }

    /** `LoadUsers`: the file's list, or the empty list when it holds
        `null`; a missing file is first created with the administrator. */
    method LoadUsers(now: Ticks)
      modifies this
      ensures file == Some(old(file).GetOr(UsersJson([AdminUser(now)])))
      ensures users == match file.value case UsersJson(us) => us case NullJson => old(users)
    {
      if file.None? {
        CreateAdminUser(now);
      }
      match file.value {
        case NullJson =>
          return;
        case UsersJson(us) =>
          users := us;
      }
    }

    /** `CreateAdminUser`: write a file holding the administrator alone. */
    method CreateAdminUser(now: Ticks)
      modifies this`file
      ensures file == Some(UsersJson([AdminUser(now)]))
    {
      file := Some(UsersJson([AdminUser(now)]));
    }

    /** `SortUsers`: descending by name. */
    method SortUsers()
      modifies this`users
      ensures users == SortDescending(old(users))
    {
      users := SortDescending(users);
    }

    /** `HashPassword`: empty for a null or empty password; otherwise the
        derived key in upper-case hexadecimal without dashes. */
    function HashPassword(password: Option<string>): string {
      if password.None? || password.value == "" then ""
      else Without(BitConverterText(kdf(password.value, salt.GetOr(DefaultSalt), Iterations)), {'-'})
    }

    /** A hash is empty exactly for a null or empty password; otherwise it is
        64 upper-case hexadecimal digits that read back as the derived key. */
    lemma HashPasswordShape(password: Option<string>)
      ensures var r := HashPassword(password);
        && (r == "" <==> password.None? || password.value == "")
        && (r != "" ==>
              && |r| == 64 && (forall i :: 0 <= i < |r| ==> IsUpperHexDigit(r[i]))
              && ParseHex(r).Some? && ParseHex(r).value == kdf(password.value, salt.GetOr(DefaultSalt), Iterations))
    {
      if password.Some? && password.value != "" {
        var key := kdf(password.value, salt.GetOr(DefaultSalt), Iterations);
        BitConverterWithoutDashes(key);
        HexUpperDigits(key);
        ParseHexUpper(key);
      }
    }

    /** The administrator `CreateAdminUser` writes: name `admin`, the hash of
        the password `admin`, email `admin@admin.com`, signed in now. */
    function AdminUser(now: Ticks): User {
      User(AdminName, HashPassword(Some(AdminName)), AdminEmail, now)
    }

    /** `ValidateUser`: the first user whose name matches ignoring case
        decides; true exactly when its stored hash is the password's. */
    function ValidateUser(username: string, password: Option<string>): (r: bool)
      reads this
      ensures r ==> exists k ::
        && 0 <= k < |users| && Lower(users[k].userName) == Lower(username)
        && users[k].password == HashPassword(password)
        && forall j :: 0 <= j < k ==> Lower(users[j].userName) != Lower(username)
      ensures (forall k :: 0 <= k < |users| ==> Lower(users[k].userName) != Lower(username)) ==> !r
      ensures !r ==> forall k ::
        (0 <= k < |users| && Lower(users[k].userName) == Lower(username) && users[k].password == HashPassword(password))
        ==> exists j :: 0 <= j < k && Lower(users[j].userName) == Lower(username)
    {
      Accepted(users, username, HashPassword(password))
    }
  }

  /** The sign-in rule for a given hash: the first user whose name matches
      ignoring case must hold that hash. */
  function Accepted(us: seq<User>, username: string, hash: string): (r: bool)
    ensures r ==> exists k ::
      && 0 <= k < |us| && Lower(us[k].userName) == Lower(username) && us[k].password == hash
      && forall j :: 0 <= j < k ==> Lower(us[j].userName) != Lower(username)
    ensures (forall k :: 0 <= k < |us| ==> Lower(us[k].userName) != Lower(username)) ==> !r
    ensures !r ==> forall k ::
      (0 <= k < |us| && Lower(us[k].userName) == Lower(username) && us[k].password == hash)
      ==> exists j :: 0 <= j < k && Lower(us[j].userName) == Lower(username)
  {
    var k := FindUser(us, username);
    k < |us| && us[k].password == hash
  }

  /** With the file the service creates, `admin` signs in with the password
      `admin`, in any case of the name, and with no other password. */
  lemma AdminCanSignIn(s: FileUserService, now: Ticks, name: string, password: Option<string>)
    requires s.users == SortDescending([s.AdminUser(now)])
    requires EqualsIgnoreCase(name, AdminName)
    ensures s.ValidateUser(name, Some(AdminName))
    ensures s.ValidateUser(name, password) <==> s.HashPassword(password) == s.HashPassword(Some(AdminName))
  {
    var u := s.AdminUser(now);
    assert SortDescending([u]) == Insert(u, SortDescending([]));
  }

  /** A null and an empty password are the same password, and they sign in
      only to an account whose stored hash is empty. */
  lemma EmptyPasswordRule(s: FileUserService, name: string)
    ensures s.ValidateUser(name, None) == s.ValidateUser(name, Some(""))
    ensures s.ValidateUser(name, None) ==> exists k :: 0 <= k < |s.users| && s.users[k].password == ""
  {
  }

  /** Without users, as after a `null` file, nobody signs in. */
  lemma NoUsersNoSignIn(s: FileUserService, name: string, password: Option<string>)
    requires s.users == []
    ensures !s.ValidateUser(name, password)
  {
  }
}
