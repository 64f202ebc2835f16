/** Users and the id counter: `User.__init__` (id allocation), `verify`,
    `set_password`, `check_password`, `register`, `Admin.__init__` and
    `User.load_users` of Item_resurrected.py. */
module Users {
  import opened Wrappers
  import OrderedDict

  /** The first id `User.current_id` hands out. */
  const FirstId: int := 100000000
  /** Password of a user built without one. */
  const DefaultPassword: string := "user123"
  /** Password of an admin built without one. */
  const AdminPassword: string := "admin123"
  const AdminRole: string := "admin"
  const UserRole: string := "user"

  function Max(a: int, b: int): (m: int)
    ensures a <= m && b <= m && (m == a || m == b)
  {
    if a < b then b else a
  }

  // ---------------------------------------------------------------------------
  // Id allocation

  /** The id a user receives and the counter value after the constructor. */
  datatype Allocation = Allocation(id: int, next: int)

  /** The counter update of `User.__init__`: without an id the user takes the
      counter, which moves on by one; with an id the counter is raised past
      it when needed. Either way the counter ends above the id. */
  function Allocate(next: int, requested: Option<int>): (a: Allocation)
    ensures a.id < a.next && next <= a.next
    ensures requested.None? ==> a.id == next && a.next == next + 1
    ensures requested.Some? ==> a.id == requested.value && a.next == Max(next, a.id + 1)
  {
    match requested
    case None => Allocation(next, next + 1)
    case Some(id) => Allocation(id, if id >= next then id + 1 else next)
  }

  /** The ids handed out by building users with the given requests in turn,
      and the counter afterwards. */
  function AllocateAll(next: int, requests: seq<Option<int>>): (r: (seq<int>, int))
    ensures |r.0| == |requests| && next <= r.1
    ensures forall i :: 0 <= i < |requests| ==> r.0[i] < r.1
    decreases |requests|
  {
    if requests == [] then ([], next)
    else
      var a := Allocate(next, requests[0]);
      var rest := AllocateAll(a.next, requests[1..]);
      ([a.id] + rest.0, rest.1)
  }

  /** An id the counter hands out is new: it differs from every id the
      counter had seen before the run and from every id given out earlier in
      the run, whether that one was handed out or requested. */
  lemma {:induction false} AutoIdsAreFresh(next: int, seen: set<int>, requests: seq<Option<int>>, i: nat)
    requires forall id :: id in seen ==> id < next
    requires i < |requests| && requests[i].None?
    ensures AllocateAll(next, requests).0[i] !in seen
    ensures forall j :: 0 <= j < i ==> AllocateAll(next, requests).0[j] != AllocateAll(next, requests).0[i]
    decreases i
  {
    if i > 0 {
      var a := Allocate(next, requests[0]);
      AutoIdsAreFresh(a.next, seen + {a.id}, requests[1..], i - 1);
      var ids := AllocateAll(next, requests).0;
      var rest := AllocateAll(a.next, requests[1..]).0;
      assert ids == [a.id] + rest;
      forall j | 0 <= j < i
        ensures ids[j] != ids[i]
      {
        if j > 0 {
          assert ids[j] == rest[j - 1];
        }
      }
    }
  }

  /** The class-level counter `User.current_id`, with the ids it has seen. */
  class IdCounter {
    var next: int
    ghost var seen: set<int>

    /** The counter never drops below its start and stays above every id it has seen. */
    ghost predicate Valid()
      reads this
    {
      FirstId <= next && forall id :: id in seen ==> id < next
    }

    constructor ()
      ensures Valid() && next == FirstId && seen == {}
    {
      next := FirstId;
      seen := {};
    }

    /** The second bump in `load_users`: raise the counter past `id` when needed. */
    method Observe(id: int)
      requires Valid()
      modifies this
      ensures Valid()
      ensures next == Max(old(next), id + 1) && seen == old(seen) + {id}
    {
      if id >= next {
        next := id + 1;
      }
      seen := seen + {id};
    }
  }

  // ---------------------------------------------------------------------------
  // Users

  /** One stored user: the dictionary `register()` returns and `load_users` reads. */
  datatype UserRecord = UserRecord(userId: int, name: string, address: string, phone: string,
                                   email: string, password: string, role: string, isVerified: bool)

  class User {
    const userId: int
    const name: string
    const address: string
    const phone: string
    const email: string
    const role: string
    var password: string
    var isVerified: bool

    /** `User(name, address, phone, email, user_id, password, role, is_verified)`. */
    constructor (counter: IdCounter, name: string, address: string, phone: string, email: string,
                 requested: Option<int>, password: string, role: string, isVerified: bool)
      requires counter.Valid()
      modifies counter
      ensures counter.Valid()
      ensures Allocation(userId, counter.next) == Allocate(old(counter.next), requested)
      ensures counter.seen == old(counter.seen) + {userId}
      ensures this.name == name && this.address == address && this.phone == phone && this.email == email
      ensures this.password == password && this.role == role && this.isVerified == isVerified
    {
      var a := Allocate(counter.next, requested);
      userId := a.id;
      this.name := name;
      this.address := address;
      this.phone := phone;
      this.email := email;
      this.password := password;
      this.role := role;
      this.isVerified := isVerified;
      new;
      counter.next := a.next;
      counter.seen := counter.seen + {a.id};
    }

    /** `Admin(user_id, name, address, phone, email, password)`: an admin is verified from the start. */
    constructor Admin(counter: IdCounter, userId: int, name: string, address: string, phone: string,
                      email: string, password: string)
      requires counter.Valid()
      modifies counter
      ensures counter.Valid()
      ensures this.userId == userId && counter.next == Max(old(counter.next), userId + 1)
      ensures counter.seen == old(counter.seen) + {userId}
      ensures this.name == name && this.address == address && this.phone == phone && this.email == email
      ensures this.password == password && role == AdminRole && isVerified
    {
      var a := Allocate(counter.next, Some(userId));
      this.userId := a.id;
      this.name := name;
      this.address := address;
      this.phone := phone;
      this.email := email;
      this.password := password;
      role := AdminRole;
      isVerified := true;
      new;
      counter.next := a.next;
      counter.seen := counter.seen + {a.id};
    }

    /** `register()`: the record of this user. */
    function Register(): (r: UserRecord)
      reads this
      ensures r.userId == userId && r.password == password && r.isVerified == isVerified
    {
      UserRecord(userId, name, address, phone, email, password, role, isVerified)
    }

    /** `verify()`: marks the user verified and changes nothing else. */
    method Verify()
      modifies this
      ensures isVerified && password == old(password)
    {
      isVerified := true;
    }

    /** `set_password(p)`: afterwards exactly `p` passes `check_password`. */
    method SetPassword(p: string)
      modifies this
      ensures password == p && isVerified == old(isVerified)
      ensures forall q :: CheckPassword(q) <==> q == p
    {
      password := p;
    }

    /** `check_password(candidate)`: plain string equality. */
    predicate CheckPassword(candidate: string)
      reads this
    {
      password == candidate
    }
  }

  // ---------------------------------------------------------------------------
  // The users dict and `load_users`

  /** `self.users`: user id to user, in insertion order. */
  type Users = OrderedDict.Dict<int, User>

  /** Each user is filed under its own id, once. */
  predicate UsersValid(users: Users) {
    OrderedDict.Valid(users) && forall i :: 0 <= i < |users| ==> users[i].0 == users[i].1.userId
  }

  /** The records of the users, in dict order. */
  function Records(users: Users): OrderedDict.Dict<int, UserRecord>
    reads set i | 0 <= i < |users| :: users[i].1
  {
    if users == [] then [] else [(users[0].0, users[0].1.Register())] + Records(users[1..])
  }

  /** The record a user rebuilt from `r` by `load_users` reports: a record
      with role admin becomes an `Admin`, which is always verified. */
  function Reloaded(r: UserRecord): (l: UserRecord)
    ensures l.role == AdminRole ==> l.isVerified
    ensures l == r.(isVerified := l.isVerified)
    ensures l.isVerified != r.isVerified ==> r.role == AdminRole
  {
    if r.role == AdminRole then r.(isVerified := true) else r
  }

  /** The dict `load_users` builds from the stored records, as records: a
      later record with the same id replaces the earlier one in its place. */
  function LoadedRecords(records: seq<UserRecord>): OrderedDict.Dict<int, UserRecord>
  {
    if records == [] then []
    else
      var last := records[|records| - 1];
      OrderedDict.Put(LoadedRecords(records[..|records| - 1]), last.userId, Reloaded(last))
  }

  /** The counter after `load_users` has raised it past each loaded id in turn. */
  function Bumped(next: int, records: seq<UserRecord>): int {
    if records == [] then next
    else Max(Bumped(next, records[..|records| - 1]), records[|records| - 1].userId + 1)
  }

  /** The ids of the loaded records. */
  function Ids(records: seq<UserRecord>): set<int> {
    if records == [] then {} else Ids(records[..|records| - 1]) + {records[|records| - 1].userId}
  }

  /** After loading, the counter is never lower than before, lies above every
      loaded id, and is either unchanged or one past some loaded id. */
  lemma {:induction false} BumpedBounds(next: int, records: seq<UserRecord>)
    ensures next <= Bumped(next, records)
    ensures forall r :: r in records ==> r.userId < Bumped(next, records)
    ensures Bumped(next, records) == next || exists r :: r in records && Bumped(next, records) == r.userId + 1
    ensures forall id :: id in Ids(records) <==> exists r :: r in records && r.userId == id
  {
    if records != [] {
      var init, last := records[..|records| - 1], records[|records| - 1];
      BumpedBounds(next, init);
      assert records == init + [last];
      if Bumped(next, records) != next && Bumped(next, records) != last.userId + 1 {
        assert Bumped(next, records) == Bumped(next, init);
        var r :| r in init && Bumped(next, init) == r.userId + 1;
        assert r in records;
      }
    }
  }

  /** Records filed under their own ids, in order. */
  function Indexed(records: seq<UserRecord>): OrderedDict.Dict<int, UserRecord> {
    seq(|records|, i requires 0 <= i < |records| => (records[i].userId, records[i]))
  }

  /** Loading what `save_all_users` wrote (distinct ids, admins verified)
      gives back the same records in the same order. */
  lemma {:induction false} ReloadSavedUsers(records: seq<UserRecord>)
    requires forall i, j :: 0 <= i < j < |records| ==> records[i].userId != records[j].userId
    requires forall i :: 0 <= i < |records| && records[i].role == AdminRole ==> records[i].isVerified
    ensures LoadedRecords(records) == Indexed(records)
  {
    if records != [] {
      var n := |records| - 1;
      var init, last := records[..n], records[n];
      ReloadSavedUsers(init);
      assert Reloaded(last) == last;
      LastIdIsNew(records);
      IndexedSnoc(records);
      OrderedDict.PutNewAppends(Indexed(init), last.userId, last);
    }
  }

  lemma IndexedSnoc(records: seq<UserRecord>)
    requires records != []
    ensures Indexed(records[..|records| - 1]) + [(records[|records| - 1].userId, records[|records| - 1])] == Indexed(records)
  {
  }

  lemma LastIdIsNew(records: seq<UserRecord>)
    requires records != []
    requires forall i, j :: 0 <= i < j < |records| ==> records[i].userId != records[j].userId
    ensures records[|records| - 1].userId !in OrderedDict.Keys(Indexed(records[..|records| - 1]))
  {
    var n := |records| - 1;
    OrderedDict.KeysMembership(Indexed(records[..n]), records[n].userId);
  }

  lemma {:induction false} RecordsPut(users: Users, k: int, u: User)
    ensures Records(OrderedDict.Put(users, k, u)) == OrderedDict.Put(Records(users), k, u.Register())
  {
    if users != [] && users[0].0 != k {
      RecordsPut(users[1..], k, u);
    }
  }

  /** The records are filed under the same keys as the users. */
  lemma {:induction false} KeysRecords(users: Users)
    ensures OrderedDict.Keys(Records(users)) == OrderedDict.Keys(users)
  {
    if users != [] {
      KeysRecords(users[1..]);
    }
  }

  /** The user objects in the dict. */
  function Objects(users: Users): (o: set<User>)
    ensures forall i :: 0 <= i < |users| ==> users[i].1 in o
  {
    if users == [] then {} else {users[0].1} + Objects(users[1..])
  }

  /** Filing `u` brings no user object into the dict other than `u`. */
  lemma {:induction false} PutObjects(users: Users, k: int, u: User)
    ensures Objects(OrderedDict.Put(users, k, u)) <= Objects(users) + {u}
  {
    if users != [] && users[0].0 != k {
      PutObjects(users[1..], k, u);
    }
  }

  /** Building a user touches no user already in the dict. */
  twostate lemma RecordsUnchanged(users: Users)
    requires forall j :: 0 <= j < |users| ==> unchanged(users[j].1)
    ensures Records(users) == old(Records(users))
  {
    if users != [] {
      RecordsUnchanged(users[1..]);
    }
  }

  /** One pass of the loop in `load_users`: an `Admin` for a record with role
      admin, a `User` with the stored fields otherwise, filed under its id;
      then the counter is raised past the id once more. */
  method LoadOne(r: UserRecord, counter: IdCounter, users: Users) returns (users': Users)
    requires counter.Valid() && UsersValid(users)
    modifies counter
    ensures counter.Valid() && UsersValid(users')
    ensures Records(users') == OrderedDict.Put(old(Records(users)), r.userId, Reloaded(r))
    ensures counter.next == Max(old(counter.next), r.userId + 1)
    ensures counter.seen == old(counter.seen) + {r.userId}
    ensures forall o :: o in Objects(users') ==> o in Objects(users) || fresh(o)
    ensures forall k :: k in OrderedDict.Keys(users') ==> k in OrderedDict.Keys(users) || k == r.userId
  {
    var u: User;
    if r.role == AdminRole {
      u := new User.Admin(counter, r.userId, r.name, r.address, r.phone, r.email, r.password);
    } else {
      u := new User(counter, r.name, r.address, r.phone, r.email, Some(r.userId), r.password, r.role, r.isVerified);
    }
    users' := OrderedDict.Put(users, u.userId, u);
    counter.Observe(u.userId);
    RecordsUnchanged(users);
    RecordsPut(users, u.userId, u);
    KeysFiled(users, u.userId, u);
    PutObjects(users, u.userId, u);
  }

  /** `load_users` over the parsed lines of users_info.txt: rebuilds each
      user, files it under its id (a repeated id replaces the earlier user in
      its place) and leaves the counter at the larger of its old value and one
      past the largest id loaded. */
  method LoadUsers(records: seq<UserRecord>, counter: IdCounter) returns (users: Users)
    requires counter.Valid()
    modifies counter
    ensures counter.Valid() && UsersValid(users)
    ensures Records(users) == LoadedRecords(records)
    ensures counter.next == Bumped(old(counter.next), records)
    ensures counter.seen == old(counter.seen) + Ids(records)
    ensures fresh(Objects(users))
    ensures forall k :: k in OrderedDict.Keys(users) ==> k in counter.seen
  {
    users := [];
    var i := 0;
    while i < |records|
      invariant 0 <= i <= |records|
      invariant counter.Valid() && UsersValid(users)
      invariant Records(users) == LoadedRecords(records[..i])
      invariant counter.next == Bumped(old(counter.next), records[..i])
      invariant counter.seen == old(counter.seen) + Ids(records[..i])
      invariant fresh(Objects(users))
      invariant forall k :: k in OrderedDict.Keys(users) ==> k in counter.seen
    {
      users := LoadOne(records[i], counter, users);
      assert records[..i + 1][..i] == records[..i];
      assert counter.next == Bumped(old(counter.next), records[..i + 1]);
      assert counter.seen == old(counter.seen) + Ids(records[..i + 1]);
      i := i + 1;
    }
    assert records[..i] == records;
  }

  /** Filing a user under its own id keeps every user under its own id. */
  lemma {:induction false} KeysFiled(users: Users, k: int, u: User)
    requires forall i :: 0 <= i < |users| ==> users[i].0 == users[i].1.userId
    requires k == u.userId
    ensures forall i :: 0 <= i < |OrderedDict.Put(users, k, u)| ==>
              OrderedDict.Put(users, k, u)[i].0 == OrderedDict.Put(users, k, u)[i].1.userId
  {
    if users != [] && users[0].0 != k {
      KeysFiled(users[1..], k, u);
    }
  }
}
