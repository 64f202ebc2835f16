/** `Application` of Item_resurrected.py without its windows: start-up, the
    session (`current_user`) with `login` and `logout`, and the handlers
    behind the buttons that change users and items. */
module Application {
  import opened Wrappers
  import Sequences
  import Text
  import OrderedDict
  import Users
  import Admins
  import Items
  import Categories

  // ---------------------------------------------------------------------------
  // login

  /** How `login` ends. */
  datatype LoginOutcome = NotNumeric | InvalidId | WrongPassword | NotVerified | LoggedIn(user: Users.User)

  /** Who may hold the session: an admin, or a verified user. */
  predicate MayLogIn(u: Users.User)
    reads u
  {
    u.role == Users.AdminRole || u.isVerified
  }

  /** The decision `login` takes on the typed id and password. */
  function LoginDecision(users: Users.Users, idText: string, password: string): (o: LoginOutcome)
    reads Users.Objects(users)
    ensures o == NotNumeric <==> !Text.IsDigits(idText)
    ensures o == InvalidId <==> Text.IsDigits(idText) && Text.DigitsValue(idText) !in OrderedDict.Keys(users)
    ensures o.LoggedIn? ==> Text.IsDigits(idText) && (Text.DigitsValue(idText), o.user) in users
    ensures o.LoggedIn? ==> o.user.CheckPassword(password) && MayLogIn(o.user)
  {
    if !Text.IsDigits(idText) then NotNumeric
    else
      match OrderedDict.Get(users, Text.DigitsValue(idText))
      case None => InvalidId
      case Some(u) =>
        if !u.CheckPassword(password) then WrongPassword
        else if MayLogIn(u) then LoggedIn(u)
        else NotVerified
  }

  /** For the user filed under the typed id, the password and the user's
      standing alone decide: the session goes to exactly that user when the
      password matches and the user is an admin or verified. */
  lemma LoginGate(users: Users.Users, idText: string, password: string, u: Users.User)
    requires OrderedDict.Valid(users) && Text.IsDigits(idText)
    requires (Text.DigitsValue(idText), u) in users
    ensures LoginDecision(users, idText, password) == LoggedIn(u) <==> u.CheckPassword(password) && MayLogIn(u)
    ensures LoginDecision(users, idText, password) == WrongPassword <==> !u.CheckPassword(password)
    ensures LoginDecision(users, idText, password) == NotVerified <==> u.CheckPassword(password) && !MayLogIn(u)
  {
    var i :| 0 <= i < |users| && users[i] == (Text.DigitsValue(idText), u);
    OrderedDict.GetValid(users, i);
  }

  /** Typing a user's id the way the registration message shows it reaches
      that user. */
  lemma LoginWithShownId(users: Users.Users, i: nat, password: string)
    requires Users.UsersValid(users) && i < |users| && users[i].1.userId >= 0
    ensures (LoginDecision(users, Text.Decimal(users[i].1.userId), password) == LoggedIn(users[i].1))
              <==> (users[i].1.CheckPassword(password) && MayLogIn(users[i].1))
  {
    var u := users[i].1;
    Text.DecimalRoundTrip(u.userId);
    assert users[i] == (Text.DigitsValue(Text.Decimal(u.userId)), u);
    LoginGate(users, Text.Decimal(u.userId), password, u);
  }

  // ---------------------------------------------------------------------------
  // Start-up

  /** The record of the admin `Application.__init__` files under id 1. */
  const DefaultAdmin: Users.UserRecord :=
    Users.UserRecord(1, "管理员", "Admin Street", "1234567890", "admin@admin.com",
                     Users.AdminPassword, Users.AdminRole, true)

  /** The admin of `Application.__init__`, filed under id 1 after every
      loaded user. */
  method AddDefaultAdmin(counter: Users.IdCounter, users: Users.Users) returns (users': Users.Users)
    requires counter.Valid() && Users.UsersValid(users)
    requires 1 !in OrderedDict.Keys(users)
    modifies counter
    ensures counter.Valid() && Users.UsersValid(users')
    ensures Users.Records(users') == old(Users.Records(users)) + [(1, DefaultAdmin)]
    ensures OrderedDict.Keys(users') == OrderedDict.Keys(users) + [1]
    ensures counter.next == Users.Max(old(counter.next), 2) && counter.seen == old(counter.seen) + {1}
    ensures forall o :: o in Users.Objects(users') ==> o in Users.Objects(users) || fresh(o)
  {
    var admin := new Users.User.Admin(counter, 1, "管理员", "Admin Street", "1234567890", "admin@admin.com",
                                      Users.AdminPassword);
    users' := OrderedDict.Put(users, 1, admin);
    Users.RecordsUnchanged(users);
    Users.RecordsPut(users, 1, admin);
    Users.KeysFiled(users, 1, admin);
    Users.PutObjects(users, 1, admin);
    Users.KeysRecords(users);
    OrderedDict.PutNewAppends(Users.Records(users), 1, admin.Register());
  }

  /** `load_users` followed by the default admin of `Application.__init__`
      when no loaded user has id 1. */
  method StartUsers(records: seq<Users.UserRecord>, counter: Users.IdCounter) returns (users: Users.Users)
    requires counter.Valid()
    modifies counter
    ensures counter.Valid() && Users.UsersValid(users)
    ensures forall k :: k in OrderedDict.Keys(users) ==> k in counter.seen
    ensures 1 in OrderedDict.Keys(users)
    ensures Users.Records(users) ==
              if 1 in OrderedDict.Keys(Users.LoadedRecords(records)) then Users.LoadedRecords(records)
              else Users.LoadedRecords(records) + [(1, DefaultAdmin)]
  {
    users := Users.LoadUsers(records, counter);
    Users.KeysRecords(users);
    if 1 !in OrderedDict.Keys(users) {
      users := AddDefaultAdmin(counter, users);
    }
  }

  /** `load_categories` and then `load_items` against the loaded users, each
      into its fresh registry; the users themselves are left alone. */
  method LoadStored(categoryText: string, itemRecords: seq<Items.ItemRecord>, users: Users.Users)
    returns (categories: Categories.CategoryRegistry, registry: Items.ItemRegistry)
    ensures fresh(categories) && categories.Valid() && categories.entries == Categories.Reload(categoryText)
    ensures fresh(registry) && registry.Valid() && Items.Views(registry.items) == Items.Resolved(itemRecords, users)
    ensures Users.Records(users) == old(Users.Records(users))
  {
    categories := new Categories.CategoryRegistry();
    categories.LoadCategories(categoryText);
    registry := new Items.ItemRegistry();
    var loaded := registry.LoadItems(itemRecords, users);
    assert registry.items == loaded;
    Users.RecordsUnchanged(users);
  }

  /** How `submit_add_item` ends. */
  datatype AddOutcome = NoCategory | AddMissingFields | Added(item: Items.Item)

  /** How `submit_modify_item` ends. */
  datatype ModifyOutcome = ModifyMissingFields | ModifyNotFound | Modified

  /** How `submit_delete_item` ends; `Declined` is the answer "no" to the
      confirmation question. */
  datatype DeleteOutcome = DeleteNotFound | Declined | Deleted(message: string)

  /** The category names the add-item window shows when it has none to offer. */
  predicate IsPlaceholder(category: string) {
    category == "无类别" || category == "选择类别"
  }

  /** The state behind `Application`: the users dict, the logged-in user,
      the class-level id counter and the item and category registries. */
  class Session {
    var users: Users.Users
    var currentUser: Users.User?
    const counter: Users.IdCounter
    const registry: Items.ItemRegistry
    const categories: Categories.CategoryRegistry

    /** Each user is filed under its own id, every filed id has passed
        through the counter (so the counter lies above it), and each registry
        keeps its own invariant. */
    ghost predicate Valid()
      reads this, counter, registry, categories
    {
      counter.Valid() && Users.UsersValid(users) && registry.Valid() && categories.Valid() &&
      forall k :: k in OrderedDict.Keys(users) ==> k in counter.seen
    }

    /** `Application.__init__` on the stored data: `load_users`, the default
        admin when no user has id 1, `load_categories`, `load_items` against
        the loaded users, and nobody logged in. */
    constructor (userRecords: seq<Users.UserRecord>, categoryText: string, itemRecords: seq<Items.ItemRecord>)
      ensures Valid() && currentUser == null
      ensures 1 in OrderedDict.Keys(users)
      ensures Users.Records(users) ==
                if 1 in OrderedDict.Keys(Users.LoadedRecords(userRecords)) then Users.LoadedRecords(userRecords)
                else Users.LoadedRecords(userRecords) + [(1, DefaultAdmin)]
      ensures categories.entries == Categories.Reload(categoryText)
      ensures Items.Views(registry.items) == Items.Resolved(itemRecords, users)
    {
      var c := new Users.IdCounter();
      var us := StartUsers(userRecords, c);
      var cats, reg := LoadStored(categoryText, itemRecords, us);
      counter := c;
      users := us;
      currentUser := null;
      registry := reg;
      categories := cats;
    }

    // -------------------------------------------------------------------------
    // The session

    /** `login`: binds the session to the user the decision names, and leaves
        it as it was in every other outcome. */
    method Login(idText: string, password: string) returns (outcome: LoginOutcome)
      requires Valid()
      modifies this
      ensures Valid() && users == old(users)
      ensures outcome == LoginDecision(users, idText, password)
      ensures outcome.LoggedIn? ==> currentUser == outcome.user
      ensures !outcome.LoggedIn? ==> currentUser == old(currentUser)
    {
      if !Text.IsDigits(idText) {
        return NotNumeric;
      }
      var found := OrderedDict.Get(users, Text.DigitsValue(idText));
      if found.None? {
        return InvalidId;
      }
      var u := found.value;
      if !u.CheckPassword(password) {
        return WrongPassword;
      }
      if u.role == Users.AdminRole {
        currentUser := u;
      } else if u.isVerified {
        currentUser := u;
      } else {
        return NotVerified;
      }
      outcome := LoggedIn(u);
    }

    /** `logout`: nobody is logged in afterwards. */
    method Logout()
      requires Valid()
      modifies this
      ensures Valid() && users == old(users)
      ensures currentUser == null
    {
      currentUser := null;
    }

    // -------------------------------------------------------------------------
    // Users

    /** `register_user`: with every field filled in, a new unverified user
        with the default password under the next id of the counter, filed
        after every existing user and waiting for approval; otherwise nothing
        changes. */
    method RegisterUser(name: string, address: string, phone: string, email: string)
      returns (registered: Option<Users.User>)
      requires Valid()
      modifies this, counter
      ensures Valid() && currentUser == old(currentUser)
      ensures registered.None? <==> name == [] || address == [] || phone == [] || email == []
      ensures registered.None? ==> users == old(users) && counter.next == old(counter.next)
      ensures registered.Some? ==> fresh(registered.value) && counter.next == old(counter.next) + 1
      ensures registered.Some? ==>
                registered.value.Register() ==
                  Users.UserRecord(old(counter.next), name, address, phone, email,
                                   Users.DefaultPassword, Users.UserRole, false)
      ensures registered.Some? ==> old(counter.next) !in OrderedDict.Keys(old(users))
      ensures registered.Some? ==> users == old(users) + [(old(counter.next), registered.value)]
      ensures registered.Some? ==> Admins.IsPending(registered.value)
    {
      if name == [] || address == [] || phone == [] || email == [] {
        return None;
      }
      var u := new Users.User(counter, name, address, phone, email, None, Users.DefaultPassword, Users.UserRole, false);
      assert Admins.IsPending(u) by {
        assert Users.UserRole[0] != Users.AdminRole[0];
      }
      OrderedDict.PutNewAppends(users, u.userId, u);
      users := OrderedDict.Put(users, u.userId, u);
      Users.KeysFiled(old(users), u.userId, u);
      registered := Some(u);
    }

    /** The approve button of the pending-users window: only an admin may
        approve, and then `approve_user` runs; anyone else changes nothing. */
    method ApproveUser(u: Users.User) returns (msg: Option<string>)
      requires Valid()
      modifies u
      ensures Valid()
      ensures currentUser != null && currentUser.role == Users.AdminRole ==>
                msg == Some(Admins.ApprovalMessage(u.name)) && u.isVerified && u.password == old(u.password)
      ensures !(currentUser != null && currentUser.role == Users.AdminRole) ==> msg == None && unchanged(u)
    {
      if currentUser != null && currentUser.role == Users.AdminRole {
        var m := Admins.ApproveUser(u);
        msg := Some(m);
      } else {
        msg := None;
      }
    }

    // -------------------------------------------------------------------------
    // Items

    /** `submit_add_item`: refuses a placeholder category and empty fields;
        otherwise the logged-in user's new item goes at the end of the list. */
    method SubmitAddItem(name: string, description: string, category: string) returns (outcome: AddOutcome)
      requires Valid() && currentUser != null
      modifies registry
      ensures Valid()
      ensures outcome == NoCategory <==> IsPlaceholder(category)
      ensures outcome == AddMissingFields <==> !IsPlaceholder(category) && (name == [] || description == [] || category == [])
      ensures outcome.Added? ==> fresh(outcome.item) && registry.items == old(registry.items) + [outcome.item]
      ensures outcome.Added? ==> outcome.item.View() == Items.ItemView(name, description, category, currentUser)
      ensures !outcome.Added? ==> registry.items == old(registry.items)
    {
      if IsPlaceholder(category) {
        return NoCategory;
      }
      if name == [] || description == [] || category == [] {
        return AddMissingFields;
      }
      var item := registry.AddItem(name, description, category, currentUser);
      outcome := Added(item);
    }

    /** `submit_modify_item`: with both new fields filled in, renames and
        redescribes the first item of the logged-in user with the old name;
        every other item keeps its fields and the list keeps its order. */
    method SubmitModifyItem(oldName: string, newName: string, newDescription: string) returns (outcome: ModifyOutcome)
      requires Valid() && currentUser != null
      modifies set x | x in registry.items
      ensures Valid() && registry.items == old(registry.items)
      ensures outcome == ModifyMissingFields <==> newName == [] || newDescription == []
      ensures outcome == ModifyNotFound <==>
                newName != [] && newDescription != [] &&
                old(Items.FirstOwned(registry.items, oldName, currentUser.userId)).None?
      ensures outcome == Modified ==>
                var j := old(Items.FirstOwned(registry.items, oldName, currentUser.userId)).value;
                var before := old(Items.Views(registry.items));
                Items.Views(registry.items) == before[j := before[j].(name := newName, description := newDescription)]
      ensures outcome != Modified ==> Items.Views(registry.items) == old(Items.Views(registry.items))
    {
      if newName == [] || newDescription == [] {
        return ModifyMissingFields;
      }
      var found := Items.FirstOwned(registry.items, oldName, currentUser.userId);
      if found.None? {
        return ModifyNotFound;
      }
      var j := found.value;
      ghost var before := Items.Views(registry.items);
      Items.ViewsIndex(registry.items);
      var item := registry.items[j];
      item.name := newName;
      item.description := newDescription;
      forall k | 0 <= k < |registry.items| && k != j
        ensures registry.items[k] != item
      {
        if k < j {
          Sequences.DistinctIndices(registry.items, k, j);
        } else {
          Sequences.DistinctIndices(registry.items, j, k);
        }
      }
      Items.ViewsOf(registry.items, before[j := before[j].(name := newName, description := newDescription)]);
      outcome := Modified;
    }

    /** `submit_delete_item`: finds the first item of the logged-in user with
        the name and, when the deletion is confirmed, removes it through
        `delete_item`, which then always reports a deletion. */
    method SubmitDeleteItem(itemName: string, confirmed: bool) returns (outcome: DeleteOutcome)
      requires Valid() && currentUser != null
      modifies registry
      ensures Valid()
      ensures old(Items.FirstOwned(registry.items, itemName, currentUser.userId)).None? ==>
                outcome == DeleteNotFound && registry.items == old(registry.items)
      ensures old(Items.FirstOwned(registry.items, itemName, currentUser.userId)).Some? && !confirmed ==>
                outcome == Declined && registry.items == old(registry.items)
      ensures old(Items.FirstOwned(registry.items, itemName, currentUser.userId)).Some? && confirmed ==>
                var item := old(registry.items[Items.FirstOwned(registry.items, itemName, currentUser.userId).value]);
                registry.items == Sequences.RemoveFirst(old(registry.items), item) &&
                outcome == Deleted(Items.DeletedMessage(itemName))
    {
      var found := Items.FirstOwned(registry.items, itemName, currentUser.userId);
      if found.None? {
        return DeleteNotFound;
      }
      if !confirmed {
        return Declined;
      }
      var item := registry.items[found.value];
      var msg := registry.DeleteItem(item);
      outcome := Deleted(msg);
    }
  }
}
