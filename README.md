# Item resurrection system: a Dafny model of its registries and session

Item_resurrected.py is a desktop program for trading second-hand items.
Users register with contact details and wait for an administrator's
approval. Logged-in users add, modify, search and delete their items, and an
administrator manages item categories and resets passwords. This project
models the part of the program that is not window code:

- the user registry, with the class-level id counter `User.current_id`
  (module `Users`);
- the administrator's operations on users (module `Admins`);
- the item list `Item.items`: add, delete, search, and the owner filter of
  `load_items` (module `Items`);
- the category dict `ItemCategory.categories` and its `categories.txt` line
  format (module `Categories`);
- the session of `Application`: start-up, `login`/`logout`, registration, the
  approval gate, and the add/modify/delete item handlers (module
  `Application`).

Supporting modules:

- `OrderedDict` models Python's insertion-ordered `dict`.
- `Sequences` models list removal and order-preserving filters.
- `Text` models the string operations the program uses: substring `in`,
  `lower`, `strip`, `split(",", 1)`, line splitting, `isdigit`/`int` and
  decimal printing.
- `Wrappers` holds `Option`.

Objects that the program updates in place are Dafny classes:

- `User` (password, verification flag);
- `Item` (name, description);
- the id counter;
- the item and category registries;
- the session.

Pure computations are functions: `check_password`, `view_pending_users`,
`search_item`, the category line format, and the decision `login` takes.

Files are not modelled. The loaders take the parsed contents of a file as a
parameter: a sequence of user records, the text of categories.txt, or a
sequence of item records. Savers return text or change nothing the model
keeps.

## Model

| member | source | states |
|---|---|---|
| Users.Allocate | Item_resurrected.py:21-30 | Without an id, the user gets the counter's value and the counter moves up by one. With an id, the user keeps it and the counter becomes the larger of itself and id + 1. Either way the new counter lies above the id and is never lower than before. |
| Users.AutoIdsAreFresh | Item_resurrected.py:19-30 | Over any sequence of constructions, an automatically assigned id is different from every id the counter saw before and from every id handed out earlier in the sequence. |
| Users.IdCounter.constructor | Item_resurrected.py:19 | The id counter starts at 100000000 and has seen no id. |
| Users.IdCounter.Observe | Item_resurrected.py:101-102 | The second bump in `load_users` raises the counter to id + 1 when needed. It keeps the counter above every id it has seen. |
| Users.User.constructor | Item_resurrected.py:21-38 | `User(...)` takes its id from the counter as `Allocate` describes and stores the given fields. |
| Users.User.Admin | Item_resurrected.py:106-109 | `Admin(...)` keeps its id, raises the counter past it, has role admin and is verified. |
| Users.User.Register | Item_resurrected.py:39-50 | `register()` reports the user's id, password and verification flag as they currently are. |
| Users.User.Verify | Item_resurrected.py:52-54 | `verify()` leaves the user verified and the password unchanged. |
| Users.User.SetPassword | Item_resurrected.py:56-62 | After `set_password(p)`, `check_password(q)` holds exactly when q == p, and verification is unchanged. |
| Users.Reloaded | Item_resurrected.py:79-98 | A stored record comes back unchanged except that a record with role admin becomes a verified `Admin`. |
| Users.BumpedBounds | Item_resurrected.py:71-103 | After `load_users` the counter is no lower than before and lies above every loaded id. It is either its old value or one past some loaded id. |
| Users.ReloadSavedUsers | Item_resurrected.py:71-103 | Loading records with distinct ids, where every admin is verified, gives back the same records in the same order, each under its own id. |
| Users.LoadOne | Item_resurrected.py:79-102 | One pass of the `load_users` loop: an `Admin` for an admin record, a `User` otherwise, filed under its id. The counter ends at the larger of itself and id + 1. |
| Users.LoadUsers | Item_resurrected.py:71-103 | The loaded users' records are `LoadedRecords`, where a repeated id replaces the earlier user in its place. The counter is `Bumped`. Every filed id has passed through the counter. |
| Admins.PendingUsers | Item_resurrected.py:123-125 | `view_pending_users` returns exactly the unverified non-admin users, in dict order, as a subsequence of the dict's values. |
| Admins.PendingAppend | Item_resurrected.py:125 | A user filed after all others comes last in the pending list when pending, and is absent from it otherwise. |
| Admins.ApproveUser | Item_resurrected.py:127-132 | The user ends verified with the same password. An already verified user is not changed. The message is the same either way, so approving twice is the same as approving once. |
| Admins.ResetUserPassword | Item_resurrected.py:134-137 | Afterwards exactly the new password passes `check_password`. Verification is kept, and the message names the user and the password. |
| Items.Item.constructor | Item_resurrected.py:195-199 | A new item has the given name, description, category and owner. |
| Items.ItemRecordsViews | Item_resurrected.py:163-172 | The records `save_items` writes for a list of items are, in list order, each item's name, description, category and owner id. |
| Items.Search | Item_resurrected.py:182-184 | `search_item(c, k)` returns an order-preserving subsequence of the items. An item is in it exactly when c occurs in its category and the lower-cased k occurs in its lower-cased name or description. |
| Items.SearchIgnoresKeywordCase | Item_resurrected.py:184 | Lower-casing the keyword first does not change the result. |
| Items.SearchEverything | Item_resurrected.py:184 | An empty category and an empty keyword return the whole list. |
| Items.FirstOwned | Item_resurrected.py:691 | The lookup of `submit_modify_item` and `submit_delete_item` finds the first item with the name whose owner has the logged-in user's id, or reports that there is none. |
| Items.Kept | Item_resurrected.py:151-160 | The records `load_items` keeps are an order-preserving subsequence, holding exactly those whose owner id is in the users dict. |
| Items.KeptCounts | Item_resurrected.py:151-160 | `load_items` keeps every copy of a record whose owner id is in the users dict, and no copy of any other record. |
| Items.RecordsOf | Item_resurrected.py:167-172 | The records of a list of items, one for each item. |
| Items.ResolvedRecords | Item_resurrected.py:144-173 | The items `load_items` builds write back, through `save_items`, exactly the records whose owner exists, in order. |
| Items.ItemRegistry.AddItem | Item_resurrected.py:176-179 | `add_item` appends a new item with the given fields and changes nothing before it. |
| Items.ItemRegistry.DeleteItem | Item_resurrected.py:187-193 | When present, the item is removed: the list shrinks by one, keeps the order of the rest and no longer holds it, and the message says deleted. When absent, the list is unchanged and the message says it does not exist. |
| Items.ItemRegistry.constructor | Item_resurrected.py:141 | `Item.items` starts empty. |
| Items.ItemRegistry.SaveItems | Item_resurrected.py:163-172 | `save_items` writes one record per item, in list order: `ItemRecords(items)`. |
| Items.ItemRegistry.LoadItems | Item_resurrected.py:144-160 | The new items go after the existing ones, their fields are `Resolved(records, users)`, and the list keeps no duplicates. With consistent users, saving the new items writes back exactly the kept records (`Kept`). |
| Items.LoadedRecords | Item_resurrected.py:144-172 | Items built by `load_items` write back, through `save_items`, exactly the records whose owner exists, in order. |
| Items.LoadOne | Item_resurrected.py:151-160 | For one record: a new item owned by the user found under the record's owner id, or nothing when `users.get` finds none. |
| Categories.DescribedOnly | Item_resurrected.py:220-225 | The categories `save_categories` writes are among the keys, keep the dict's validity, and all hold a description. |
| Categories.DescribedOnlyInOrder | Item_resurrected.py:220-225 | The categories `save_categories` writes keep the dict order: they form a subsequence of the entries. |
| Categories.GetDescribedOnly | Item_resurrected.py:220-225 | After writing, a name keeps its value if that value is a description and is absent otherwise. |
| Categories.LoadFormatted | Item_resurrected.py:209-213 | A storable written line `name,description` is read back as that name with that description. |
| Categories.SaveLoad | Item_resurrected.py:204-225 | Reading back what `save_categories` wrote appends the described categories in order, when each is storable and no name repeats. |
| Categories.Restart | Item_resurrected.py:204-225 | At start-up the registry holds exactly the described categories that were saved. |
| Categories.PutStorable | Item_resurrected.py:228-230 | Assigning a storable category keeps every category storable. |
| Categories.DialogCheck | Item_resurrected.py:567-577 | The add-category dialog stores something exactly when the name is non-empty and new and the description is non-empty. |
| Categories.DialogAddAsWritten | Item_resurrected.py:567-579 | The dialog as written: when its checks pass, the category is appended at the end of the dict with the bare description string as value; otherwise nothing changes. |
| Categories.DialogAdd | Item_resurrected.py:567-579 | The intended dialog: when its checks pass, the category is appended at the end of the dict with the description stored in the loader's form; otherwise nothing changes. |
| Categories.DialogAddAsWrittenLost | Item_resurrected.py:567-579 | A category added through the dialog as written is present, yet absent after saving and reloading, whatever its name and description. |
| Categories.DialogAddSurvives | Item_resurrected.py:567-579 | With the description stored the way the loader stores it, a storable dialog category survives a restart with its description. |
| Categories.CategoryRegistry.AddCategory | Item_resurrected.py:228-233 | `add_category` inserts or overwrites the name. Every other category keeps its value. |
| Categories.CategoryRegistry.DeleteCategory | Item_resurrected.py:236-245 | `delete_category` removes the name exactly when present and reports which happened. Every other category keeps its value. |
| Categories.CategoryRegistry.ModifyCategory | Item_resurrected.py:247-256 | `modify_category` stores `{"描述": d}` exactly when the name is present, and otherwise changes nothing. Every other category keeps its value. |
| Categories.CategoryRegistry.constructor | Item_resurrected.py:202 | `ItemCategory.categories` starts empty. |
| Categories.CategoryRegistry.AddFromDialog | Item_resurrected.py:567-579 | The dialog as written: its outcome is `DialogCheck`, and the registry becomes `DialogAddAsWritten` of the old one, with the bare description string stored. |
| Categories.CategoryRegistry.LoadCategories | Item_resurrected.py:204-213 | `load_categories` leaves the registry as `LoadLines` over the file's lines. |
| Categories.CategoryRegistry.SaveCategories | Item_resurrected.py:217-225 | `save_categories` writes `CategoriesText`: one line per described category, in dict order. |
| Text.ContainsIff | Item_resurrected.py:184 | Python's substring `in` holds exactly when the substring occurs at some position. |
| Text.Lower | Item_resurrected.py:184 | `lower()` maps each character on its own and keeps the length. |
| Text.LowerIdempotent | Item_resurrected.py:184 | Lower-casing twice is lower-casing once. |
| Text.Strip | Item_resurrected.py:209-210 | `strip()` returns a slice with whitespace at neither end, and everything it cut is whitespace. |
| Text.StripClean | Item_resurrected.py:210 | A string without whitespace at its ends is left as it is. |
| Text.SplitAtFirst | Item_resurrected.py:211-212 | `split(",", 1)` yields two parts exactly when there is a comma: the part before it, which holds no comma, and the rest. |
| Text.SplitAtFirstJoin | Item_resurrected.py:211-212 | Splitting `head,tail` at the first comma gives back head and tail when head holds no comma. |
| Text.Lines | Item_resurrected.py:208 | The lines of a file hold no line break. |
| Text.LinesOfLine | Item_resurrected.py:208-223 | A line written with its "\n" is read back as that line, followed by the lines of the rest. |
| Text.Decimal | Item_resurrected.py:396 | The printed id is a non-empty string of digits, without a leading zero. |
| Text.DecimalRoundTrip | Item_resurrected.py:409-414 | `int` of the printed id is the id. |
| OrderedDict.Get | Item_resurrected.py:152 | `dict.get` finds a value exactly when the key is present, and the pair is in the dict. |
| OrderedDict.Put | Item_resurrected.py:230 | `d[k] = v` keeps the key order and appends a new key at the end. |
| OrderedDict.PutGet | Item_resurrected.py:230 | After `d[k] = v`, looking up k gives v and every other key keeps its value. |
| OrderedDict.Remove | Item_resurrected.py:239 | `del d[k]` drops k and changes nothing when k is absent. |
| OrderedDict.RemoveGet | Item_resurrected.py:239 | After `del d[k]`, k is absent and every other key keeps its value. |
| OrderedDict.RemoveAt | Item_resurrected.py:239 | `del d[k]` removes k's entry from its position and keeps the rest in order. |
| OrderedDict.PutNewAppends | Item_resurrected.py:98 | Filing a new key appends the pair at the end. |
| Sequences.IndexOf | Item_resurrected.py:190 | `list.remove` acts on the first occurrence. |
| Sequences.RemoveFirst | Item_resurrected.py:190 | `list.remove(x)` shortens the list by one and removes one x. A list without repeats keeps none and stays without repeats. |
| Sequences.RemoveFirstInOrder | Item_resurrected.py:190 | `list.remove(x)` removes the first x: the elements before it stay in place, those after it move up by one, and the result is a subsequence of the list. |
| Application.LoginDecision | Item_resurrected.py:404-432 | The id must be digits, and the user must exist. The session goes only to a user filed under the typed id whose password matches and who is an admin or verified. |
| Application.LoginGate | Item_resurrected.py:416-427 | For the user filed under the id, the outcome is a login exactly when the password matches and the user is admin or verified. It is "wrong password" exactly when the password does not match, and "not verified" exactly in the remaining case. |
| Application.LoginWithShownId | Item_resurrected.py:396-415 | Typing the id as the registration message shows it reaches that user. |
| Application.AddDefaultAdmin | Item_resurrected.py:274-277 | The default admin (id 1, password admin123) is filed after every loaded user. |
| Application.StartUsers | Item_resurrected.py:270-277 | Start-up users: the loaded ones, and the default admin appended when no user has id 1. Id 1 is always present afterwards. |
| Application.LoadStored | Item_resurrected.py:280-284 | `load_categories` and `load_items` fill fresh registries and leave the users alone. |
| Application.Session.constructor | Item_resurrected.py:264-287 | `Application.__init__`: the users of `StartUsers`, the reloaded categories, the items whose owner exists, and nobody logged in. |
| Application.Session.Login | Item_resurrected.py:404-432 | `login` follows `LoginDecision`. It binds `current_user` on a login and leaves it unchanged in every other outcome. |
| Application.Session.Logout | Item_resurrected.py:457-459 | After `logout` nobody is logged in. |
| Application.Session.RegisterUser | Item_resurrected.py:388-402 | With every field filled in, a new pending user is filed after all others. It gets the counter's value as id, an id no existing user has, and the default password. Otherwise nothing changes. |
| Application.Session.ApproveUser | Item_resurrected.py:525-534 | Only a logged-in admin approves, with `approve_user`'s effect and message. Anyone else changes nothing. |
| Application.Session.SubmitAddItem | Item_resurrected.py:637-648 | Placeholder categories and empty fields are refused. Otherwise the logged-in user's new item is appended. |
| Application.Session.SubmitModifyItem | Item_resurrected.py:684-699 | Empty new fields are refused. Otherwise the first matching item of the logged-in user gets the new name and description, every other item keeps its fields, and the list is unchanged. |
| Application.Session.SubmitDeleteItem | Item_resurrected.py:763-773 | The first matching item of the logged-in user is removed through `delete_item` when confirmed, and the message is always "deleted". Nothing changes when there is no match or the user declines. |

## Left out

- Windows, dialogs, message boxes and button states are not modelled. Where a
  handler's result is only a message box, the model returns an outcome value
  instead: a login outcome, a dialog outcome, or an Option.
- File I/O and JSON are not modelled: `open`, `os.path.exists`,
  `save_to_file`, `save_all_users` and `on_closing`. Loaders take the parsed
  records or the file text as parameters, and `save_items` is modelled as
  the records it would write (`SaveItems`, `ItemRecords`).
- The `save` flag of the category operations and the calls to
  `save_categories` that follow them are not modelled. Saving is modelled as
  the text it would write (`SaveCategories`, `CategoriesText`).
- The warning `print` of `save_categories` is left out, because it is output
  only.
- The duplicated `view_all_items` is left out, because it is display only.
- The admin delegations `add_item_type`, `delete_item_type` and
  `modify_item_type` are left out. They forward to the registry methods,
  which are modelled.
- The `view_pending_users` window gate is not modelled as a method. Its
  admin check is the one `Application.Session.ApproveUser` models.
- `isinstance(current_user, Admin)` is modelled as `role == "admin"`.
  `load_users` builds an `Admin` exactly for records with that role, and the
  only other `Admin` is the default one.
- Item and user identity is Dafny object identity, not CPython equality.
  `Item` defines no `__eq__`, so `in` and `remove` on `Item.items` compare
  identity.
- Text.Lower: lower-cases ASCII A-Z only, not Python's full Unicode case
  mapping.
- Text.IsDigits: accepts ASCII digits only. Python's `isdigit` and `int`
  also accept other Unicode digits.
- Text.Lines: splits at "\n" or "\r", as text-mode reading with universal
  newlines does. "\r\n" leaves an empty piece, which every loader skips as
  blank.
- Categories.SaveLoad: is stated for storable categories only. A name with
  a comma, a line break anywhere, or whitespace where `strip` cuts it does
  not survive the round trip.
- Items.ItemRegistry.LoadItems: builds the loaded items and appends them to
  `Item.items` in one step at the end. The source appends them one at a
  time. No code observes the list in between, so the resulting list is the
  same.
- Application.Session.RegisterUser: states that the new user is pending and
  filed last. The resulting pending list then follows from
  `Admins.PendingAppend`; the method does not restate it.
- Application.Session.SubmitAddItem, Application.Session.SubmitModifyItem
  and Application.Session.SubmitDeleteItem: require a logged-in user.
  Logging out disables the buttons but does not close an add, modify or
  delete window that is already open. Submitting such a window with no
  user makes the source fail with AttributeError (Item_resurrected.py:171,
  691, 765); the add case first appends an item without an owner. The model
  does not capture that failure.
- A comma in a category description survives a reload, because
  `load_categories` splits at the first comma only (Item_resurrected.py:211).
  Only a comma in the name breaks the round trip.

## Findings

| source | as written | input that shows it | evidently intended | confidence | as-written member | corrected member |
|---|---|---|---|---|---|---|
| Item_resurrected.py:567-579 | The add-category dialog stores the bare description string as the category's value. `save_categories` (lines 220-225) writes only values that are dicts holding `描述`, so the category is never written and is gone after a restart. | Add category "Tools" with description "hand tools" through the dialog, then save and restart: "Tools" is missing. | Store `{"描述": description}`, as `load_categories` and `modify_category` do. | not executed | Categories.DialogAddAsWrittenLost | Categories.DialogAddSurvives |
