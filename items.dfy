/** The item list `Item.items` of Item_resurrected.py: `Item.__init__`,
    `add_item`, `search_item`, `delete_item`, the owner lookup of
    `load_items`, the record `save_items` writes, and the "first item of mine
    with this name" lookup of `submit_modify_item` and `submit_delete_item`. */
module Items {
  import opened Wrappers
  import opened Sequences
  import Text
  import OrderedDict
  import Users

  /** An item as `save_items` writes it: the owner by id. */
  datatype ItemRecord = ItemRecord(name: string, description: string, category: string, ownerId: int)

  /** An item's fields at one moment, with the owner as a reference. */
  datatype ItemView = ItemView(name: string, description: string, category: string, owner: Users.User)

  class Item {
    var name: string
    var description: string
    const category: string
    const owner: Users.User

    /** `Item(name, description, category, owner)`. */
    constructor (name: string, description: string, category: string, owner: Users.User)
      ensures View() == ItemView(name, description, category, owner)
    {
      this.name := name;
      this.description := description;
      this.category := category;
      this.owner := owner;
    }

    function View(): (v: ItemView)
      reads this
      ensures v.name == name && v.description == description && v.category == category && v.owner == owner
    {
      ItemView(name, description, category, owner)
    }

    /** The dictionary `save_items` writes for this item. */
    function Record(): ItemRecord
      reads this
    {
      RecordOf(View())
    }
  }

  /** The fields of every item, in list order. */
  function Views(items: seq<Item>): (vs: seq<ItemView>)
    reads items
    ensures |vs| == |items|
  {
    if items == [] then [] else [items[0].View()] + Views(items[1..])
  }

  /** The fields at each position are those of the item there. */
  lemma {:induction false} ViewsIndex(items: seq<Item>)
    ensures forall j :: 0 <= j < |items| ==> Views(items)[j] == items[j].View()
  {
    if items != [] {
      ViewsIndex(items[1..]);
    }
  }

  /** Lists whose items have the given fields, one by one. */
  lemma {:induction false} ViewsOf(items: seq<Item>, vs: seq<ItemView>)
    requires |items| == |vs| && forall j :: 0 <= j < |items| ==> items[j].View() == vs[j]
    ensures Views(items) == vs
  {
    if items != [] {
      ViewsOf(items[1..], vs[1..]);
    }
  }

  // ---------------------------------------------------------------------------
  // search_item

  /** The test of `search_item`: the category is a substring of the item's
      category, and the lower-cased keyword a substring of the lower-cased
      name or description. */
  predicate Matches(itemCategory: string, name: string, description: string, category: string, keyword: string) {
    Text.Contains(itemCategory, category) &&
    (Text.Contains(Text.Lower(name), Text.Lower(keyword)) || Text.Contains(Text.Lower(description), Text.Lower(keyword)))
  }

  predicate ItemMatches(x: Item, category: string, keyword: string)
    reads x
  {
    Matches(x.category, x.name, x.description, category, keyword)
  }

  /** `search_item(category, keyword)`: the matching items, in list order. */
  function Search(items: seq<Item>, category: string, keyword: string): (r: seq<Item>)
    reads items
    ensures IsSubsequence(r, items)
    ensures forall x :: x in r ==> x in items
    ensures forall x :: x in items ==> (x in r <==> ItemMatches(x, category, keyword))
  {
    if items == [] then []
    else
      var rest := Search(items[1..], category, keyword);
      if ItemMatches(items[0], category, keyword) then
        assert ([items[0]] + rest)[1..] == rest;
        [items[0]] + rest
      else
        rest
  }

  /** The keyword's case does not matter. */
  lemma {:induction false} SearchIgnoresKeywordCase(items: seq<Item>, category: string, keyword: string)
    ensures Search(items, category, Text.Lower(keyword)) == Search(items, category, keyword)
  {
    Text.LowerIdempotent(keyword);
    if items != [] {
      SearchIgnoresKeywordCase(items[1..], category, keyword);
    }
  }

  /** An empty category and keyword match every item. */
  lemma {:induction false} SearchEverything(items: seq<Item>)
    ensures Search(items, "", "") == items
  {
    if items != [] {
      assert Text.Lower("") == "";
      Text.ContainsItself("");
      assert "" <= items[0].category;
      assert "" <= Text.Lower(items[0].name);
      SearchEverything(items[1..]);
    }
  }

  // ---------------------------------------------------------------------------
  // The lookup of `submit_modify_item` / `submit_delete_item`

  predicate IsOwned(x: Item, name: string, ownerId: int)
    reads x
  {
    x.name == name && x.owner.userId == ownerId
  }

  /** Position of the first item with this name whose owner has this id, if any. */
  function FirstOwned(items: seq<Item>, name: string, ownerId: int): (r: Option<nat>)
    reads items
    ensures r.Some? ==> r.value < |items| && IsOwned(items[r.value], name, ownerId)
    ensures r.Some? ==> forall j :: 0 <= j < r.value ==> !IsOwned(items[j], name, ownerId)
    ensures r.None? ==> forall j :: 0 <= j < |items| ==> !IsOwned(items[j], name, ownerId)
  {
    if items == [] then None
    else if IsOwned(items[0], name, ownerId) then Some(0)
    else
      match FirstOwned(items[1..], name, ownerId)
      case None => None
      case Some(i) => Some(i + 1)
  }

  // ---------------------------------------------------------------------------
  // load_items / save_items

  /** The records `load_items` keeps: those whose owner id is a key of the
      users dict, in file order. */
  function Kept(records: seq<ItemRecord>, users: Users.Users): (r: seq<ItemRecord>)
    ensures IsSubsequence(r, records)
    ensures forall rec :: rec in r ==> rec in records
    ensures forall rec :: rec in records ==> (rec in r <==> rec.ownerId in OrderedDict.Keys(users))
  {
    if records == [] then []
    else
      var rest := Kept(records[1..], users);
      if records[0].ownerId in OrderedDict.Keys(users) then
        assert ([records[0]] + rest)[1..] == rest;
        [records[0]] + rest
      else
        rest
  }

  /** `load_items` keeps every copy of a record whose owner exists, and no
      copy of the others. */
  lemma {:induction false} KeptCounts(records: seq<ItemRecord>, users: Users.Users, rec: ItemRecord)
    ensures multiset(Kept(records, users))[rec] ==
            if rec.ownerId in OrderedDict.Keys(users) then multiset(records)[rec] else 0
  {
    if records != [] {
      KeptCounts(records[1..], users, rec);
      assert records == [records[0]] + records[1..];
    }
  }

  /** The item a record becomes, if its owner id is a key of the users dict. */
  function ResolvedOne(rec: ItemRecord, users: Users.Users): (vs: seq<ItemView>)
    ensures |vs| <= 1
  {
    match OrderedDict.Get(users, rec.ownerId)
    case None => []
    case Some(u) => [ItemView(rec.name, rec.description, rec.category, u)]
  }

  /** The items `load_items` builds: kept records become items owned by the
      user filed under their owner id. */
  function Resolved(records: seq<ItemRecord>, users: Users.Users): (vs: seq<ItemView>)
  {
    if records == [] then []
    else Resolved(records[..|records| - 1], users) + ResolvedOne(records[|records| - 1], users)
  }

  /** The record `save_items` writes for a view. */
  function RecordOf(v: ItemView): ItemRecord {
    ItemRecord(v.name, v.description, v.category, v.owner.userId)
  }

  function RecordsOf(vs: seq<ItemView>): (rs: seq<ItemRecord>)
    ensures |rs| == |vs|
  {
    if vs == [] then [] else [RecordOf(vs[0])] + RecordsOf(vs[1..])
  }

  /** The records `save_items` writes for a list of items, in list order. */
  function ItemRecords(items: seq<Item>): (rs: seq<ItemRecord>)
    reads items
    ensures |rs| == |items|
  {
    if items == [] then [] else [items[0].Record()] + ItemRecords(items[1..])
  }

  /** The records of the items are the records of their fields. */
  lemma {:induction false} ItemRecordsViews(items: seq<Item>)
    ensures ItemRecords(items) == RecordsOf(Views(items))
  {
    if items != [] {
      ItemRecordsViews(items[1..]);
    }
  }

  /** The records of two lists of items, one after the other. */
  lemma {:induction false} RecordsOfAppend(a: seq<ItemView>, b: seq<ItemView>)
    ensures RecordsOf(a + b) == RecordsOf(a) + RecordsOf(b)
  {
    if a == [] {
      assert a + b == b;
    } else {
      assert (a + b)[1..] == a[1..] + b;
      RecordsOfAppend(a[1..], b);
    }
  }

  /** Keeping one more record appends it when its owner is known. */
  lemma {:induction false} KeptSnoc(records: seq<ItemRecord>, rec: ItemRecord, users: Users.Users)
    ensures Kept(records + [rec], users)
         == Kept(records, users) + (if rec.ownerId in OrderedDict.Keys(users) then [rec] else [])
  {
    if records == [] {
      assert [rec][1..] == [];
    } else {
      assert (records + [rec])[1..] == records[1..] + [rec];
      KeptSnoc(records[1..], rec, users);
    }
  }

  /** A record whose owner is known comes back unchanged; the others are dropped. */
  lemma ResolvedOneRecord(rec: ItemRecord, users: Users.Users)
    requires Users.UsersValid(users)
    ensures RecordsOf(ResolvedOne(rec, users)) == if rec.ownerId in OrderedDict.Keys(users) then [rec] else []
  {
    match OrderedDict.Get(users, rec.ownerId)
    case None =>
    case Some(u) =>
      var i := OrderedDict.KeyIndex(users, rec.ownerId);
      OrderedDict.GetValid(users, i);
      assert RecordsOf([ItemView(rec.name, rec.description, rec.category, u)]) == [RecordOf(ItemView(rec.name, rec.description, rec.category, u))];
  }

  /** Writing the loaded items back gives exactly the kept records: when every
      user is filed under its own id, `load_items` loses only the items whose
      owner is unknown and changes nothing in the others. */
  lemma {:induction false} ResolvedRecords(records: seq<ItemRecord>, users: Users.Users)
    requires Users.UsersValid(users)
    ensures RecordsOf(Resolved(records, users)) == Kept(records, users)
  {
    if records != [] {
      var init, rec := records[..|records| - 1], records[|records| - 1];
      assert records == init + [rec];
      calc {
        RecordsOf(Resolved(records, users));
        == { RecordsOfAppend(Resolved(init, users), ResolvedOne(rec, users)); }
        RecordsOf(Resolved(init, users)) + RecordsOf(ResolvedOne(rec, users));
        == { ResolvedRecords(init, users); ResolvedOneRecord(rec, users); }
        Kept(init, users) + (if rec.ownerId in OrderedDict.Keys(users) then [rec] else []);
        == { KeptSnoc(init, rec, users); }
        Kept(records, users);
      }
    }
  }

  // ---------------------------------------------------------------------------
  // The registry

  /** The deletion message of `delete_item`. */
  function DeletedMessage(name: string): string {
    "物品 '" + name + "' 已删除。"
  }

  /** The message of `delete_item` for an item not in the list. */
  function MissingMessage(name: string): string {
    "物品 '" + name + "' 不存在。"
  }

  /** `Item.items`: the class-level list of items. */
  class ItemRegistry {
    var items: seq<Item>

    /** The list never holds the same item twice: each is appended once,
        right after it is built. */
    ghost predicate Valid()
      reads this
    {
      Distinct(items)
    }

    constructor ()
      ensures Valid() && items == []
    {
      items := [];
    }

    /** `add_item(name, description, category, owner)`: a new item at the end. */
    method AddItem(name: string, description: string, category: string, owner: Users.User) returns (item: Item)
      requires Valid()
      modifies this
      ensures Valid()
      ensures fresh(item) && items == old(items) + [item]
      ensures item.View() == ItemView(name, description, category, owner)
    {
      item := new Item(name, description, category, owner);
      items := items + [item];
    }

    /** `delete_item(item)`: removes the item when it is in the list, and says which happened. */
    method DeleteItem(item: Item) returns (msg: string)
      requires Valid()
      modifies this
      ensures Valid()
      ensures item in old(items) ==> items == RemoveFirst(old(items), item) && item !in items
      ensures item in old(items) ==> |items| == |old(items)| - 1 && msg == DeletedMessage(item.name)
      ensures item !in old(items) ==> items == old(items) && msg == MissingMessage(item.name)
    {
      if item in items {
        items := RemoveFirst(items, item);
        msg := DeletedMessage(item.name);
      } else {
        msg := MissingMessage(item.name);
      }
    }

    /** `save_items`: the records written to items.txt, one per item, in list order. */
    method SaveItems() returns (written: seq<ItemRecord>)
      ensures written == ItemRecords(items)
    {
      written := [];
      var i := 0;
      while i < |items|
        invariant 0 <= i <= |items|
        invariant written + ItemRecords(items[i..]) == ItemRecords(items)
      {
        assert items[i..][1..] == items[i + 1..];
        written := written + [items[i].Record()];
        i := i + 1;
      }
    }

    /** `load_items(users)` over the parsed lines of items.txt: each record
        whose owner id is in the users dict becomes a new item at the end of
        the list, owned by that user; the others are skipped. */
    method LoadItems(records: seq<ItemRecord>, users: Users.Users) returns (loaded: seq<Item>)
      requires Valid()
      modifies this
      ensures Valid()
      ensures items == old(items) + loaded
      ensures Views(loaded) == Resolved(records, users)
      ensures Users.UsersValid(users) ==> ItemRecords(loaded) == Kept(records, users)
      ensures forall x :: x in loaded ==> fresh(x)
    {
      loaded := LoadAll(records, users);
      assert Distinct(items + loaded) by {
        assert forall x :: x in items ==> x !in loaded;
        DistinctConcat(items, loaded);
      }
      items := items + loaded;
      LoadedRecords(loaded, records, users);
    }
  }

  /** The items `load_items` builds write back exactly the records it kept. */
  lemma LoadedRecords(loaded: seq<Item>, records: seq<ItemRecord>, users: Users.Users)
    requires Views(loaded) == Resolved(records, users)
    ensures Users.UsersValid(users) ==> ItemRecords(loaded) == Kept(records, users)
  {
    ItemRecordsViews(loaded);
    if Users.UsersValid(users) {
      ResolvedRecords(records, users);
    }
  }

  /** The loop of `load_items`: the new items, in record order. */
  method LoadAll(records: seq<ItemRecord>, users: Users.Users) returns (loaded: seq<Item>)
    ensures Views(loaded) == Resolved(records, users)
    ensures Distinct(loaded) && forall x :: x in loaded ==> fresh(x)
  {
    loaded := [];
    ghost var made: seq<ItemView> := [];
    var i := 0;
    while i < |records|
      invariant 0 <= i <= |records|
      invariant made == Resolved(records[..i], users) && |made| == |loaded|
      invariant forall j :: 0 <= j < |loaded| ==> loaded[j].View() == made[j]
      invariant forall x :: x in loaded ==> fresh(x)
      invariant Distinct(loaded)
    {
      var built := LoadOne(records[i], users);
      assert Distinct(loaded + built) by {
        DistinctConcat(loaded, built);
      }
      loaded := loaded + built;
      assert records[..i + 1][..i] == records[..i];
      made := made + ResolvedOne(records[i], users);
      i := i + 1;
    }
    assert records[..i] == records;
    ViewsOf(loaded, made);
  }

  /** One pass of the loop in `load_items`: the item a record becomes when
      its owner id is in the users dict, and nothing otherwise. */
  method LoadOne(rec: ItemRecord, users: Users.Users) returns (built: seq<Item>)
    ensures |built| == |ResolvedOne(rec, users)|
    ensures forall j :: 0 <= j < |built| ==> built[j].View() == ResolvedOne(rec, users)[j]
    ensures Distinct(built) && forall x :: x in built ==> fresh(x)
  {
    var owner := OrderedDict.Get(users, rec.ownerId);
    if owner.Some? {
      var item := new Item(rec.name, rec.description, rec.category, owner.value);
      built := [item];
    } else {
      built := [];
    }
  }
}
