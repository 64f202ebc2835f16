/** The category registry `ItemCategory.categories` of Item_resurrected.py:
    `add_category`, `delete_category`, `modify_category`, and the
    categories.txt codec of `load_categories` and `save_categories`. */
module Categories {
  import opened Wrappers
  import opened OrderedDict
  import Sequences
  import Text

  /** The value stored under a category name. `load_categories` and
      `modify_category` store the dict `{"描述": description}`; the admin's
      "add category" dialog passes the description string itself. */
  datatype CategoryInfo = Plain(text: string) | Described(description: string)

  type Categories = Dict<string, CategoryInfo>

  // ---------------------------------------------------------------------------
  // save_categories: one "name,description" line per described category

  /** The line `save_categories` writes for one category. */
  function FormatLine(name: string, description: string): string {
    name + "," + description + "\n"
  }

  /** The whole of categories.txt as `save_categories` writes it: a line for
      each category holding a description, in dict order; a category with a
      bare string value is skipped. */
  function CategoriesText(e: Categories): string {
    if e == [] then ""
    else
      (match e[0].1
       case Described(d) => FormatLine(e[0].0, d)
       case Plain(_) => "")
      + CategoriesText(e[1..])
  }

  /** The categories `save_categories` writes, in order. */
  function DescribedOnly(e: Categories): (r: Categories)
    ensures forall k :: k in Keys(r) ==> k in Keys(e)
    ensures Valid(e) ==> Valid(r)
    ensures forall i :: 0 <= i < |r| ==> r[i].1.Described?
  {
    if e == [] then []
    else if e[0].1.Described? then [e[0]] + DescribedOnly(e[1..])
    else DescribedOnly(e[1..])
  }

  /** The writer keeps the described categories in dict order. */
  lemma {:induction false} DescribedOnlyInOrder(e: Categories)
    ensures Sequences.IsSubsequence(DescribedOnly(e), e)
  {
    if e != [] {
      DescribedOnlyInOrder(e[1..]);
      if e[0].1.Described? {
        assert DescribedOnly(e)[1..] == DescribedOnly(e[1..]);
      }
    }
  }

  /** What the writer drops: after saving, a name maps to what it mapped to
      when that was a description, and to nothing otherwise. */
  lemma {:induction false} GetDescribedOnly(e: Categories, k: string)
    requires Valid(e)
    ensures Get(DescribedOnly(e), k) == if Get(e, k).Some? && Get(e, k).value.Described? then Get(e, k) else None
  {
    if e != [] {
      GetDescribedOnly(e[1..], k);
      if e[0].0 == k && !e[0].1.Described? {
        assert k !in Keys(DescribedOnly(e[1..]));
      }
    }
  }

  // ---------------------------------------------------------------------------
  // load_categories: strip, skip blank lines, split at the first comma

  /** The categories after `load_categories` has read one line. */
  function LoadLine(acc: Categories, line: string): Categories {
    var s := Text.Strip(line);
    if s == [] then acc
    else
      match Text.SplitAtFirst(s, ',')
      case None => acc
      case Some((name, description)) => Put(acc, name, Described(description))
  }

  /** The categories after `load_categories` has read the given lines. */
  function LoadLines(acc: Categories, lines: seq<string>): Categories
    decreases |lines|
  {
    if lines == [] then acc else LoadLines(LoadLine(acc, lines[0]), lines[1..])
  }

  /** The categories at start-up: `load_categories` into the empty dict. */
  function Reload(text: string): Categories {
    LoadLines([], Text.Lines(text))
  }

  /** A category `save_categories` can write so that `load_categories` reads
      it back: no line break anywhere, no comma in the name, no whitespace
      where `strip` would cut it. */
  predicate Storable(name: string, description: string) {
    (forall c :: c in name ==> !Text.IsLineBreak(c)) &&
    (forall c :: c in description ==> !Text.IsLineBreak(c)) &&
    ',' !in name &&
    (name == [] || !Text.IsSpace(name[0])) &&
    (description == [] || !Text.IsSpace(description[|description| - 1]))
  }

  /** Every described category is storable. */
  predicate AllStorable(e: Categories) {
    e == [] || ((e[0].1.Described? ==> Storable(e[0].0, e[0].1.description)) && AllStorable(e[1..]))
  }

  /** A storable line is read back as the category it was written from. */
  lemma LoadFormatted(acc: Categories, name: string, description: string)
    requires Storable(name, description)
    ensures LoadLine(acc, name + "," + description) == Put(acc, name, Described(description))
  {
    var s := name + "," + description;
    assert s[|name|] == ',';
    if name != [] {
      assert s[0] == name[0];
    }
    if description != [] {
      assert s[|s| - 1] == description[|description| - 1];
    }
    Text.StripClean(s);
    Text.SplitAtFirstJoin(name, ',', description);
  }

  /** Reading back what `save_categories` wrote, on top of `acc`, appends the
      described categories in order, as long as every one of them is
      storable and no name repeats. */
  lemma {:induction false} SaveLoad(acc: Categories, e: Categories)
    requires AllStorable(e)
    requires Valid(acc + DescribedOnly(e))
    ensures LoadLines(acc, Text.Lines(CategoriesText(e))) == acc + DescribedOnly(e)
    decreases |e|
  {
    if e == [] {
      assert Text.Lines(CategoriesText(e)) == [];
      assert acc + DescribedOnly(e) == acc;
    } else if e[0].1.Plain? {
      assert CategoriesText(e) == CategoriesText(e[1..]);
      assert DescribedOnly(e) == DescribedOnly(e[1..]);
      SaveLoad(acc, e[1..]);
    } else {
      var name, d := e[0].0, e[0].1.description;
      var rest := DescribedOnly(e[1..]);
      var line := name + "," + d;
      var later := Text.Lines(CategoriesText(e[1..]));
      assert DescribedOnly(e) == [e[0]] + rest;
      assert Valid(acc + [e[0]] + rest) && name !in Keys(acc) by {
        assert acc + DescribedOnly(e) == (acc + [e[0]]) + rest == acc + ([e[0]] + rest);
        ValidAppend(acc, [e[0]] + rest);
        KeysAppend([e[0]], rest);
      }
      calc {
        LoadLines(acc, Text.Lines(CategoriesText(e)));
        == { assert CategoriesText(e) == line + "\n" + CategoriesText(e[1..]);
             assert forall c :: c in line ==> !Text.IsLineBreak(c) by {
               forall c | c in line
                 ensures !Text.IsLineBreak(c)
               {
                 assert c in name || c == ',' || c in d;
               }
             }
             Text.LinesOfLine(line, CategoriesText(e[1..])); }
        LoadLines(acc, [line] + later);
        == { assert ([line] + later)[1..] == later; }
        LoadLines(LoadLine(acc, line), later);
        == { LoadFormatted(acc, name, d); PutNewAppends(acc, name, Described(d)); }
        LoadLines(acc + [e[0]], later);
        == { SaveLoad(acc + [e[0]], e[1..]); }
        acc + [e[0]] + rest;
        == { assert acc + [e[0]] + rest == acc + ([e[0]] + rest); }
        acc + DescribedOnly(e);
      }
    }
  }

  /** At start-up the registry holds exactly the described categories that
      were saved. */
  lemma Restart(e: Categories)
    requires Valid(e) && AllStorable(e)
    ensures Reload(CategoriesText(e)) == DescribedOnly(e)
  {
    assert [] + DescribedOnly(e) == DescribedOnly(e);
    SaveLoad([], e);
  }

  /** Assigning a storable described category keeps every category storable. */
  lemma {:induction false} PutStorable(e: Categories, name: string, info: CategoryInfo)
    requires AllStorable(e)
    requires info.Described? ==> Storable(name, info.description)
    ensures AllStorable(Put(e, name, info))
  {
    if e != [] && e[0].0 != name {
      PutStorable(e[1..], name, info);
    }
  }

  // ---------------------------------------------------------------------------
  // The admin's "add category" dialog

  /** How the "add category" dialog ends. An empty answer stands for both an
      empty string and a cancelled prompt. */
  datatype DialogOutcome = NoName | NameTaken | NoDescription | Added

  function DialogCheck(e: Categories, name: string, description: string): (o: DialogOutcome)
    ensures o == Added <==> name != [] && name !in Keys(e) && description != []
  {
    if name == [] then NoName
    else if name in Keys(e) then NameTaken
    else if description == [] then NoDescription
    else Added
  }

  /** The dialog as written: the bare description string becomes the value. */
  function DialogAddAsWritten(e: Categories, name: string, description: string): (r: Categories)
    ensures DialogCheck(e, name, description) == Added ==> r == e + [(name, Plain(description))]
    ensures DialogCheck(e, name, description) != Added ==> r == e
  {
    if DialogCheck(e, name, description) == Added then
      PutNewAppends(e, name, Plain(description));
      Put(e, name, Plain(description))
    else e
  }

  /** A category added through the dialog as written is gone after a restart,
      however it is spelled. */
  lemma DialogAddAsWrittenLost(e: Categories, name: string, description: string)
    requires Valid(e) && AllStorable(e)
    requires DialogCheck(e, name, description) == Added
    ensures name in Keys(DialogAddAsWritten(e, name, description))
    ensures name !in Keys(Reload(CategoriesText(DialogAddAsWritten(e, name, description))))
  {
    var e' := Put(e, name, Plain(description));
    PutStorable(e, name, Plain(description));
    Restart(e');
    PutGet(e, name, Plain(description), name);
    GetDescribedOnly(e', name);
  }

  /** The dialog as intended: the description is stored the way
      `load_categories` and `modify_category` store it. */
  function DialogAdd(e: Categories, name: string, description: string): (r: Categories)
    ensures DialogCheck(e, name, description) == Added ==> r == e + [(name, Described(description))]
    ensures DialogCheck(e, name, description) != Added ==> r == e
  {
    if DialogCheck(e, name, description) == Added then
      PutNewAppends(e, name, Described(description));
      Put(e, name, Described(description))
    else e
  }

  /** A storable category added through the intended dialog survives a
      restart with its description. */
  lemma DialogAddSurvives(e: Categories, name: string, description: string)
    requires Valid(e) && AllStorable(e) && Storable(name, description)
    requires DialogCheck(e, name, description) == Added
    ensures Get(Reload(CategoriesText(DialogAdd(e, name, description))), name) == Some(Described(description))
  {
    var e' := Put(e, name, Described(description));
    PutStorable(e, name, Described(description));
    Restart(e');
    PutGet(e, name, Described(description), name);
    GetDescribedOnly(e', name);
  }

  // ---------------------------------------------------------------------------
  // The registry

  /** `ItemCategory.categories`. */
  class CategoryRegistry {
    var entries: Categories

    ghost predicate Valid()
      reads this
    {
      OrderedDict.Valid(entries)
    }

    constructor ()
      ensures Valid() && entries == []
    {
      entries := [];
    }

    /** `add_category(name, info)`: inserts or overwrites `name`; every other
        category keeps its value. */
    method AddCategory(name: string, info: CategoryInfo)
      requires Valid()
      modifies this
      ensures Valid()
      ensures entries == Put(old(entries), name, info)
      ensures Get(entries, name) == Some(info)
      ensures forall k :: k != name ==> Get(entries, k) == Get(old(entries), k)
    {
      entries := Put(entries, name, info);
      forall k {
        PutGet(old(entries), name, info, k);
      }
    }

    /** `delete_category(name)`: removes `name` when present and reports
        whether it was; every other category keeps its value. */
    method DeleteCategory(name: string) returns (found: bool)
      requires Valid()
      modifies this
      ensures Valid()
      ensures found <==> name in Keys(old(entries))
      ensures entries == Remove(old(entries), name)
      ensures Get(entries, name) == None
      ensures forall k :: k != name ==> Get(entries, k) == Get(old(entries), k)
    {
      found := name in Keys(entries);
      entries := Remove(entries, name);
      forall k {
        RemoveGet(old(entries), name, k);
      }
    }

    /** `modify_category(name, description)`: when `name` is present, stores
        the description in the loader's form and reports success; otherwise
        changes nothing. Every other category keeps its value. */
    method ModifyCategory(name: string, description: string) returns (found: bool)
      requires Valid()
      modifies this
      ensures Valid()
      ensures found <==> name in Keys(old(entries))
      ensures found ==> entries == Put(old(entries), name, Described(description))
      ensures !found ==> entries == old(entries)
      ensures found ==> Get(entries, name) == Some(Described(description))
      ensures forall k :: k != name ==> Get(entries, k) == Get(old(entries), k)
    {
      found := name in Keys(entries);
      if found {
        entries := Put(entries, name, Described(description));
        forall k {
          PutGet(old(entries), name, Described(description), k);
        }
      }
    }

    /** The "add category" dialog as written: after the checks, the bare
        description string becomes the category's value (see
        `DialogAddAsWrittenLost` for what that costs at the next restart). */
    method AddFromDialog(name: string, description: string) returns (outcome: DialogOutcome)
      requires Valid()
      modifies this
      ensures Valid()
      ensures outcome == DialogCheck(old(entries), name, description)
      ensures entries == DialogAddAsWritten(old(entries), name, description)
    {
      outcome := DialogCheck(entries, name, description);
      if outcome == Added {
        AddCategory(name, Plain(description));
      }
    }

    /** `load_categories` over the text of categories.txt. */
    method LoadCategories(text: string)
      requires Valid()
      modifies this
      ensures Valid()
      ensures entries == LoadLines(old(entries), Text.Lines(text))
    {
      var lines := Text.Lines(text);
      var i := 0;
      while i < |lines|
        invariant 0 <= i <= |lines|
        invariant Valid()
        invariant LoadLines(entries, lines[i..]) == LoadLines(old(entries), lines)
      {
        var s := Text.Strip(lines[i]);
        if s != [] {
          var parts := Text.SplitAtFirst(s, ',');
          if parts.Some? {
            var (name, description) := parts.value;
            entries := Put(entries, name, Described(description));
          }
        }
        assert lines[i..][1..] == lines[i + 1..];
        i := i + 1;
      }
    }

    /** `save_categories`: the text written to categories.txt. */
    method SaveCategories() returns (text: string)
      ensures text == CategoriesText(entries)
    {
      text := "";
      var i := 0;
      while i < |entries|
        invariant 0 <= i <= |entries|
        invariant text + CategoriesText(entries[i..]) == CategoriesText(entries)
      {
        var (name, info) := entries[i];
        assert entries[i..][1..] == entries[i + 1..];
        if info.Described? {
          text := text + FormatLine(name, info.description);
        }
        i := i + 1;
      }
    }
  }
}
