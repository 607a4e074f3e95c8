/**
 * A document library as the column and metadata operations see it: an
 * ordered list of fields (columns), each with a display title and an
 * internal name, and the items (rows) of the library, each a dictionary from
 * internal field names to values. The remote store is replaced by these two
 * in-memory collections; a round trip that fails on the server and whose
 * exception the source swallows leaves them as they were at that point.
 */
module DocumentLibraries {
  import opened Wrappers

  /** What a column holds: free text, or a reference to an item of another list shown through its title. */
  datatype FieldKind = TextField | LookupField(listId: string, showField: string)

  /** A column of a library; the title is what users see, the internal name is the storage key. */
  datatype Field = Field(title: string, internalName: string, kind: FieldKind)

  /** A value stored on an item: a string for a text column, an item id of the source list for a lookup column. */
  datatype Value = Text(text: string) | LookupId(id: int)

  type Item = map<string, Value>

  /** Some field of `fields` has display title `title`. */
  predicate HasTitle(fields: seq<Field>, title: string)
  {
    exists i :: 0 <= i < |fields| && fields[i].title == title
  }

  /** How many fields of `fields` have display title `title`. */
  function CountTitle(fields: seq<Field>, title: string): nat
  {
    if fields == [] then 0
    else CountTitle(fields[..|fields| - 1], title) + (if fields[|fields| - 1].title == title then 1 else 0)
  }

  lemma {:induction false} CountTitleZero(fields: seq<Field>, title: string)
    ensures CountTitle(fields, title) == 0 <==> !HasTitle(fields, title)
  {
    if fields != [] {
      var init := fields[..|fields| - 1];
      CountTitleZero(init, title);
      if HasTitle(init, title) {
        var i :| 0 <= i < |init| && init[i].title == title;
        assert fields[i].title == title;
      }
      if HasTitle(fields, title) && fields[|fields| - 1].title != title {
        var i :| 0 <= i < |fields| && fields[i].title == title;
        assert init[i].title == title;
      }
    }
  }

  /**
   * The field list after "create the column unless one with that title
   * exists": unchanged if the title is present, otherwise `column` appended.
   */
  function WithColumn(fields: seq<Field>, column: Field): seq<Field>
  {
    if HasTitle(fields, column.title) then fields else fields + [column]
  }

  /** Afterwards a field with the requested title exists, and the earlier fields are untouched. */
  lemma EnsureColumnEstablishes(fields: seq<Field>, column: Field)
    ensures HasTitle(WithColumn(fields, column), column.title)
    ensures WithColumn(fields, column)[..|fields|] == fields
    ensures |WithColumn(fields, column)| <= |fields| + 1
  {
    if !HasTitle(fields, column.title) {
      var r := WithColumn(fields, column);
      assert r[|fields|].title == column.title;
    }
  }

  /**
   * Ensuring a column a second time with the same title changes nothing,
   * whatever the internal name or kind the second request carries.
   */
  lemma EnsureColumnIdempotent(fields: seq<Field>, column: Field, again: Field)
    requires again.title == column.title
    ensures WithColumn(WithColumn(fields, column), again) == WithColumn(fields, column)
  {
    EnsureColumnEstablishes(fields, column);
  }

  /** Ensuring a column never adds a second field with that title. */
  lemma {:induction false} EnsureColumnCount(fields: seq<Field>, column: Field)
    ensures CountTitle(WithColumn(fields, column), column.title)
         == if CountTitle(fields, column.title) == 0 then 1 else CountTitle(fields, column.title)
  {
    CountTitleZero(fields, column.title);
    if !HasTitle(fields, column.title) {
      assert (fields + [column])[..|fields|] == fields;
    }
  }

  /** The field list after a series of ensure-column requests. */
  function WithColumns(fields: seq<Field>, columns: seq<Field>): seq<Field>
    decreases columns
  {
    if columns == [] then fields
    else WithColumns(WithColumn(fields, columns[0]), columns[1..])
  }

  /**
   * Any number (at least one) of ensure-column requests with the same title,
   * starting from a library with at most one such field, leave exactly one.
   */
  lemma {:induction false} EnsureColumnRepeated(fields: seq<Field>, title: string, columns: seq<Field>)
    requires |columns| >= 1
    requires forall i :: 0 <= i < |columns| ==> columns[i].title == title
    requires CountTitle(fields, title) <= 1
    ensures CountTitle(WithColumns(fields, columns), title) == 1
    decreases columns
  {
    EnsureColumnCount(fields, columns[0]);
    if |columns| > 1 {
      EnsureColumnRepeated(WithColumn(fields, columns[0]), title, columns[1..]);
    }
  }

  /** The internal names of every field whose title is `title`. */
  function MatchingNames(fields: seq<Field>, title: string): set<string>
  {
    set i | 0 <= i < |fields| && fields[i].title == title :: fields[i].internalName
  }

  /**
   * The item after the apply loop: for each field in order whose title is
   * `title` (every one, there is no early exit), `value` is written under
   * that field's internal name.
   */
  function ApplyAll(item: Item, fields: seq<Field>, title: string, value: Value): Item
  {
    if fields == [] then item
    else
      var before := ApplyAll(item, fields[..|fields| - 1], title, value);
      var f := fields[|fields| - 1];
      if f.title == title then before[f.internalName := value] else before
  }

  /** The apply loop overwrites exactly the matching internal names with `value`, and keeps every other key. */
  lemma {:induction false} ApplyAllOverwrites(item: Item, fields: seq<Field>, title: string, value: Value)
    ensures ApplyAll(item, fields, title, value)
         == item + map k | k in MatchingNames(fields, title) :: value
  {
    if fields != [] {
      var init := fields[..|fields| - 1];
      var f := fields[|fields| - 1];
      ApplyAllOverwrites(item, init, title, value);
      if f.title == title {
        assert MatchingNames(fields, title) == MatchingNames(init, title) + {f.internalName} by {
          forall k | k in MatchingNames(fields, title) ensures k in MatchingNames(init, title) + {f.internalName} {
            var i :| 0 <= i < |fields| && fields[i].title == title && fields[i].internalName == k;
            if i < |init| { assert init[i] == fields[i]; }
          }
          forall k | k in MatchingNames(init, title) ensures k in MatchingNames(fields, title) {
            var i :| 0 <= i < |init| && init[i].title == title && init[i].internalName == k;
            assert fields[i] == init[i];
          }
        }
      } else {
        assert MatchingNames(fields, title) == MatchingNames(init, title) by {
          forall k | k in MatchingNames(fields, title) ensures k in MatchingNames(init, title) {
            var i :| 0 <= i < |fields| && fields[i].title == title && fields[i].internalName == k;
            assert init[i] == fields[i];
          }
          forall k | k in MatchingNames(init, title) ensures k in MatchingNames(fields, title) {
            var i :| 0 <= i < |init| && init[i].title == title && init[i].internalName == k;
            assert fields[i] == init[i];
          }
        }
      }
    }
  }

  /**
   * Reading the item back through any field with the applied title gives the
   * applied value; keys that belong to no such field keep their old presence
   * and value.
   */
  lemma ApplyReadBack(item: Item, fields: seq<Field>, title: string, value: Value)
    ensures forall i :: 0 <= i < |fields| && fields[i].title == title ==>
              fields[i].internalName in ApplyAll(item, fields, title, value)
              && ApplyAll(item, fields, title, value)[fields[i].internalName] == value
    ensures forall k :: k !in MatchingNames(fields, title) ==>
              (k in ApplyAll(item, fields, title, value) <==> k in item)
    ensures forall k :: k !in MatchingNames(fields, title) && k in item ==>
              ApplyAll(item, fields, title, value)[k] == item[k]
  {
    ApplyAllOverwrites(item, fields, title, value);
    forall i | 0 <= i < |fields| && fields[i].title == title
      ensures fields[i].internalName in MatchingNames(fields, title)
    {
    }
  }

  /** When no field has the title, the apply loop leaves the item as it was. */
  lemma ApplyWithoutMatch(item: Item, fields: seq<Field>, title: string, value: Value)
    requires !HasTitle(fields, title)
    ensures ApplyAll(item, fields, title, value) == item
  {
    ApplyAllOverwrites(item, fields, title, value);
    assert MatchingNames(fields, title) == {};
  }

  /** Applying the same value a second time changes nothing. */
  lemma ApplyIdempotent(item: Item, fields: seq<Field>, title: string, value: Value)
    ensures ApplyAll(ApplyAll(item, fields, title, value), fields, title, value)
         == ApplyAll(item, fields, title, value)
  {
    ApplyAllOverwrites(item, fields, title, value);
    ApplyAllOverwrites(ApplyAll(item, fields, title, value), fields, title, value);
  }

  /**
   * A document library in the store: its columns in the order the store
   * enumerates them, and its items by id.
   */
  class DocumentLibrary {
    var fields: seq<Field>
    var items: map<int, Item>

    constructor (fields: seq<Field>, items: map<int, Item>)
      ensures this.fields == fields && this.items == items
    {
      this.fields := fields;
      this.items := items;
    }

    /**
     * The scan for an existing column: walks the fields in order and stops
     * at the first whose title equals `title`.
     */
    method ColumnExists(title: string) returns (columnExists: bool)
      ensures columnExists <==> HasTitle(fields, title)
    {
      columnExists := false;
      var i := 0;
      while i < |fields|
        invariant 0 <= i <= |fields|
        invariant forall j :: 0 <= j < i ==> fields[j].title != title
      {
        if fields[i].title == title {
          columnExists := true;
          break;
        }
        i := i + 1;
      }
    }

    /**
     * Adds a text column titled `title` unless one exists. The store
     * chooses the internal name from the title given as a hint; it is a
     * parameter here.
     */
    method AddTextColumn(title: string, internalName: string)
      modifies this
      ensures fields == WithColumn(old(fields), Field(title, internalName, TextField))
      ensures items == old(items)
    {
      var columnExists := ColumnExists(title);
      if !columnExists {
        fields := fields + [Field(title, internalName, TextField)];
      }
    }

    /**
     * Adds a lookup column titled `title`, showing the `Title` of items of
     * the list whose id is `sourceListId`, unless a column with that title
     * exists. `sourceListId` is None when the source list cannot be found;
     * the error is swallowed and no column is added.
     */
    method AddLookupColumn(title: string, internalName: string, sourceListId: Option<string>)
      modifies this
      ensures fields == if sourceListId.Some?
                        then WithColumn(old(fields), Field(title, internalName, LookupField(sourceListId.value, "Title")))
                        else old(fields)
      ensures items == old(items)
    {
      var columnExists := ColumnExists(title);
      if !columnExists {
        if sourceListId.None? {
          return;
        }
        fields := fields + [Field(title, internalName, LookupField(sourceListId.value, "Title"))];
      }
    }

    /**
     * The loop shared by both apply operations: every field titled `title`
     * gets `value` written under its internal name on item `itemId`. A
     * missing item makes the first write fail; the error is swallowed and
     * the library is left unchanged.
     */
    method Apply(title: string, itemId: int, value: Value)
      modifies this
      ensures fields == old(fields)
      ensures items == if itemId in old(items)
                       then old(items)[itemId := ApplyAll(old(items)[itemId], old(fields), title, value)]
                       else old(items)
    {
      var i := 0;
      while i < |fields|
        invariant 0 <= i <= |fields|
        invariant fields == old(fields)
        invariant items == if itemId in old(items)
                           then old(items)[itemId := ApplyAll(old(items)[itemId], fields[..i], title, value)]
                           else old(items)
      {
        if fields[i].title == title {
          if itemId !in items {
            return;
          }
          items := items[itemId := items[itemId][fields[i].internalName := value]];
        }
        assert fields[..i + 1][..i] == fields[..i];
        i := i + 1;
      }
      assert fields[..i] == fields;
    }

    /** Writes the string `value` into the text column titled `title` of item `itemId`. */
    method ApplyTextMetadata(title: string, value: string, itemId: int)
      modifies this
      ensures fields == old(fields)
      ensures items == if itemId in old(items)
                       then old(items)[itemId := ApplyAll(old(items)[itemId], old(fields), title, Text(value))]
                       else old(items)
    {
      Apply(title, itemId, Text(value));
    }

    /** Points the lookup column titled `title` of item `itemId` at item `listItemId` of the source list. */
    method ApplyLookupMetadata(title: string, itemId: int, listItemId: int)
      modifies this
      ensures fields == old(fields)
      ensures items == if itemId in old(items)
                       then old(items)[itemId := ApplyAll(old(items)[itemId], old(fields), title, LookupId(listItemId))]
                       else old(items)
    {
      Apply(title, itemId, LookupId(listItemId));
    }
  }
}
