/// Worked scenarios: each method builds a collection from fresh columns, applies the
/// operations of one test, and states in its postcondition what the collection
/// then holds.
module Scenarios {
  import opened ColumnModel
  import opened Dedupe
  import opened Collections
  import opened Readings

  /** Keys come out in order, under the keys given, and a view lists the same keys. */
  method KeysWithView() returns (keys: seq<string>, viewKeys: seq<string>)
    ensures keys == ["c1", "foo", "c3"] && viewKeys == keys
  {
    var c1 := new Column("c1");
    var c2 := new Column.WithKey("c2", "foo");
    var c3 := new Column("c3");
    var cc := new ColumnCollection([Entry("c1", c1), Entry("foo", c2), Entry("c3", c3)]);
    KeysOfThree(Entry("c1", c1), Entry("foo", c2), Entry("c3", c3));
    keys := cc.storage.Keys();
    var ci := cc.AsImmutable();
    viewKeys := ci.storage.Keys();
  }

  /** `contains_column` answers for a stored column and not for another. */
  method ContainsColumnScenario() returns (has1: bool, has3: bool)
    ensures has1 && !has3
  {
    var c1 := new Column("c1");
    var c2 := new Column("c2");
    var c3 := new Column("c3");
    var cc := new ColumnCollection([Entry("c1", c1), Entry("c2", c2)]);
    assert cc.storage.collection[0].col == c1;
    has1 := cc.storage.ContainsColumn(c1);
    has3 := cc.storage.ContainsColumn(c3);
  }

  /** Lenient `add` of two columns, the second under an explicit key. */
  method AddFirstTwo(c1: Column, c2a: Column) returns (cc: ColumnCollection)
    requires c1.key == "c1"
    ensures fresh(cc.storage) && cc.Valid()
    ensures cc.storage.collection == [Entry("c1", c1), Entry("c2", c2a)]
  {
    cc := new ColumnCollection([]);
    cc.Add(c1, None);
    cc.Add(c2a, Some("c2"));
  }

  /** Lenient `add` of four columns, the second under an explicit key. */
  method AddFour(c1: Column, c2a: Column, c3: Column, c2b: Column) returns (cc: ColumnCollection)
    requires c1.key == "c1" && c3.key == "c3" && c2b.key == "c2"
    ensures fresh(cc.storage) && cc.Valid()
    ensures cc.storage.collection == [Entry("c1", c1), Entry("c2", c2a), Entry("c3", c3), Entry("c2", c2b)]
  {
    cc := AddFirstTwo(c1, c2a);
    cc.Add(c3, None);
    cc.Add(c2b, None);
  }

  /** Lenient `add` of c1, c2a (under "c2"), c3 and c2b: all four are kept in order, both
      "c2" columns are members, and a view sees the same columns. */
  method LenientDupesAdd() returns (c1: Column, c2a: Column, c3: Column, c2b: Column, all: seq<Column>,
                                    viewAll: seq<Column>, members: bool)
    ensures c2a != c2b && all == [c1, c2a, c3, c2b]
    ensures members && viewAll == all
  {
    c1 := new Column("c1");
    c2a := new Column("c2");
    c3 := new Column("c3");
    c2b := new Column("c2");
    var cc := AddFour(c1, c2a, c3, c2b);
    ColumnsOfFour(Entry("c1", c1), Entry("c2", c2a), Entry("c3", c3), Entry("c2", c2b));
    all := ReadAll(cc.storage);
    var hasA := ReadHas(cc.storage, c2a);
    var hasB := ReadHas(cc.storage, c2b);
    members := hasA && hasB;
    var ci := cc.AsImmutable();
    viewAll := ReadAll(ci.storage);
  }

  /** After the same four lenient adds the keys repeat "c2", and lookup by "c2" answers the
      first column stored under it. */
  method LenientDupesLookup() returns (c2a: Column, keys: seq<string>, lookup: Result<Column>)
    ensures keys == ["c1", "c2", "c3", "c2"] && lookup == Ok(c2a)
  {
    var c1 := new Column("c1");
    c2a := new Column("c2");
    var c3 := new Column("c3");
    var c2b := new Column("c2");
    var cc := AddFour(c1, c2a, c3, c2b);
    keys, lookup := KeysAndLookup(cc.storage);
  }

  /** Keys and lookup by "c2" on a store keyed c1, c2, c3, c2. */
  method KeysAndLookup(st: Store) returns (keys: seq<string>, lookup: Result<Column>)
    requires st.Valid() && |st.collection| == 4 && st.collection[0].key == "c1"
    requires st.collection[1].key == "c2" && st.collection[2].key == "c3" && st.collection[3].key == "c2"
    ensures keys == ["c1", "c2", "c3", "c2"] && lookup == Ok(st.collection[1].col)
  {
    keys := st.Keys();
    LookupAt(st, "c2", 1);
    lookup := st.GetItem(Str("c2"));
  }

  /** Lookup by a key answers the column at the key's first position. */
  lemma LookupAt(st: Store, k: string, p: nat)
    requires st.Valid() && p < |st.collection| && st.collection[p].key == k
    requires forall j :: 0 <= j < p ==> st.collection[j].key != k
    ensures st.GetItem(Str(k)) == Ok(st.collection[p].col)
  {
    var ks := st.Keys();
    assert k !in ks[..p] by {
      forall j | 0 <= j < p ensures ks[..p][j] != k {
        assert ks[..p][j] == st.collection[j].key;
      }
    }
    FirstIndexAt(ks, k, p);
  }

  /** Lenient construction from c1, c2a, c3, c2b keeps all four in the order given, both
      "c2" columns are members, lookup by "c2" answers the first, and a view sees the same
      columns. */
  method LenientDupesConstruct() returns (c1: Column, c2a: Column, c3: Column, c2b: Column,
                                          all: seq<Column>, viewAll: seq<Column>, members: bool,
                                          keys: seq<string>, lookup: Result<Column>)
    ensures c2a != c2b && all == [c1, c2a, c3, c2b] && members && viewAll == all
    ensures keys == ["c1", "c2", "c3", "c2"] && lookup == Ok(c2a)
  {
    c1 := new Column("c1");
    c2a := new Column("c2");
    c3 := new Column("c3");
    c2b := new Column("c2");
    var cc := new ColumnCollection([Entry("c1", c1), Entry("c2", c2a), Entry("c3", c3), Entry("c2", c2b)]);
    ColumnsOfFour(Entry("c1", c1), Entry("c2", c2a), Entry("c3", c3), Entry("c2", c2b));
    all := ReadAll(cc.storage);
    var hasA := ReadHas(cc.storage, c2a);
    var hasB := ReadHas(cc.storage, c2b);
    members := hasA && hasB;
    keys, lookup := KeysAndLookup(cc.storage);
    var ci := cc.AsImmutable();
    viewAll := ReadAll(ci.storage);
  }

  /** Lenient construction keeps an identical column given twice, twice, in both its places;
      the column is a member, and a view sees the same columns. */
  method LenientIdenticalDupe() returns (c1: Column, c2: Column, c3: Column, all: seq<Column>,
                                         viewAll: seq<Column>, has2: bool)
    ensures all == [c1, c2, c3, c2] && has2 && viewAll == all
  {
    c1 := new Column("c1");
    c2 := new Column("c2");
    c3 := new Column("c3");
    var cc := new ColumnCollection([Entry("c1", c1), Entry("c2", c2), Entry("c3", c3), Entry("c2", c2)]);
    ColumnsOfFour(Entry("c1", c1), Entry("c2", c2), Entry("c3", c3), Entry("c2", c2));
    all := ReadAll(cc.storage);
    has2 := ReadHas(cc.storage, c2);
    var ci := cc.AsImmutable();
    viewAll := ReadAll(ci.storage);
  }

  /** Subscripts: an unknown key and a non-string are KeyErrors, position 5 of two entries is
      an IndexError; `in` answers for strings and refuses anything else. */
  method SubscriptErrors() returns (byKey: Result<Column>, byObject: Result<Column>, byPos: Result<Column>,
                                    hasCol1: Result<bool>, hasObject: Result<bool>)
    ensures byKey == Err(KeyError) && byObject == Err(KeyError) && byPos == Err(IndexError)
    ensures hasCol1 == Ok(true) && hasObject == Err(ArgumentError)
  {
    var col1 := new Column("col1");
    var col2 := new Column("col2");
    var cc := new ColumnCollection([Entry("col1", col1), Entry("col2", col2)]);
    KeysOfTwo(Entry("col1", col1), Entry("col2", col2));
    byKey := ReadKey(cc.storage, "foo");
    byObject := ReadOther(cc.storage);
    byPos := ReadAt(cc.storage, 5);
    hasCol1 := ReadHasKey(cc.storage, "col1");
    hasObject := ReadHasOther(cc.storage);
  }

  /** Columns stored under keys other than their names are found by key, not by name. */
  method SeparateKeys() returns (c1: Column, c2: Column, all: seq<Column>, byAttr1: Result<Column>,
                                 byAttr2: Result<Column>)
    ensures all == [c1, c2] && byAttr1 == Ok(c1) && byAttr2 == Ok(c2)
  {
    c1 := new Column("col1");
    c2 := new Column("col2");
    var cc := new ColumnCollection([Entry("kcol1", c1), Entry("kcol2", c2)]);
    ColumnsOfTwo(Entry("kcol1", c1), Entry("kcol2", c2));
    all := ReadAll(cc.storage);
    KeysOfTwo(Entry("kcol1", c1), Entry("kcol2", c2));
    FirstIndexAt(["kcol1", "kcol2"], "kcol1", 0);
    FirstIndexAt(["kcol1", "kcol2"], "kcol2", 1);
    byAttr1 := ReadAttr(cc.storage, "kcol1");
    byAttr2 := ReadAttr(cc.storage, "kcol2");
  }

  /** `in` asks about keys: a column's name that is not a key is not in the collection. */
  method SeparateKeysIn() returns (hasName: Result<bool>, hasKey: Result<bool>)
    ensures hasName == Ok(false) && hasKey == Ok(true)
  {
    var c1 := new Column("col1");
    var c2 := new Column("col2");
    var c3 := new Column("col3");
    var cc := new ColumnCollection([Entry("kcol1", c1), Entry("kcol2", c2), Entry("kcol3", c3)]);
    KeysOfThree(Entry("kcol1", c1), Entry("kcol2", c2), Entry("kcol3", c3));
    hasName := ReadHasKey(cc.storage, "col1");
    hasKey := ReadHasKey(cc.storage, "kcol2");
  }

  /** `compare` is true for two collections of the same entries and false against a proper
      prefix. */
  method CompareCollections() returns (equal: bool, prefix: bool)
    ensures equal && !prefix
  {
    var c1 := new Column("col1");
    var c2 := new Column("col2");
    var c3 := new Column("col3");
    var a := new ColumnCollection([Entry("col1", c1), Entry("col2", c2), Entry("col3", c3)]);
    var b := new ColumnCollection([Entry("col1", c1), Entry("col2", c2), Entry("col3", c3)]);
    var p := new ColumnCollection([Entry("col1", c1), Entry("col2", c2)]);
    equal := a.storage.Compare(b.storage);
    prefix := a.storage.Compare(p.storage);
  }
}
