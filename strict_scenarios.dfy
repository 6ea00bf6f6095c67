/// Worked scenarios for the strict collection and its views.
module StrictScenarios {
  import opened ColumnModel
  import opened Dedupe
  import opened Collections
  import opened Readings

  // ---------------------------------------------------------------------------------
  // evaluating the strict rules on small lists

  lemma AddedNew(s: seq<Entry>, c: Column)
    requires Deduped(s) && c.key !in KeysOf(s)
    ensures StrictAdded(s, c) == s + [Entry(c.key, c)]
  {
    StrictAddedSpec(s, c);
  }

  lemma AddedAt(s: seq<Entry>, c: Column, p: nat)
    requires Deduped(s) && p < |s| && s[p].key == c.key
    ensures StrictAdded(s, c) == s[p := Entry(c.key, c)]
  {
    assert KeysOf(s)[p] == c.key;
    forall j | 0 <= j < p ensures KeysOf(s)[..p][j] != c.key {
      assert s[j].key != s[p].key;
    }
    FirstIndexAt(KeysOf(s), c.key, p);
  }

  lemma FoldAddSnoc(s: seq<Entry>, cs: seq<Column>, c: Column)
    requires Deduped(s)
    ensures FoldAdd(s, cs + [c]) == StrictAdded(FoldAdd(s, cs), c)
  {
    assert (cs + [c])[..|cs|] == cs;
  }

  lemma UnderKey(s: seq<Entry>, k: string, p: nat)
    requires Deduped(s) && p < |s| && s[p].key == k
    ensures ColumnUnder(s, k) == {s[p].col}
  {
    forall j | 0 <= j < p ensures KeysOf(s)[..p][j] != k {
      assert s[j].key != s[p].key;
    }
    FirstIndexAt(KeysOf(s), k, p);
  }

  lemma UnderNoKey(s: seq<Entry>, k: string)
    requires k !in KeysOf(s)
    ensures ColumnUnder(s, k) == {}
  {
  }

  /** A strict `add` of a column whose key is not stored yet appends it. */
  method AddNew(cc: DedupeColumnCollection, c: Column)
    requires cc.Valid() && c.key !in KeysOf(cc.storage.collection)
    modifies cc.storage
    ensures cc.Valid() && cc.storage.collection == old(cc.storage.collection) + [Entry(c.key, c)]
  {
    AddedNew(cc.storage.collection, c);
    var _ := cc.Add(c, None);
  }

  /** A strict `add` of a column whose key is stored at `p` overwrites that slot. */
  method AddAt(cc: DedupeColumnCollection, c: Column, p: nat)
    requires cc.Valid() && p < |cc.storage.collection| && cc.storage.collection[p].key == c.key
    modifies cc.storage
    ensures cc.Valid() && cc.storage.collection == old(cc.storage.collection)[p := Entry(c.key, c)]
  {
    AddedAt(cc.storage.collection, c, p);
    var _ := cc.Add(c, None);
  }

  /** Strict construction from columns, each under its own key. */
  method CreateOwnKeys(cols: seq<Column>) returns (cc: DedupeColumnCollection)
    ensures fresh(cc.storage) && cc.Valid() && cc.storage.collection == FoldAdd([], cols)
  {
    var entries := EntriesOf(cols);
    var r := DedupeColumnCollection.Create(entries);
    assert ColumnsOf(entries) == cols;
    cc := r.value;
  }

  /** Strict construction from columns with pairwise different keys. */
  method CreateDistinct(cols: seq<Column>) returns (cc: DedupeColumnCollection)
    requires forall i, j :: 0 <= i < j < |cols| ==> cols[i].key != cols[j].key
    ensures fresh(cc.storage) && cc.Valid() && cc.storage.collection == EntriesOf(cols)
  {
    cc := CreateOwnKeys(cols);
    FoldAddDistinct(cols);
  }

  /** The entries of three columns, each under its own key. */
  lemma EntriesOfThree(a: Column, b: Column, c: Column)
    ensures EntriesOf([a, b, c]) == [Entry(a.key, a), Entry(b.key, b), Entry(c.key, c)]
  {
  }

  /** Strict construction from three columns with different keys. */
  method CreateThree(a: Column, b: Column, c: Column) returns (cc: DedupeColumnCollection)
    requires a.key != b.key && a.key != c.key && b.key != c.key
    ensures fresh(cc.storage) && cc.Valid()
    ensures cc.storage.collection == [Entry(a.key, a), Entry(b.key, b), Entry(c.key, c)]
  {
    cc := CreateDistinct([a, b, c]);
    EntriesOfThree(a, b, c);
  }

  /** Strict construction from two columns with different keys. */
  method CreateTwo(a: Column, b: Column) returns (cc: DedupeColumnCollection)
    requires a.key != b.key
    ensures fresh(cc.storage) && cc.Valid()
    ensures cc.storage.collection == [Entry(a.key, a), Entry(b.key, b)]
  {
    cc := CreateDistinct([a, b]);
    assert EntriesOf([a, b]) == [Entry(a.key, a), Entry(b.key, b)];
  }

  /** Three columns keyed by their names, added one by one to an empty strict collection. */
  method AddThree(c1: Column, c2: Column, c3: Column) returns (cc: DedupeColumnCollection, ci: ImmutableColumnCollection)
    requires c1.key == "c1" && c2.key == "c2" && c3.key == "c3"
    ensures fresh(cc.storage) && cc.Valid() && ci.storage == cc.storage
    ensures cc.storage.collection == [Entry("c1", c1), Entry("c2", c2), Entry("c3", c3)]
  {
    cc, ci := AddTwoWithView(c1, c2);
    KeysOfTwo(Entry("c1", c1), Entry("c2", c2));
    AddNew(cc, c3);
  }

  /** A strict `extend` with one column whose key is not stored yet appends it. */
  method ExtendNew(cc: DedupeColumnCollection, c: Column)
    requires cc.Valid() && c.key !in KeysOf(cc.storage.collection)
    modifies cc.storage
    ensures cc.Valid() && cc.storage.collection == old(cc.storage.collection) + [Entry(c.key, c)]
  {
    ExtendOne(cc.storage.collection, c);
    cc.Extend([c]);
  }

  // ---------------------------------------------------------------------------------
  // the tests common to both collections, on the strict one

  /** Keys come out in order, under the keys given, and a view lists the same keys. */
  method StrictKeysWithView() returns (keys: seq<string>, viewKeys: seq<string>)
    ensures keys == ["c1", "foo", "c3"] && viewKeys == keys
  {
    var c1 := new Column("c1");
    var c2 := new Column.WithKey("c2", "foo");
    var c3 := new Column("c3");
    var cc := CreateThree(c1, c2, c3);
    KeysOfThree(Entry("c1", c1), Entry("foo", c2), Entry("c3", c3));
    keys := cc.storage.Keys();
    var ci := cc.AsImmutable();
    viewKeys := ci.storage.Keys();
  }

  /** `contains_column` answers for a stored column and not for another. */
  method StrictContainsColumn() returns (has1: bool, has3: bool)
    ensures has1 && !has3
  {
    var c1 := new Column("c1");
    var c2 := new Column("c2");
    var c3 := new Column("c3");
    var cc := CreateTwo(c1, c2);
    ColumnsOfTwo(Entry("c1", c1), Entry("c2", c2));
    has1 := ReadHas(cc.storage, c1);
    has3 := ReadHas(cc.storage, c3);
  }

  /** Subscripts: an unknown key and a non-string are KeyErrors, position 5 of two entries is
      an IndexError. */
  method StrictSubscriptErrors() returns (byKey: Result<Column>, byObject: Result<Column>, byPos: Result<Column>)
    ensures byKey == Err(KeyError) && byObject == Err(KeyError) && byPos == Err(IndexError)
  {
    var col1 := new Column("col1");
    var col2 := new Column("col2");
    var cc := CreateTwo(col1, col2);
    KeysOfTwo(Entry("col1", col1), Entry("col2", col2));
    byKey := ReadKey(cc.storage, "foo");
    byObject := ReadOther(cc.storage);
    byPos := ReadAt(cc.storage, 5);
  }

  /** `in` answers for the stored keys and refuses a column. */
  method StrictIn() returns (has1: Result<bool>, has2: Result<bool>, hasColumn: Result<bool>)
    ensures has1 == Ok(true) && has2 == Ok(true) && hasColumn == Err(ArgumentError)
  {
    var col1 := new Column("col1");
    var col2 := new Column("col2");
    var col3 := new Column("col3");
    var cc := CreateThree(col1, col2, col3);
    KeysOfThree(Entry("col1", col1), Entry("col2", col2), Entry("col3", col3));
    has1 := ReadHasKey(cc.storage, "col1");
    has2 := ReadHasKey(cc.storage, "col2");
    hasColumn := ReadHasOther(cc.storage);
  }

  /** `compare` is true for two collections of the same entries and false against a proper
      prefix. */
  method StrictCompare() returns (equal: bool, prefix: bool)
    ensures equal && !prefix
  {
    var c1 := new Column("col1");
    var c2 := new Column("col2");
    var c3 := new Column("col3");
    var a := CreateThree(c1, c2, c3);
    var b := CreateThree(c1, c2, c3);
    var p := CreateTwo(c1, c2);
    equal := a.storage.Compare(b.storage);
    prefix := a.storage.Compare(p.storage);
  }

  // ---------------------------------------------------------------------------------
  // add, construct, reject

  /** Strict `add` of c1, c2a, c3, c2b: c2b takes c2a's slot and c2a is no longer a member. */
  method StrictDupesAdd() returns (c1: Column, c2a: Column, c3: Column, c2b: Column, all: seq<Column>,
                                   hasA: bool, hasB: bool)
    ensures all == [c1, c2b, c3] && !hasA && hasB
  {
    c1 := new Column("c1");
    c2a := new Column("c2");
    c3 := new Column("c3");
    c2b := new Column("c2");
    var cc, _ := AddThree(c1, c2a, c3);
    AddAt(cc, c2b, 1);
    ColumnsOfThree(Entry("c1", c1), Entry("c2", c2b), Entry("c3", c3));
    all := ReadAll(cc.storage);
    hasA := ReadHas(cc.storage, c2a);
    hasB := ReadHas(cc.storage, c2b);
  }

  /** Three columns keyed c1, c2, c3 fold in unchanged. */
  lemma FoldThreeNamed(c1: Column, c2: Column, c3: Column)
    requires c1.key == "c1" && c2.key == "c2" && c3.key == "c3"
    ensures FoldAdd([], [c1, c2, c3]) == [Entry("c1", c1), Entry("c2", c2), Entry("c3", c3)]
  {
    FoldAddDistinct([c1, c2, c3]);
    assert EntriesOf([c1, c2, c3]) == [Entry("c1", c1), Entry("c2", c2), Entry("c3", c3)];
  }

  /** Folding one more column in is one more strict add. */
  lemma FoldAddLast(cs: seq<Column>, c: Column, m: seq<Entry>)
    requires FoldAdd([], cs) == m
    ensures FoldAdd([], cs + [c]) == StrictAdded(m, c)
  {
    FoldAddSnoc([], cs, c);
  }

  lemma ConstructWithDupe(c1: Column, c2a: Column, c3: Column, c2b: Column)
    requires c1.key == "c1" && c2a.key == "c2" && c3.key == "c3" && c2b.key == "c2"
    ensures FoldAdd([], [c1, c2a, c3, c2b]) == [Entry("c1", c1), Entry("c2", c2b), Entry("c3", c3)]
  {
    var m := [Entry("c1", c1), Entry("c2", c2a), Entry("c3", c3)];
    FoldThreeNamed(c1, c2a, c3);
    FoldAddLast([c1, c2a, c3], c2b, m);
    assert [c1, c2a, c3] + [c2b] == [c1, c2a, c3, c2b];
    AddedAt(m, c2b, 1);
  }

  /** Strict construction from c1, c2a, c3, c2b under their own keys. */
  method CreateWithDupe() returns (c1: Column, c2a: Column, c3: Column, c2b: Column, cc: DedupeColumnCollection)
    ensures cc.Valid() && c2a != c1 && c2a != c2b && c2a != c3
    ensures cc.storage.collection == [Entry("c1", c1), Entry("c2", c2b), Entry("c3", c3)]
  {
    c1 := new Column("c1");
    c2a := new Column("c2");
    c3 := new Column("c3");
    c2b := new Column("c2");
    cc := CreateOwnKeys([c1, c2a, c3, c2b]);
    ConstructWithDupe(c1, c2a, c3, c2b);
  }

  /** Strict construction from c1, c2a, c3, c2b under their own keys gives [c1, c2b, c3]:
      c2b is a member and c2a is not. */
  method StrictDupesConstruct() returns (c1: Column, c2a: Column, c3: Column, c2b: Column,
                                        all: seq<Column>, hasA: bool, hasB: bool)
    ensures all == [c1, c2b, c3] && !hasA && hasB
  {
    var cc;
    c1, c2a, c3, c2b, cc := CreateWithDupe();
    ColumnsOfThree(Entry("c1", c1), Entry("c2", c2b), Entry("c3", c3));
    all := ReadAll(cc.storage);
    hasA := ReadHas(cc.storage, c2a);
    hasB := ReadHas(cc.storage, c2b);
  }

  /** Adding an identical column a second time changes nothing: [c1, c2, c3], with c2 a
      member, and a view agrees. */
  method StrictIdenticalDupe() returns (c1: Column, c2: Column, c3: Column, all: seq<Column>,
                                       viewAll: seq<Column>, has2: bool)
    ensures all == [c1, c2, c3] && has2 && viewAll == all
  {
    c1 := new Column("c1");
    c2 := new Column("c2");
    c3 := new Column("c3");
    var cc, ci := AddThree(c1, c2, c3);
    AddAt(cc, c2, 1);
    ColumnsOfThree(Entry("c1", c1), Entry("c2", c2), Entry("c3", c3));
    all := ReadAll(cc.storage);
    has2 := ReadHas(cc.storage, c2);
    viewAll := ReadAll(ci.storage);
  }

  lemma ConstructIdentical(c1: Column, c2: Column, c3: Column)
    requires c1.key == "c1" && c2.key == "c2" && c3.key == "c3"
    ensures FoldAdd([], [c1, c2, c3, c2]) == [Entry("c1", c1), Entry("c2", c2), Entry("c3", c3)]
  {
    var m := [Entry("c1", c1), Entry("c2", c2), Entry("c3", c3)];
    FoldThreeNamed(c1, c2, c3);
    FoldAddLast([c1, c2, c3], c2, m);
    assert [c1, c2, c3] + [c2] == [c1, c2, c3, c2];
    assert m[1].col == c2;
    StrictAddIdentical(m, c2);
  }

  /** Strict construction with the identical column given twice. */
  method CreateIdentical() returns (c1: Column, c2: Column, c3: Column, cc: DedupeColumnCollection)
    ensures cc.Valid() && cc.storage.collection == [Entry("c1", c1), Entry("c2", c2), Entry("c3", c3)]
  {
    c1 := new Column("c1");
    c2 := new Column("c2");
    c3 := new Column("c3");
    cc := CreateOwnKeys([c1, c2, c3, c2]);
    ConstructIdentical(c1, c2, c3);
  }

  /** Strict construction with the identical column given twice keeps it once, in its first
      place, and a view agrees. */
  method StrictIdenticalConstruct() returns (c1: Column, c2: Column, c3: Column, all: seq<Column>,
                                            viewAll: seq<Column>, has2: bool)
    ensures all == [c1, c2, c3] && has2 && viewAll == all
  {
    var cc;
    c1, c2, c3, cc := CreateIdentical();
    ColumnsOfThree(Entry("c1", c1), Entry("c2", c2), Entry("c3", c3));
    all := ReadAll(cc.storage);
    has2 := ReadHas(cc.storage, c2);
    var ci := cc.AsImmutable();
    viewAll := ReadAll(ci.storage);
  }

  /** A column given under a key other than its own `.key` is refused, at construction and
      by `add`. */
  method SeparateKeyRejected() returns (r: Result<DedupeColumnCollection>, o: Outcome)
    ensures r == Err(ArgumentError) && o == Failed(ArgumentError)
  {
    var c1 := new Column("col1");
    var c2 := new Column("col2");
    r := DedupeColumnCollection.Create([Entry("kcol1", c1), Entry("kcol2", c2)]);
    assert [Entry("kcol1", c1), Entry("kcol2", c2)][0].key != c1.key;
    var cc := new DedupeColumnCollection.Empty();
    o := cc.Add(c1, Some("kcol1"));
  }

  // ---------------------------------------------------------------------------------
  // pickling

  /** [c1, c2 under "foo"] and a view, serialized together and read back. */
  method PickleTwo() returns (c1: Column, c2: Column, cp: DedupeColumnCollection, cpi: ImmutableColumnCollection)
    ensures fresh(cp.storage) && cp.Valid() && cpi.storage == cp.storage
    ensures cp.storage.collection == [Entry("c1", c1), Entry("foo", c2)]
  {
    c1 := new Column("c1");
    c2 := new Column.WithKey("c2", "foo");
    var cc := CreateTwo(c1, c2);
    var ci := cc.AsImmutable();
    cp, cpi := PickleRoundTrip(cc, ci);
  }

  /** The restored pair with c3 added through the restored collection; the restored view is
      returned. */
  method PickleThenAdd() returns (c1: Column, c2: Column, c3: Column, cpi: ImmutableColumnCollection)
    ensures cpi.storage.Valid()
    ensures cpi.storage.collection == [Entry("c1", c1), Entry("foo", c2), Entry("c3", c3)]
  {
    var cp;
    c1, c2, cp, cpi := PickleTwo();
    c3 := new Column("c3");
    KeysOfTwo(Entry("c1", c1), Entry("foo", c2));
    AddNew(cp, c3);
  }

  /** A collection and its view, serialized together and read back, still share one store:
      a column added through the restored collection shows up in the restored view. */
  method PickleWithMutation() returns (c3: Column, viewKeys: seq<string>, viewHas: bool)
    ensures viewKeys == ["c1", "foo", "c3"] && viewHas
  {
    var c1, c2, cpi;
    c1, c2, c3, cpi := PickleThenAdd();
    viewKeys := cpi.storage.Keys();
    assert |viewKeys| == 3 && viewKeys[0] == "c1" && viewKeys[1] == "foo" && viewKeys[2] == "c3";
    viewHas := ReadHas(cpi.storage, c3);
  }

  // ---------------------------------------------------------------------------------
  // replace

  /** A strict `replace` whose only target sits at `p` overwrites that slot. */
  method ReplaceAt(cc: DedupeColumnCollection, c: Column, p: nat)
    requires cc.Valid() && p < |cc.storage.collection|
    requires ReplaceTargets(cc.storage.collection, c) == {cc.storage.collection[p].col}
    modifies cc.storage
    ensures cc.Valid() && cc.storage.collection == old(cc.storage.collection)[p := Entry(c.key, c)]
  {
    ReplaceSingleMatch(cc.storage.collection, c, p);
    cc.Replace(c);
  }

  /** [c1, c2 under "foo", c3] after `replace` with a fresh column keyed "c3". */
  method ReplaceThird() returns (c1: Column, c2: Column, c4: Column, cc: DedupeColumnCollection)
    ensures cc.Valid() && cc.storage.collection == [Entry("c1", c1), Entry("foo", c2), Entry("c3", c4)]
  {
    c1 := new Column("c1");
    c2 := new Column.WithKey("c2", "foo");
    var c3 := new Column("c3");
    cc := CreateThree(c1, c2, c3);
    c4 := new Column("c3");
    UnderKey(cc.storage.collection, "c3", 2);
    ReplaceAt(cc, c4, 2);
  }

  /** Replacing with a column keyed like a stored one keeps the key order. */
  method KeysAfterReplace() returns (keys: seq<string>)
    ensures keys == ["c1", "foo", "c3"]
  {
    var c1, c2, c4, cc := ReplaceThird();
    KeysOfThree(Entry("c1", c1), Entry("foo", c2), Entry("c3", c4));
    keys := cc.storage.Keys();
  }

  /** Against [c1, c2a, c3], a column keyed "c2", or named "c2" with a key nobody uses, has
      c2a as its only target. */
  lemma TargetIsSecond(s: seq<Entry>, c: Column)
    requires Deduped(s) && |s| == 3 && KeysOf(s) == ["c1", "c2", "c3"]
    requires (c.key == "c2" && c.name != "c1" && c.name != "c3") || (c.name == "c2" && c.key != "c1" && c.key != "c3")
    ensures ReplaceTargets(s, c) == {s[1].col}
  {
    assert s[1].key == "c2";
    UnderKey(s, "c2", 1);
    if c.key == "c2" {
      if c.name != c.key {
        UnderNoKey(s, c.name);
      }
    } else {
      UnderNoKey(s, c.key);
    }
  }

  /** `replace` on a strict collection keyed c1, c2, c3 with a column that targets slot 1. */
  method ReplaceSecondOf(cc: DedupeColumnCollection, c: Column)
    requires cc.Valid() && |cc.storage.collection| == 3 && KeysOf(cc.storage.collection) == ["c1", "c2", "c3"]
    requires (c.key == "c2" && c.name != "c1" && c.name != "c3") || (c.name == "c2" && c.key != "c1" && c.key != "c3")
    modifies cc.storage
    ensures cc.Valid() && cc.storage.collection == old(cc.storage.collection)[1 := Entry(c.key, c)]
  {
    TargetIsSecond(cc.storage.collection, c);
    ReplaceAt(cc, c, 1);
  }

  /** [c1, c2a, c3] with c2a replaced by a fresh column of the given name and key. */
  method ReplaceSecond(name: string, key: string) returns (c1: Column, c2a: Column, c2b: Column, c3: Column,
                                                          cc: DedupeColumnCollection, ci: ImmutableColumnCollection)
    requires (key == "c2" && name != "c1" && name != "c3") || (name == "c2" && key != "c1" && key != "c3")
    ensures cc.Valid() && ci.storage == cc.storage && c2a != c1 && c2a != c2b && c2a != c3
    ensures cc.storage.collection == [Entry("c1", c1), Entry(key, c2b), Entry("c3", c3)]
  {
    c1 := new Column("c1");
    c2a := new Column("c2");
    c3 := new Column("c3");
    c2b := new Column.WithKey(name, key);
    cc, ci := AddThree(c1, c2a, c3);
    KeysOfThree(Entry("c1", c1), Entry("c2", c2a), Entry("c3", c3));
    ReplaceSecondOf(cc, c2b);
  }

  /** `replace` of a column matching c2a on key, on name, or on key with a name that matches
      nothing: the new column takes slot 1, c2a leaves, the length stays 3, and a view taken
      before the change sees it. */
  method ReplaceIntoSlot(name: string, key: string) returns (c1: Column, c2a: Column, c2b: Column, c3: Column,
                                                             all: seq<Column>, viewAll: seq<Column>,
                                                             at1: Result<Column>, viewAt1: Result<Column>,
                                                             viewAt3: Result<Column>, hasA: bool, hasB: bool)
    requires (key == "c2" && name != "c1" && name != "c3") || (name == "c2" && key != "c1" && key != "c3")
    ensures all == [c1, c2b, c3] && viewAll == all && at1 == Ok(c2b) && viewAt1 == Ok(c2b)
    ensures viewAt3 == Err(IndexError) && !hasA && hasB
  {
    var cc, ci;
    c1, c2a, c2b, c3, cc, ci := ReplaceSecond(name, key);
    ColumnsOfThree(Entry("c1", c1), Entry(key, c2b), Entry("c3", c3));
    all := ReadAll(cc.storage);
    viewAll := ReadAll(ci.storage);
    at1 := ReadAt(cc.storage, 1);
    viewAt1 := ReadAt(ci.storage, 1);
    viewAt3 := ReadAt(ci.storage, 3);
    hasA := ReadHas(cc.storage, c2a);
    hasB := ReadHas(cc.storage, c2b);
  }

  /** Against [c1, c2, c3], a column named "c4" and keyed "X" matches nothing. */
  lemma NoMatchFourth(s: seq<Entry>, c: Column)
    requires KeysOf(s) == ["c1", "c2", "c3"] && c.name == "c4" && c.key == "X"
    ensures ReplaceTargets(s, c) == {}
  {
    UnderNoKey(s, "X");
    UnderNoKey(s, "c4");
  }

  /** A strict `replace` with nothing to match appends. */
  method ReplaceAppends(cc: DedupeColumnCollection, c: Column)
    requires cc.Valid() && ReplaceTargets(cc.storage.collection, c) == {}
    modifies cc.storage
    ensures cc.Valid() && cc.storage.collection == old(cc.storage.collection) + [Entry(c.key, c)]
  {
    ReplaceNoMatch(cc.storage.collection, c);
    cc.Replace(c);
  }

  /** [c1, c2, c3] after a `replace` with a column that matches none of them. */
  method ReplaceFourth() returns (c1: Column, c2: Column, c3: Column, c4: Column, cc: DedupeColumnCollection,
                                  ci: ImmutableColumnCollection)
    ensures cc.Valid() && ci.storage == cc.storage
    ensures cc.storage.collection == [Entry("c1", c1), Entry("c2", c2), Entry("c3", c3), Entry("X", c4)]
  {
    c1 := new Column("c1");
    c2 := new Column("c2");
    c3 := new Column("c3");
    c4 := new Column.WithKey("c4", "X");
    cc, ci := AddThree(c1, c2, c3);
    KeysOfThree(Entry("c1", c1), Entry("c2", c2), Entry("c3", c3));
    NoMatchFourth(cc.storage.collection, c4);
    ReplaceAppends(cc, c4);
  }

  /** `replace` with nothing to match appends: [c1, c2, c3, c4], c2 and c4 are members, and a
      view taken before sees the same. */
  method ReplaceNoMatchScenario() returns (c1: Column, c2: Column, c3: Column, c4: Column, all: seq<Column>,
                                          viewAll: seq<Column>, at3: Result<Column>, viewAt3: Result<Column>,
                                          has2: bool, has4: bool)
    ensures all == [c1, c2, c3, c4] && viewAll == all && at3 == Ok(c4) && viewAt3 == Ok(c4)
    ensures has2 && has4
  {
    var cc, ci;
    c1, c2, c3, c4, cc, ci := ReplaceFourth();
    ColumnsOfFour(Entry("c1", c1), Entry("c2", c2), Entry("c3", c3), Entry("X", c4));
    all := ReadAll(cc.storage);
    viewAll := ReadAll(ci.storage);
    at3 := ReadAt(cc.storage, 3);
    viewAt3 := ReadAt(ci.storage, 3);
    has2 := ReadHas(cc.storage, c2);
    has4 := ReadHas(cc.storage, c4);
  }

  lemma SwitchTargets(s: seq<Entry>, c: Column)
    requires Deduped(s) && |s| == 3 && KeysOf(s) == ["id", "street", "user_id"]
    requires c.name == "id" && c.key == "street"
    ensures ReplaceTargets(s, c) == {s[0].col, s[1].col}
  {
    UnderKey(s, "street", 1);
    UnderKey(s, "id", 0);
  }

  /** Against [id, street, user_id], a column named "id" and keyed "street" takes slot 0 and
      the slot of "street" closes. */
  lemma SwitchReplaced(s: seq<Entry>, c: Column)
    requires Deduped(s) && |s| == 3 && KeysOf(s) == ["id", "street", "user_id"]
    requires c.name == "id" && c.key == "street"
    ensures Replaced(s, c) == [Entry("street", c), s[2]]
  {
    SwitchTargets(s, c);
    ReplaceDoubleMatch(s, c, 0, 1);
    assert s[..0] == [] && s[1..1] == [] && s[2..] == [s[2]];
  }

  /** [id, street, user_id] after `replace` with a column named "id" and keyed "street". */
  method SwitchSetup() returns (c4: Column, c3: Column, cc: DedupeColumnCollection)
    ensures cc.Valid() && cc.storage.collection == [Entry("street", c4), Entry("user_id", c3)]
  {
    var c1 := new Column("id");
    var c2 := new Column("street");
    c3 := new Column("user_id");
    cc := CreateThree(c1, c2, c3);
    c4 := new Column.WithKey("id", "street");
    KeysOfThree(Entry("id", c1), Entry("street", c2), Entry("user_id", c3));
    SwitchReplaced(cc.storage.collection, c4);
    cc.Replace(c4);
  }

  /** A column named like one stored column and keyed like another removes both and takes the
      earlier slot: [id, street, user_id] becomes [c4, user_id]. */
  method ReplaceSwitchKeyName() returns (c4: Column, c3: Column, all: seq<Column>)
    ensures all == [c4, c3]
  {
    var cc;
    c4, c3, cc := SwitchSetup();
    all := ReadAll(cc.storage);
  }

  // ---------------------------------------------------------------------------------
  // remove

  /** A strict `remove` of the column at `p` closes its slot. */
  method RemoveAt(cc: DedupeColumnCollection, p: nat)
    requires cc.Valid() && p < |cc.storage.collection|
    modifies cc.storage
    ensures cc.Valid()
    ensures cc.storage.collection == old(cc.storage.collection)[..p] + old(cc.storage.collection)[p + 1..]
  {
    RemoveShifts(cc.storage.collection, p);
    var _ := cc.Remove(cc.storage.collection[p].col);
  }

  /** [c1, c2, c3] with c2 removed, and a view taken before the removal. */
  method RemoveSecondOfThree() returns (c1: Column, c2: Column, c3: Column,
                                        cc: DedupeColumnCollection, ci: ImmutableColumnCollection)
    ensures cc.Valid() && ci.storage == cc.storage && c2 != c1 && c2 != c3
    ensures cc.storage.collection == [Entry("c1", c1), Entry("c3", c3)]
  {
    c1 := new Column("c1");
    c2 := new Column("c2");
    c3 := new Column("c3");
    cc, ci := AddThree(c1, c2, c3);
    RemoveAt(cc, 1);
  }

  /** `remove(c2)` from [c1, c2, c3]: c3 moves to slot 1, "c2" is gone, and a view taken
      before the change finds nothing at position 2. */
  method RemoveScenario() returns (c1: Column, c2: Column, c3: Column, all: seq<Column>,
                                   at1: Result<Column>, viewAt2: Result<Column>,
                                   has2: bool, hasKey: Result<bool>)
    ensures all == [c1, c3] && at1 == Ok(c3) && viewAt2 == Err(IndexError)
    ensures !has2 && hasKey == Ok(false)
  {
    var cc, ci;
    c1, c2, c3, cc, ci := RemoveSecondOfThree();
    all := ReadAll(cc.storage);
    at1 := ReadAt(cc.storage, 1);
    viewAt2 := ReadAt(ci.storage, 2);
    has2 := ReadHas(ci.storage, c2);
    hasKey := ReadHasKey(ci.storage, "c2");
    KeysOfTwo(Entry("c1", c1), Entry("c3", c3));
  }

  /** The columns whose name is not in `keep`. */
  function Unkept(s: seq<Entry>, keep: set<string>): set<Column>
  {
    set i | 0 <= i < |s| && s[i].col.name !in keep :: s[i].col
  }

  /** Iterating over a strict collection and removing every column whose name is not in
      `keep`: the loop walks a snapshot, so the result is the original list with exactly those
      columns filtered out, none skipped. */
  method RemoveUnkept(cc: DedupeColumnCollection, keep: set<string>)
    requires cc.Valid()
    modifies cc.storage
    ensures cc.Valid()
    ensures cc.storage.collection == Without(old(cc.storage.collection), Unkept(old(cc.storage.collection), keep))
  {
    var s0 := cc.storage.collection;
    var cols := cc.storage.AllColumns();
    ghost var removed: set<Column> := {};
    WithoutUntouched(s0, {});
    for i := 0 to |cols|
      invariant cc.Valid()
      invariant removed == Unkept(s0[..i], keep)
      invariant cc.storage.collection == Without(s0, removed)
    {
      removed := RemoveIfUnkept(cc, s0, i, keep, removed);
    }
    assert s0[..|cols|] == s0;
  }

  /** One step of that loop: the column at position `i` of the snapshot goes if its name is
      not kept. */
  method RemoveIfUnkept(cc: DedupeColumnCollection, s0: seq<Entry>, i: nat, keep: set<string>,
                        ghost removed: set<Column>) returns (ghost removed': set<Column>)
    requires cc.Valid() && i < |s0|
    requires removed == Unkept(s0[..i], keep) && cc.storage.collection == Without(s0, removed)
    modifies cc.storage
    ensures cc.Valid() && removed' == Unkept(s0[..i + 1], keep)
    ensures cc.storage.collection == Without(s0, removed')
  {
    var c := s0[i].col;
    removed' := removed;
    if c.name !in keep {
      var _ := cc.Remove(c);
      WithoutUnion(s0, removed, {c});
      removed' := removed + {c};
    }
    UnkeptSnoc(s0, i, keep);
  }

  lemma UnkeptSnoc(s: seq<Entry>, i: nat, keep: set<string>)
    requires i < |s|
    ensures Unkept(s[..i + 1], keep) == Unkept(s[..i], keep) + (if s[i].col.name !in keep then {s[i].col} else {})
  {
    var t := s[..i + 1];
    assert t[i] == s[i];
    forall d | d in Unkept(t, keep) ensures d in Unkept(s[..i], keep) + (if s[i].col.name !in keep then {s[i].col} else {}) {
      var j :| 0 <= j < |t| && t[j].col.name !in keep && t[j].col == d;
      if j < i {
        assert s[..i][j] == t[j];
      }
    }
    forall d | d in Unkept(s[..i], keep) ensures d in Unkept(t, keep) {
      var j :| 0 <= j < i && s[..i][j].col.name !in keep && s[..i][j].col == d;
      assert t[j] == s[..i][j];
    }
  }

  lemma KeepFirstTwo(s: seq<Entry>)
    requires |s| == 5 && s[0].col.name == "c1" && s[1].col.name == "c2"
    requires s[2].col.name == "c3" && s[3].col.name == "c4" && s[4].col.name == "c5"
    ensures Without(s, Unkept(s, {"c1", "c2"})) == s[..2]
  {
    var u := Unkept(s, {"c1", "c2"});
    assert s[2].col in u && s[3].col in u && s[4].col in u;
    assert s == s[..2] + s[2..];
    WithoutAppend(s[..2], s[2..], u);
    WithoutSlice(s, 0, 2, u);
    assert s[0..2] == s[..2];
    var t := s[2..];
    assert t == [s[2], s[3], s[4]];
    assert Without(t, u) == [] + Without(t[1..], u);
    assert t[1..] == [s[3], s[4]];
    assert Without(t[1..], u) == [] + Without(t[2..], u);
    assert t[2..] == [s[4]];
  }

  /** A strict collection of five fresh columns c1..c5. */
  method CreateFive() returns (cc: DedupeColumnCollection)
    ensures fresh(cc.storage) && cc.Valid()
    ensures var s := cc.storage.collection;
      |s| == 5 && s[0].col.name == "c1" && s[1].col.name == "c2" && s[2].col.name == "c3" &&
      s[3].col.name == "c4" && s[4].col.name == "c5" && s[0].key == "c1" && s[1].key == "c2"
  {
    var c1 := new Column("c1");
    var c2 := new Column("c2");
    var c3 := new Column("c3");
    var c4 := new Column("c4");
    var c5 := new Column("c5");
    cc := CreateDistinct([c1, c2, c3, c4, c5]);
  }

  /** Keeping "c1" and "c2" while iterating over c1..c5 leaves exactly those two. */
  method RemoveDuringIteration() returns (keys: seq<string>)
    ensures keys == ["c1", "c2"]
  {
    var cc := CreateFive();
    var s := cc.storage.collection;
    RemoveUnkept(cc, {"c1", "c2"});
    KeepFirstTwo(s);
    keys := cc.storage.Keys();
    assert |keys| == 2 && keys[0] == "c1" && keys[1] == "c2";
  }

  // ---------------------------------------------------------------------------------
  // extend

  lemma ExtendTwo(s: seq<Entry>, c3: Column, c2b: Column)
    requires Deduped(s) && |s| == 2 && KeysOf(s) == ["c1", "c2"] && c3.key == "c3" && c2b.key == "c2"
    ensures FoldAdd(s, [c3, c2b]) == [s[0], Entry("c2", c2b), Entry("c3", c3)]
  {
    FoldAddSnoc(s, [c3], c2b);
    FoldAddSnoc(s, [], c3);
    assert [c3] + [c2b] == [c3, c2b];
    AddedNew(s, c3);
    AddedAt(s + [Entry("c3", c3)], c2b, 1);
  }

  /** `extend([c3, c2b])` onto a strict collection keyed c1, c2. */
  method ExtendTwoOnto(cc: DedupeColumnCollection, c3: Column, c2b: Column)
    requires cc.Valid() && |cc.storage.collection| == 2 && KeysOf(cc.storage.collection) == ["c1", "c2"]
    requires c3.key == "c3" && c2b.key == "c2"
    modifies cc.storage
    ensures cc.Valid()
    ensures cc.storage.collection == [old(cc.storage.collection)[0], Entry("c2", c2b), Entry("c3", c3)]
  {
    ExtendTwo(cc.storage.collection, c3, c2b);
    cc.Extend([c3, c2b]);
  }

  /** An empty strict collection and a view of it, after adding c1 and c2a. */
  method AddTwoWithView(c1: Column, c2a: Column) returns (cc: DedupeColumnCollection, ci: ImmutableColumnCollection)
    requires c1.key == "c1" && c2a.key == "c2"
    ensures fresh(cc.storage) && cc.Valid() && ci.storage == cc.storage
    ensures cc.storage.collection == [Entry("c1", c1), Entry("c2", c2a)]
  {
    cc := new DedupeColumnCollection.Empty();
    ci := cc.AsImmutable();
    AddNew(cc, c1);
    assert KeysOf([] + [Entry("c1", c1)]) == ["c1"];
    AddNew(cc, c2a);
  }

  /** `extend([c3, c2b])` onto [c1, c2a]: c2b takes c2a's slot, c3 is appended, and a view
      sees the same; position 3 is out of range. */
  method DupesExtend() returns (c1: Column, c2a: Column, c2b: Column, c3: Column, all: seq<Column>,
                                viewAll: seq<Column>, at3: Result<Column>, viewAt3: Result<Column>,
                                viewHasA: bool, viewHasB: bool)
    ensures all == [c1, c2b, c3] && viewAll == all
    ensures at3 == Err(IndexError) && viewAt3 == Err(IndexError) && !viewHasA && viewHasB
  {
    c1 := new Column("c1");
    c2a := new Column("c2");
    c3 := new Column("c3");
    c2b := new Column("c2");
    var cc, ci := AddTwoWithView(c1, c2a);
    KeysOfTwo(Entry("c1", c1), Entry("c2", c2a));
    ExtendTwoOnto(cc, c3, c2b);
    ColumnsOfThree(Entry("c1", c1), Entry("c2", c2b), Entry("c3", c3));
    all := ReadAll(cc.storage);
    viewAll := ReadAll(ci.storage);
    at3 := ReadAt(cc.storage, 3);
    viewAt3 := ReadAt(ci.storage, 3);
    viewHasA := ReadHas(ci.storage, c2a);
    viewHasB := ReadHas(ci.storage, c2b);
  }

  lemma ExtendOne(s: seq<Entry>, c: Column)
    requires Deduped(s) && c.key !in KeysOf(s)
    ensures FoldAdd(s, [c]) == s + [Entry(c.key, c)]
  {
    FoldAddSnoc(s, [], c);
    AddedNew(s, c);
  }

  lemma ExtendThree(t: seq<Entry>, c4: Column, c2: Column, c5: Column)
    requires Deduped(t) && |t| == 3 && KeysOf(t) == ["c1", "c2", "c3"] && t[1].col == c2
    requires c4.key == "c4" && c5.key == "c5"
    ensures FoldAdd(t, [c4, c2, c5]) == t + [Entry("c4", c4), Entry("c5", c5)]
  {
    var u := t + [Entry("c4", c4)];
    ExtendThreeFirst(t, c4);
    ExtendThreeSecond(t, u, c4, c2);
    ExtendThreeLast(t, u, c4, c2, c5);
  }

  lemma ExtendThreeFirst(t: seq<Entry>, c4: Column)
    requires Deduped(t) && KeysOf(t) == ["c1", "c2", "c3"] && c4.key == "c4"
    ensures FoldAdd(t, [c4]) == t + [Entry("c4", c4)]
  {
    FoldAddSnoc(t, [], c4);
    assert [] + [c4] == [c4];
    AddedNew(t, c4);
  }

  lemma ExtendThreeSecond(t: seq<Entry>, u: seq<Entry>, c4: Column, c2: Column)
    requires Deduped(t) && FoldAdd(t, [c4]) == u && |u| > 1 && u[1].col == c2
    ensures FoldAdd(t, [c4, c2]) == u
  {
    FoldAddSnoc(t, [c4], c2);
    assert [c4] + [c2] == [c4, c2];
    StrictAddIdentical(u, c2);
  }

  lemma ExtendThreeLast(t: seq<Entry>, u: seq<Entry>, c4: Column, c2: Column, c5: Column)
    requires Deduped(t) && FoldAdd(t, [c4, c2]) == u && u == t + [Entry("c4", c4)]
    requires KeysOf(t) == ["c1", "c2", "c3"] && c5.key == "c5"
    ensures FoldAdd(t, [c4, c2, c5]) == t + [Entry("c4", c4), Entry("c5", c5)]
  {
    FoldAddSnoc(t, [c4, c2], c5);
    assert [c4, c2] + [c5] == [c4, c2, c5];
    assert KeysOf(u) == KeysOf(t) + [c4.key];
    AddedNew(u, c5);
    assert u + [Entry("c5", c5)] == t + [Entry("c4", c4), Entry("c5", c5)];
  }

  /** `extend([c1, c2])` on an empty strict collection. */
  method ExtendFirstTwo(c1: Column, c2: Column) returns (cc: DedupeColumnCollection)
    requires c1.key == "c1" && c2.key == "c2"
    ensures fresh(cc.storage) && cc.Valid()
    ensures cc.storage.collection == [Entry("c1", c1), Entry("c2", c2)]
  {
    cc := new DedupeColumnCollection.Empty();
    FoldAddDistinct([c1, c2]);
    cc.Extend([c1, c2]);
    assert EntriesOf([c1, c2]) == [Entry("c1", c1), Entry("c2", c2)];
  }

  /** `extend([c1, c2])` then `extend([c3])` on an empty strict collection. */
  method ExtendFirstThree(c1: Column, c2: Column, c3: Column) returns (cc: DedupeColumnCollection)
    requires c1.key == "c1" && c2.key == "c2" && c3.key == "c3"
    ensures fresh(cc.storage) && cc.Valid()
    ensures cc.storage.collection == [Entry("c1", c1), Entry("c2", c2), Entry("c3", c3)]
  {
    cc := ExtendFirstTwo(c1, c2);
    KeysOfTwo(Entry("c1", c1), Entry("c2", c2));
    ExtendNew(cc, c3);
  }

  /** `extend([c4, c2, c5])` onto [c1, c2, c3]: c2 is already there, c4 and c5 are appended. */
  method ExtendLastThree(cc: DedupeColumnCollection, c4: Column, c2: Column, c5: Column)
    requires cc.Valid() && KeysOf(cc.storage.collection) == ["c1", "c2", "c3"]
    requires |cc.storage.collection| == 3 && cc.storage.collection[1].col == c2
    requires c4.key == "c4" && c5.key == "c5"
    modifies cc.storage
    ensures cc.Valid() && cc.storage.collection == old(cc.storage.collection) + [Entry("c4", c4), Entry("c5", c5)]
  {
    ExtendThree(cc.storage.collection, c4, c2, c5);
    cc.Extend([c4, c2, c5]);
  }

  /** The last `extend` of that scenario, and the columns it leaves. */
  method ExtendLastAndList(cc: DedupeColumnCollection, c1: Column, c2: Column, c3: Column, c4: Column, c5: Column)
    returns (all: seq<Column>)
    requires cc.Valid() && cc.storage.collection == [Entry("c1", c1), Entry("c2", c2), Entry("c3", c3)]
    requires c4.key == "c4" && c5.key == "c5"
    modifies cc.storage
    ensures all == [c1, c2, c3, c4, c5]
  {
    KeysOfThree(Entry("c1", c1), Entry("c2", c2), Entry("c3", c3));
    ExtendLastThree(cc, c4, c2, c5);
    all := ReadAll(cc.storage);
  }

  /** Extending with a column that is already stored keeps it where it was:
      [c1, c2] + [c3] + [c4, c2, c5] gives [c1, c2, c3, c4, c5]. */
  method ExtendKeepsExisting() returns (c1: Column, c2: Column, c3: Column, c4: Column, c5: Column, all: seq<Column>)
    ensures all == [c1, c2, c3, c4, c5]
  {
    c1 := new Column("c1");
    c2 := new Column("c2");
    c3 := new Column("c3");
    c4 := new Column("c4");
    c5 := new Column("c5");
    var cc := ExtendFirstThree(c1, c2, c3);
    all := ExtendLastAndList(cc, c1, c2, c3, c4, c5);
  }
}
