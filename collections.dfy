/// The column collections themselves.
///
/// A collection is three structures kept in step: the ordered entry list (`_collection`),
/// the mixed key/position index (`_index`) and the member set (`_colset`).  They live in one
/// `Store` object.  `ColumnCollection` (lenient), `DedupeColumnCollection` (strict) and the
/// read-only `ImmutableColumnCollection` each hold a reference to a `Store`; a view returned
/// by `AsImmutable` holds the very same `Store` as its source, so every later change made
/// through the source is seen through the view.
module Collections {
  import opened ColumnModel
  import opened Dedupe

  /** What a subscript or `in` test is given: a string key, an integer position, or any
      other object. */
  datatype Subscript = Str(s: string) | Int(i: int) | Other

  /** The state a strict collection hands to the serializer: its list and its index. */
  datatype StoreState = StoreState(collection: seq<Entry>, index: map<IndexKey, Column>)

  /** The three shared structures and the read operations every collection offers. */
  class Store {
    var collection: seq<Entry>
    var index: map<IndexKey, Column>
    var colset: set<Column>

    /** The integrity invariant: the member set is the set of stored columns, and the index
        maps each key to the first column stored under it and each position to its column. */
    ghost predicate Valid()
      reads this
    {
      colset == ColumnSet(collection) && index == IndexOf(collection)
    }

    /** Populates all three structures from a list of entries. */
    constructor (entries: seq<Entry>)
      ensures Valid() && collection == entries
    {
      collection := entries;
      var d := BuildIndex(entries);
      index := d;
      var cs := CollectColumns(entries);
      colset := cs;
    }

    /** Restores a serialized list and index; the member set is recomputed from the list. */
    constructor Restore(st: StoreState)
      requires st.index == IndexOf(st.collection)
      ensures Valid() && collection == st.collection && index == st.index
    {
      collection := st.collection;
      index := st.index;
      var cs := CollectColumns(st.collection);
      colset := cs;
    }

    /** `keys()`: the key of every entry, in order, duplicates included. */
    function Keys(): (r: seq<string>)
      reads this
      ensures |r| == |collection| && forall i :: 0 <= i < |r| ==> r[i] == collection[i].key
    {
      KeysOf(collection)
    }

    /** `len()`: the number of entries, duplicates included. */
    function Len(): (r: nat)
      reads this
      ensures r == |Keys()|
    {
      |collection|
    }

    /** `coll[key]`: a string finds the first column stored under it, an integer the column
        at that position; an unknown string or any other object is a KeyError, an integer out
        of range (negative included) an IndexError. */
    function GetItem(sub: Subscript): (r: Result<Column>)
      reads this
      requires Valid()
      ensures sub.Str? ==> (r.Ok? <==> sub.s in Keys())
      ensures sub.Str? && r.Ok? ==> r.value == collection[FirstIndex(Keys(), sub.s).value].col
      ensures sub.Int? ==> (r.Ok? <==> 0 <= sub.i < Len())
      ensures sub.Int? && r.Ok? ==> r.value == collection[sub.i].col
      ensures r.Err? ==> r.error == (if sub.Int? then IndexError else KeyError)
      ensures sub.Other? ==> r == Err(KeyError)
    {
      IndexOfIndexedAs(collection);
      match sub
      case Str(k) => if KeyOf(k) in index then Ok(index[KeyOf(k)]) else Err(KeyError)
      case Int(i) => if Position(i) in index then Ok(index[Position(i)]) else Err(IndexError)
      case Other => Err(KeyError)
    }

    /** `coll.key`: attribute access by key; a missing key is an AttributeError. */
    function GetAttr(key: string): (r: Result<Column>)
      reads this
      requires Valid()
      ensures r.Ok? <==> key in Keys()
      ensures r.Ok? ==> r.value == collection[FirstIndex(Keys(), key).value].col
      ensures r.Err? ==> r.error == AttributeError
    {
      match GetItem(Str(key))
      case Ok(c) => Ok(c)
      case Err(_) => Err(AttributeError)
    }

    /** `key in coll`: whether some entry is stored under the string `key`; anything but a
        string is an ArgumentError. */
    function Contains(sub: Subscript): (r: Result<bool>)
      reads this
      requires Valid()
      ensures sub.Str? ==> r == Ok(sub.s in Keys())
      ensures !sub.Str? ==> r == Err(ArgumentError)
    {
      IndexOfIndexedAs(collection);
      if sub.Str? then Ok(KeyOf(sub.s) in index) else Err(ArgumentError)
    }

    /** `contains_column(c)`: identity membership, answered by the member set. */
    function ContainsColumn(c: Column): (r: bool)
      reads this
      requires Valid()
      ensures r <==> exists i :: 0 <= i < |collection| && collection[i].col == c
    {
      c in colset
    }

    /** `_all_columns` and `list(coll)`: a fresh list of every stored column, in order. Code
        that iterates over a collection walks this snapshot, so changing the collection while
        iterating neither skips nor repeats a column. */
    method AllColumns() returns (cols: seq<Column>)
      requires Valid()
      ensures |cols| == Len() && forall i :: 0 <= i < |cols| ==> cols[i] == collection[i].col
      ensures forall c :: c in colset <==> c in cols
    {
      cols := [];
      var i := 0;
      while i < |collection|
        invariant 0 <= i <= |collection|
        invariant |cols| == i && forall j :: 0 <= j < i ==> cols[j] == collection[j].col
      {
        cols := cols + [collection[i].col];
        i := i + 1;
      }
      forall c | c in colset ensures c in cols {
        var j :| 0 <= j < |collection| && collection[j].col == c;
        assert cols[j] == c;
      }
    }

    /** `compare(other)`: true exactly when both hold the same entries, position by position,
        over the whole length. */
    method Compare(other: Store) returns (same: bool)
      ensures same <==> collection == other.collection
    {
      if |collection| != |other.collection| {
        return false;
      }
      var i := 0;
      while i < |collection|
        invariant 0 <= i <= |collection|
        invariant collection[..i] == other.collection[..i]
      {
        if collection[i] != other.collection[i] {
          return false;
        }
        assert collection[..i + 1] == collection[..i] + [collection[i]];
        assert other.collection[..i + 1] == other.collection[..i] + [other.collection[i]];
        i := i + 1;
      }
      assert collection == collection[..i] && other.collection == other.collection[..i];
      return true;
    }

    /** What `replace(c)` removes, read off the index: the column under `c.key`, and the one
        under `c.name` when the name differs from the key. */
    function ReplaceTargetsOf(c: Column): (t: set<Column>)
      reads this
      requires Valid()
      ensures t == ReplaceTargets(collection, c)
    {
      ColumnUnderIndex(collection, c.key);
      ColumnUnderIndex(collection, c.name);
      (if c.name != c.key && KeyOf(c.name) in index then {index[KeyOf(c.name)]} else {})
      + (if KeyOf(c.key) in index then {index[KeyOf(c.key)]} else {})
    }

    /** Appends one entry: the list grows, the member set gains the column, the index gains
        the new position, and the key only when no entry was stored under it yet. */
    method Append(e: Entry)
      requires Valid()
      modifies this
      ensures Valid() && collection == old(collection) + [e]
    {
      var s := collection;
      IndexOfSnoc(s, e);
      ColumnSetAppend(s, [e]);
      assert [e][0].col == e.col;
      assert ColumnSet([e]) == {e.col};
      collection := s + [e];
      colset := colset + {e.col};
      var d := index;
      if KeyOf(e.key) !in d {
        d := d[KeyOf(e.key) := e.col];
      }
      index := d[Position(|s|) := e.col];
    }

    /** Puts `c` in slot `p`, the first one stored under `c.key`, in all three structures; the
        column it displaces leaves the member set. */
    method UpdateSlot(p: nat, c: Column)
      requires Valid() && Deduped(collection) && FirstIndex(Keys(), c.key) == Some(p)
      modifies this
      ensures Valid() && collection == old(collection)[p := Entry(c.key, c)]
    {
      var s := collection;
      StrictAddInPlace(s, c, p);
      collection := s[p := Entry(c.key, c)];
      colset := colset - {s[p].col} + {c};
      index := index[Position(p) := c][KeyOf(c.key) := c];
    }

    /** The slot of the first entry stored under `k`. */
    method PositionOf(k: string) returns (p: Option<nat>)
      ensures p == FirstIndex(Keys(), k)
      ensures p.Some? ==> p.value < |collection| && collection[p.value].key == k
      ensures p.Some? ==> forall j :: 0 <= j < p.value ==> collection[j].key != k
    {
      var i := 0;
      while i < |collection|
        invariant 0 <= i <= |collection|
        invariant forall j :: 0 <= j < i ==> collection[j].key != k
      {
        if collection[i].key == k {
          assert Keys()[i] == k && k !in Keys()[..i];
          FirstIndexAt(Keys(), k, i);
          return Some(i);
        }
        i := i + 1;
      }
      assert k !in Keys();
      return None;
    }
  }

  /** `FirstIndex` is the earliest position holding `k`. */
  lemma FirstIndexAt(ks: seq<string>, k: string, i: nat)
    requires i < |ks| && ks[i] == k && k !in ks[..i]
    ensures FirstIndex(ks, k) == Some(i)
  {
    var r := FirstIndex(ks, k).value;
    forall j | 0 <= j < i ensures ks[j] != k {
      assert ks[..i][j] == ks[j];
    }
    forall j | 0 <= j < r ensures ks[j] != k {
      assert ks[..r][j] == ks[j];
    }
  }

  /** The index answers a key exactly when some entry is stored under it, with the first
      such entry's column. */
  lemma IndexKeyLookup(s: seq<Entry>, k: string)
    ensures KeyOf(k) in IndexOf(s) <==> k in KeysOf(s)
    ensures k in KeysOf(s) ==> IndexOf(s)[KeyOf(k)] == s[FirstIndex(KeysOf(s), k).value].col
  {
    IndexOfIndexedAs(s);
  }

  /** The strict `add` of a column whose key is stored at `p`, on all three structures. */
  lemma StrictAddInPlace(s: seq<Entry>, c: Column, p: nat)
    requires Deduped(s) && FirstIndex(KeysOf(s), c.key) == Some(p)
    ensures StrictAdded(s, c) == s[p := Entry(c.key, c)]
    ensures IndexOf(s[p := Entry(c.key, c)]) == IndexOf(s)[Position(p) := c][KeyOf(c.key) := c]
    ensures ColumnSet(s[p := Entry(c.key, c)]) == ColumnSet(s) - {s[p].col} + {c}
  {
    StrictAddedSpec(s, c);
    assert KeysOf(s)[p] == s[p].key;
    IndexOfUpdate(s, p, Entry(c.key, c));
  }

  /** The strict `add` of a column whose key is new, on all three structures. */
  lemma StrictAddAppend(s: seq<Entry>, c: Column)
    requires Deduped(s) && FirstIndex(KeysOf(s), c.key) == None
    ensures StrictAdded(s, c) == s + [Entry(c.key, c)]
    ensures IndexOf(s + [Entry(c.key, c)]) == IndexOf(s)[KeyOf(c.key) := c][Position(|s|) := c]
    ensures ColumnSet(s + [Entry(c.key, c)]) == ColumnSet(s) + {c}
  {
    StrictAddedSpec(s, c);
    IndexKeyLookup(s, c.key);
    IndexOfSnoc(s, Entry(c.key, c));
  }

  /** The strict `add` of a column already stored at `p` changes nothing. */
  lemma StrictAddPresent(s: seq<Entry>, c: Column, p: nat)
    requires Deduped(s) && p < |s| && s[p].col == c
    ensures StrictAdded(s, c) == s
  {
    StrictAddIdentical(s, c);
  }

  /** Removing a column that is not stored leaves the entries as they are. */
  lemma WithoutNonMember(s: seq<Entry>, c: Column)
    requires c !in ColumnSet(s)
    ensures Without(s, {c}) == s
  {
    forall i | 0 <= i < |s| ensures s[i].col !in {c} {
      assert s[i].col in ColumnSet(s);
    }
    WithoutUntouched(s, {c});
  }

  /** The walk `replace` makes, one entry at a time. */
  method WalkReplace(s: seq<Entry>, targets: set<Column>, e: Entry) returns (r: seq<Entry>)
    ensures r == ReplaceWalk(s, targets, e, false)
  {
    r := [];
    var replaced := false;
    var i := 0;
    while i < |s|
      invariant 0 <= i <= |s|
      invariant r + ReplaceWalk(s[i..], targets, e, replaced) == ReplaceWalk(s, targets, e, false)
    {
      ReplaceWalkStep(r, s, i, targets, e, replaced);
      if s[i].col in targets {
        if !replaced {
          replaced := true;
          r := r + [e];
        }
      } else {
        r := r + [s[i]];
      }
      i := i + 1;
    }
    ReplaceWalkEnd(r, s, targets, e, replaced);
    if !replaced {
      r := r + [e];
    }
  }

  /** One step of the replace walk: the output so far, the entry at `i`, then the walk over
      what follows it. */
  lemma ReplaceWalkStep(r: seq<Entry>, s: seq<Entry>, i: nat, targets: set<Column>, e: Entry, replaced: bool)
    requires i < |s|
    ensures r + ReplaceWalk(s[i..], targets, e, replaced) ==
      if s[i].col in targets then
        (if replaced then r else r + [e]) + ReplaceWalk(s[i + 1..], targets, e, true)
      else (r + [s[i]]) + ReplaceWalk(s[i + 1..], targets, e, replaced)
  {
    assert s[i..][0] == s[i] && s[i..][1..] == s[i + 1..];
    var rest := ReplaceWalk(s[i + 1..], targets, e, replaced || s[i].col in targets);
    if s[i].col in targets {
      if replaced {
        assert ReplaceWalk(s[i..], targets, e, replaced) == [] + rest;
      } else {
        assert r + ([e] + rest) == (r + [e]) + rest;
      }
    } else {
      assert r + ([s[i]] + rest) == (r + [s[i]]) + rest;
    }
  }

  /** The end of the replace walk: the replacement is appended if no target was met. */
  lemma ReplaceWalkEnd(r: seq<Entry>, s: seq<Entry>, targets: set<Column>, e: Entry, replaced: bool)
    requires r + ReplaceWalk(s[|s|..], targets, e, replaced) == ReplaceWalk(s, targets, e, false)
    ensures (if replaced then r else r + [e]) == ReplaceWalk(s, targets, e, false)
  {
    assert s[|s|..] == [];
  }

  /** The entries whose column is not `c`, in order. */
  method FilterOut(s: seq<Entry>, c: Column) returns (r: seq<Entry>)
    ensures r == Without(s, {c})
  {
    r := [];
    var i := 0;
    while i < |s|
      invariant 0 <= i <= |s|
      invariant r == Without(s[..i], {c})
    {
      assert s[..i + 1] == s[..i] + [s[i]];
      WithoutAppend(s[..i], [s[i]], {c});
      if s[i].col != c {
        r := r + [s[i]];
      }
      i := i + 1;
    }
    assert s[..|s|] == s;
  }

  /** In a well-formed store the column under `k` is the one the index holds for `k`. */
  lemma ColumnUnderIndex(s: seq<Entry>, k: string)
    ensures ColumnUnder(s, k) == if KeyOf(k) in IndexOf(s) then {IndexOf(s)[KeyOf(k)]} else {}
  {
    IndexOfIndexedAs(s);
  }

  /** Adding an entry never changes what an already stored key resolves to: lookup by key
      answers the first entry, however many duplicates follow it. */
  lemma LenientAddKeepsLookup(s: seq<Entry>, e: Entry, k: string)
    requires k in KeysOf(s)
    ensures KeyOf(k) in IndexOf(s) && IndexOf(s + [e])[KeyOf(k)] == IndexOf(s)[KeyOf(k)]
  {
    IndexOfIndexedAs(s);
    IndexOfSnoc(s, e);
  }

  /** The lenient collection: every entry is kept, duplicates included. */
  class ColumnCollection {
    const storage: Store

    ghost predicate Valid()
      reads this, storage
    {
      storage.Valid()
    }

    /** `ColumnCollection(columns=...)`: the entries as given, in order. */
    constructor (entries: seq<Entry>)
      ensures Valid() && fresh(storage) && storage.collection == entries
    {
      storage := new Store(entries);
    }

    /** `add(c, key)`: appends the entry under `key`, or under `c.key` when no key is given;
        the index gains the new position, and the key only when it is new. */
    method Add(column: Column, key: Option<string>)
      requires Valid()
      modifies storage
      ensures Valid()
      ensures storage.collection ==
        old(storage.collection) + [Entry(if key.Some? then key.value else column.key, column)]
    {
      var k := if key.Some? then key.value else column.key;
      storage.Append(Entry(k, column));
    }

    /** `as_immutable()`: a view sharing this collection's structures. */
    method AsImmutable() returns (v: ImmutableColumnCollection)
      ensures fresh(v) && v.storage == storage
    {
      v := new ImmutableColumnCollection(storage);
    }
  }

  /** The strict collection: every column under its own key, no key twice. */
  class DedupeColumnCollection {
    const storage: Store

    ghost predicate Valid()
      reads this, storage
    {
      storage.Valid() && Deduped(storage.collection)
    }

    /** `DedupeColumnCollection()`: empty. */
    constructor Empty()
      ensures Valid() && fresh(storage) && storage.collection == []
    {
      storage := new Store([]);
    }

    /** Unpickling: the list and index as serialized. */
    constructor FromState(st: StoreState)
      requires Deduped(st.collection) && st.index == IndexOf(st.collection)
      ensures Valid() && fresh(storage)
      ensures storage.collection == st.collection && storage.index == st.index
    {
      storage := new Store.Restore(st);
    }

    /** Pickling: the list and the index, not the member set. */
    function GetState(): (st: StoreState)
      reads this, storage
      requires Valid()
      ensures Deduped(st.collection) && st.index == IndexOf(st.collection)
      ensures st.collection == storage.collection
    {
      StoreState(storage.collection, storage.index)
    }

    /** `DedupeColumnCollection(columns=...)`: an ArgumentError when some column is given
        under a key other than its own `.key`; otherwise the columns are added in order. */
    static method Create(entries: seq<Entry>) returns (r: Result<DedupeColumnCollection>)
      ensures r.Ok? <==> forall i :: 0 <= i < |entries| ==> entries[i].key == entries[i].col.key
      ensures r.Err? ==> r.error == ArgumentError
      ensures r.Ok? ==> fresh(r.value.storage) && r.value.Valid()
      ensures r.Ok? ==> r.value.storage.collection == FoldAdd([], ColumnsOf(entries))
    {
      var i := 0;
      while i < |entries|
        invariant 0 <= i <= |entries|
        invariant forall j :: 0 <= j < i ==> entries[j].key == entries[j].col.key
      {
        if entries[i].key != entries[i].col.key {
          return Err(ArgumentError);
        }
        i := i + 1;
      }
      var cc := new DedupeColumnCollection.Empty();
      cc.Extend(ColumnsOf(entries));
      return Ok(cc);
    }

    /** `add(c, key)`: an ArgumentError when `key` is given and differs from `c.key`. Otherwise
        `c` takes the slot of the column stored under its key, or goes at the end when the key
        is new; adding a column that is already stored changes nothing. */
    method Add(column: Column, key: Option<string>) returns (o: Outcome)
      requires Valid()
      modifies storage
      ensures Valid()
      ensures key.Some? && key.value != column.key ==>
        o == Failed(ArgumentError) && storage.collection == old(storage.collection)
      ensures !(key.Some? && key.value != column.key) ==>
        o == Done && storage.collection == StrictAdded(old(storage.collection), column)
    {
      if key.Some? && key.value != column.key {
        return Failed(ArgumentError);
      }
      var k := column.key;
      var s := storage.collection;
      IndexKeyLookup(s, k);
      if KeyOf(k) in storage.index {
        var existing := storage.index[KeyOf(k)];
        var p := storage.PositionOf(k);
        if existing == column {
          StrictAddPresent(s, column, p.value);
          return Done;
        }
        StrictAddInPlace(s, column, p.value);
        storage.UpdateSlot(p.value, column);
      } else {
        StrictAddAppend(s, column);
        storage.Append(Entry(k, column));
      }
      return Done;
    }

    /** `extend(cs)`: `add` of each column in turn. */
    method Extend(columns: seq<Column>)
      requires Valid()
      modifies storage
      ensures Valid()
      ensures storage.collection == FoldAdd(old(storage.collection), columns)
    {
      var i := 0;
      while i < |columns|
        invariant 0 <= i <= |columns|
        invariant Valid()
        invariant storage.collection == FoldAdd(old(storage.collection), columns[..i])
      {
        assert columns[..i + 1][..i] == columns[..i];
        var _ := Add(columns[i], None);
        i := i + 1;
      }
      assert columns[..|columns|] == columns;
    }

    /** `replace(c)`: removes the column stored under `c.key` and, when `c.name` differs from
        `c.key`, the one stored under `c.name`; `c` takes the first freed slot, or goes at the
        end when nothing was removed. */
    method Replace(column: Column)
      requires Valid()
      modifies storage
      ensures Valid()
      ensures storage.collection == Replaced(old(storage.collection), column)
    {
      var s := storage.collection;
      var targets := storage.ReplaceTargetsOf(column);
      var r := WalkReplace(s, targets, Entry(column.key, column));
      ReplacedSpec(s, column);
      storage.collection := r;
      storage.colset := storage.colset - targets + {column};
      var d := BuildIndex(r);
      storage.index := d;
    }

    /** `remove(c)`: a ValueError when `c` is not stored; otherwise its entry is dropped and
        the later entries move down one slot. */
    method Remove(column: Column) returns (o: Outcome)
      requires Valid()
      modifies storage
      ensures Valid()
      ensures o == if column in old(storage.colset) then Done else Failed(ValueError)
      ensures storage.collection == Without(old(storage.collection), {column})
    {
      var s := storage.collection;
      if column !in storage.colset {
        WithoutNonMember(s, column);
        return Failed(ValueError);
      }
      var r := FilterOut(s, column);
      WithoutDeduped(s, {column});
      WithoutColumnSet(s, {column});
      storage.collection := r;
      storage.colset := storage.colset - {column};
      var d := BuildIndex(r);
      storage.index := d;
      return Done;
    }

    /** `as_immutable()`: a view sharing this collection's structures. */
    method AsImmutable() returns (v: ImmutableColumnCollection)
      ensures fresh(v) && v.storage == storage
    {
      v := new ImmutableColumnCollection(storage);
    }
  }

  /** The read-only view: every read goes to the shared structures, every mutator fails. The
      four mutators below are alike on purpose: each refuses in the same way, whatever its
      arguments. */
  class ImmutableColumnCollection {
    const storage: Store

    ghost predicate Valid()
      reads this, storage
    {
      storage.Valid()
    }

    constructor (parent: Store)
      ensures storage == parent
    {
      storage := parent;
    }

    method Add(column: Column, key: Option<string>) returns (o: Outcome)
      ensures o == Failed(ImmutableError)
    {
      return Failed(ImmutableError);
    }

    method Extend(columns: seq<Column>) returns (o: Outcome)
      ensures o == Failed(ImmutableError)
    {
      return Failed(ImmutableError);
    }

    method Replace(column: Column) returns (o: Outcome)
      ensures o == Failed(ImmutableError)
    {
      return Failed(ImmutableError);
    }

    method Remove(column: Column) returns (o: Outcome)
      ensures o == Failed(ImmutableError)
    {
      return Failed(ImmutableError);
    }
  }

  /** Serializing a strict collection together with a view of it and reading both back: the
      collection's list and index are restored and its member set recomputed, and the view's
      state is its parent, which resolves to the restored collection, so the two again share
      one store. */
  method PickleRoundTrip(cc: DedupeColumnCollection, ci: ImmutableColumnCollection)
    returns (cp: DedupeColumnCollection, cpi: ImmutableColumnCollection)
    requires cc.Valid() && ci.storage == cc.storage
    ensures fresh(cp.storage) && cp.Valid() && cpi.Valid() && cpi.storage == cp.storage
    ensures cp.storage.collection == cc.storage.collection
    ensures cp.storage.index == cc.storage.index && cp.storage.colset == cc.storage.colset
  {
    var st := cc.GetState();
    cp := new DedupeColumnCollection.FromState(st);
    cpi := new ImmutableColumnCollection(cp.storage);
  }
}
