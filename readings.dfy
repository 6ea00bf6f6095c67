/// Reads of a valid store stated on its entry list alone, so that a scenario can evaluate
/// what it read on the list it built.
module Readings {
  import opened ColumnModel
  import opened Collections

  /** `list(coll)`: the stored columns in order. */
  method ReadAll(st: Store) returns (all: seq<Column>)
    requires st.Valid()
    ensures all == ColumnsOf(st.collection)
  {
    all := st.AllColumns();
  }

  /** `coll[i]` for an integer `i`. */
  method ReadAt(st: Store, i: int) returns (r: Result<Column>)
    requires st.Valid()
    ensures r == if 0 <= i < |st.collection| then Ok(st.collection[i].col) else Err(IndexError)
  {
    r := st.GetItem(Int(i));
  }

  /** `coll[k]` for a string `k`. */
  method ReadKey(st: Store, k: string) returns (r: Result<Column>)
    requires st.Valid()
    ensures r == if k in KeysOf(st.collection) then Ok(st.collection[FirstIndex(KeysOf(st.collection), k).value].col)
                 else Err(KeyError)
  {
    r := st.GetItem(Str(k));
  }

  /** `contains_column(c)`. */
  method ReadHas(st: Store, c: Column) returns (has: bool)
    requires st.Valid()
    ensures has == (c in ColumnsOf(st.collection))
  {
    has := st.ContainsColumn(c);
    if has {
      var j :| 0 <= j < |st.collection| && st.collection[j].col == c;
      assert ColumnsOf(st.collection)[j] == c;
    }
  }

  /** `k in coll` for a string `k`. */
  method ReadHasKey(st: Store, k: string) returns (r: Result<bool>)
    requires st.Valid()
    ensures r == Ok(k in KeysOf(st.collection))
  {
    r := st.Contains(Str(k));
  }

  /** `coll[obj]` for an object that is neither a string nor an integer. */
  method ReadOther(st: Store) returns (r: Result<Column>)
    requires st.Valid()
    ensures r == Err(KeyError)
  {
    r := st.GetItem(Other);
  }

  /** `coll.k`: attribute access. */
  method ReadAttr(st: Store, k: string) returns (r: Result<Column>)
    requires st.Valid()
    ensures r == if k in KeysOf(st.collection) then Ok(st.collection[FirstIndex(KeysOf(st.collection), k).value].col)
                 else Err(AttributeError)
  {
    r := st.GetAttr(k);
  }

  /** `obj in coll` for an object that is not a string. */
  method ReadHasOther(st: Store) returns (r: Result<bool>)
    requires st.Valid()
    ensures r == Err(ArgumentError)
  {
    r := st.Contains(Other);
  }

  // Proof helpers: the keys and columns of short literal entry lists, so that a scenario
  // reads its answers off the list it built without unfolding the definitions itself.

  /** The keys of a two-entry list. */
  lemma KeysOfTwo(a: Entry, b: Entry)
    ensures KeysOf([a, b]) == [a.key, b.key]
  {
  }

  /** The keys of a three-entry list. */
  lemma KeysOfThree(a: Entry, b: Entry, c: Entry)
    ensures KeysOf([a, b, c]) == [a.key, b.key, c.key]
  {
  }

  /** The columns of a two-entry list. */
  lemma ColumnsOfTwo(a: Entry, b: Entry)
    ensures ColumnsOf([a, b]) == [a.col, b.col]
  {
  }

  /** The columns of a three-entry list. */
  lemma ColumnsOfThree(a: Entry, b: Entry, c: Entry)
    ensures ColumnsOf([a, b, c]) == [a.col, b.col, c.col]
  {
  }

  /** The columns of a four-entry list. */
  lemma ColumnsOfFour(a: Entry, b: Entry, c: Entry, d: Entry)
    ensures ColumnsOf([a, b, c, d]) == [a.col, b.col, c.col, d.col]
  {
  }
}
