/// Columns, entries and the key/position index that every column collection keeps.
///
/// A collection holds three structures: the ordered entry list (`_collection`), an index
/// (`_index`) from each key to the first column stored under it and from each position to
/// the column there, and the set of member columns (`_colset`).  This module defines the
/// values those structures must have for a given entry list.
module ColumnModel {

  /** An opaque column, compared by identity; a collection reads only its `key` and `name`. */
  class Column {
    const name: string
    const key: string

    /** `column(name)`: the key is the name. */
    constructor (name: string)
      ensures this.name == name && key == name
    {
      this.name := name;
      key := name;
    }

    /** A column whose key was set apart from its name. */
    constructor WithKey(name: string, key: string)
      ensures this.name == name && this.key == key
    {
      this.name := name;
      this.key := key;
    }
  }

  datatype Option<T> = None | Some(value: T)

  /** The exceptions the collections raise. */
  datatype CollectionError =
    | KeyError        // unknown string key, or a subscript that is neither a string nor an integer
    | IndexError      // integer position outside the collection
    | AttributeError  // unknown key used as an attribute
    | ArgumentError   // strict collection given a key other than the column's own; non-string `in`
    | ValueError      // removing a column that is not a member
    | ImmutableError  // a mutator called on an immutable view

  datatype Result<T> = Ok(value: T) | Err(error: CollectionError)

  datatype Outcome = Done | Failed(error: CollectionError)

  /** One position of the entry list: the key the column is stored under, and the column. */
  datatype Entry = Entry(key: string, col: Column)

  /** A key of the index: a string key or an integer position. */
  datatype IndexKey = KeyOf(key: string) | Position(pos: int)

  function KeysOf(s: seq<Entry>): (r: seq<string>)
    ensures |r| == |s| && forall i :: 0 <= i < |s| ==> r[i] == s[i].key
  {
    seq(|s|, i requires 0 <= i < |s| => s[i].key)
  }

  function ColumnsOf(s: seq<Entry>): (r: seq<Column>)
    ensures |r| == |s| && forall i :: 0 <= i < |s| ==> r[i] == s[i].col
  {
    seq(|s|, i requires 0 <= i < |s| => s[i].col)
  }

  /** The member set `_colset` must equal: every column that occupies some position. */
  function ColumnSet(s: seq<Entry>): set<Column>
  {
    set i | 0 <= i < |s| :: s[i].col
  }

  /** The first position holding key `k`, if any. */
  function FirstIndex(ks: seq<string>, k: string): (r: Option<nat>)
    ensures r.None? <==> k !in ks
    ensures r.Some? ==> r.value < |ks| && ks[r.value] == k && k !in ks[..r.value]
  {
    if ks == [] then None
    else if ks[0] == k then Some(0)
    else match FirstIndex(ks[1..], k)
      case None => None
      case Some(p) =>
        assert ks[..p + 1] == [ks[0]] + ks[1..][..p];
        Some(p + 1)
  }

  /** The key half of the index, built as the integrity check builds it: each key, in
      entry order, is set only if not yet present (first stored wins). */
  function KeyIndexOf(s: seq<Entry>): map<IndexKey, Column>
  {
    if s == [] then map[]
    else
      var m := KeyIndexOf(s[..|s| - 1]);
      var e := s[|s| - 1];
      if KeyOf(e.key) in m then m else m[KeyOf(e.key) := e.col]
  }

  /** The position half of the index: each position to the column there. */
  function PositionIndexOf(s: seq<Entry>): map<IndexKey, Column>
  {
    map i | 0 <= i < |s| :: Position(i) := s[i].col
  }

  /** The index `_index` must equal for the entry list `s`. */
  function IndexOf(s: seq<Entry>): map<IndexKey, Column>
  {
    KeyIndexOf(s) + PositionIndexOf(s)
  }

  /** What an index means, stated entry by entry: it holds exactly the keys and positions of
      `s`; a key gives the column at the key's first position, a position the column there. */
  ghost predicate IndexedAs(m: map<IndexKey, Column>, s: seq<Entry>)
  {
    && (forall ik :: ik in m ==> if ik.KeyOf? then ik.key in KeysOf(s) else 0 <= ik.pos < |s|)
    && (forall k :: k in KeysOf(s) ==>
          KeyOf(k) in m && m[KeyOf(k)] == s[FirstIndex(KeysOf(s), k).value].col)
    && (forall p :: 0 <= p < |s| ==> Position(p) in m && m[Position(p)] == s[p].col)
  }

  /** Appending a key leaves the first position of every key already present unchanged. */
  lemma {:induction false} FirstIndexSnoc(ks: seq<string>, x: string, k: string)
    ensures FirstIndex(ks + [x], k) ==
      if k in ks then FirstIndex(ks, k) else if x == k then Some(|ks|) else None
  {
    if ks != [] {
      assert (ks + [x])[1..] == ks[1..] + [x];
      FirstIndexSnoc(ks[1..], x, k);
    }
  }

  lemma {:induction false} KeyIndexOfAt(s: seq<Entry>)
    ensures forall ik :: ik in KeyIndexOf(s) ==> ik.KeyOf? && ik.key in KeysOf(s)
    ensures forall k :: k in KeysOf(s) ==>
      KeyOf(k) in KeyIndexOf(s) && KeyIndexOf(s)[KeyOf(k)] == s[FirstIndex(KeysOf(s), k).value].col
  {
    if s != [] {
      var t := s[..|s| - 1];
      var e := s[|s| - 1];
      KeyIndexOfAt(t);
      assert s == t + [e];
      assert KeysOf(s) == KeysOf(t) + [e.key];
      forall k | k in KeysOf(s)
        ensures KeyOf(k) in KeyIndexOf(s) && KeyIndexOf(s)[KeyOf(k)] == s[FirstIndex(KeysOf(s), k).value].col
      {
        if k in KeysOf(t) {
          KeyIndexSnocOld(t, e, k);
        } else {
          KeyIndexSnocNew(t, e);
        }
      }
    }
  }

  /** Appending `e` leaves a key already present at its first position's column. */
  lemma KeyIndexSnocOld(t: seq<Entry>, e: Entry, k: string)
    requires k in KeysOf(t)
    requires KeyOf(k) in KeyIndexOf(t) && KeyIndexOf(t)[KeyOf(k)] == t[FirstIndex(KeysOf(t), k).value].col
    ensures KeyOf(k) in KeyIndexOf(t + [e])
    ensures KeyIndexOf(t + [e])[KeyOf(k)] == (t + [e])[FirstIndex(KeysOf(t + [e]), k).value].col
  {
    var s := t + [e];
    var m := KeyIndexOf(t);
    assert s[..|s| - 1] == t;
    assert KeyIndexOf(s) == if KeyOf(e.key) in m then m else m[KeyOf(e.key) := e.col];
    assert KeysOf(s) == KeysOf(t) + [e.key];
    FirstIndexSnoc(KeysOf(t), e.key, k);
    var q := FirstIndex(KeysOf(t), k).value;
    assert s[q] == t[q];
  }

  /** Appending `e` with a key not yet present indexes the key to `e`'s column. */
  lemma KeyIndexSnocNew(t: seq<Entry>, e: Entry)
    requires e.key !in KeysOf(t)
    requires forall ik :: ik in KeyIndexOf(t) ==> ik.KeyOf? && ik.key in KeysOf(t)
    ensures KeyOf(e.key) in KeyIndexOf(t + [e])
    ensures KeyIndexOf(t + [e])[KeyOf(e.key)] == (t + [e])[FirstIndex(KeysOf(t + [e]), e.key).value].col
  {
    var s := t + [e];
    var m := KeyIndexOf(t);
    assert s[..|s| - 1] == t;
    assert KeyOf(e.key) !in m;
    assert KeyIndexOf(s) == m[KeyOf(e.key) := e.col];
    assert KeysOf(s) == KeysOf(t) + [e.key];
    FirstIndexSnoc(KeysOf(t), e.key, e.key);
    assert s[|t|] == e;
  }

  /** The index the integrity check builds has the meaning `IndexedAs` states. */
  lemma IndexOfIndexedAs(s: seq<Entry>)
    ensures IndexedAs(IndexOf(s), s)
  {
    KeyIndexOfAt(s);
  }

  /** `IndexedAs` pins the index down: any map meeting it is the one the integrity check builds. */
  lemma IndexedAsUnique(m: map<IndexKey, Column>, s: seq<Entry>)
    requires IndexedAs(m, s)
    ensures m == IndexOf(s)
  {
    var n := IndexOf(s);
    IndexOfIndexedAs(s);
    forall ik ensures ik in m <==> ik in n {
      if ik.KeyOf? {
        assert ik == KeyOf(ik.key);
      } else {
        assert ik == Position(ik.pos);
      }
    }
    forall ik | ik in m ensures m[ik] == n[ik] {
      if ik.KeyOf? {
        assert ik == KeyOf(ik.key);
      } else {
        assert ik == Position(ik.pos);
      }
    }
  }

  /** Appending an entry: its position is indexed, and its key only if the key is new. */
  lemma IndexOfSnoc(s: seq<Entry>, e: Entry)
    ensures IndexOf(s + [e]) ==
      (if KeyOf(e.key) in IndexOf(s) then IndexOf(s) else IndexOf(s)[KeyOf(e.key) := e.col])
        [Position(|s|) := e.col]
  {
    var n := IndexOf(s);
    var n' := if KeyOf(e.key) in n then n else n[KeyOf(e.key) := e.col];
    SnocIndexed(s, e, n, n');
    IndexedAsUnique(n'[Position(|s|) := e.col], s + [e]);
  }

  lemma SnocIndexed(s: seq<Entry>, e: Entry, n: map<IndexKey, Column>, n': map<IndexKey, Column>)
    requires n == IndexOf(s)
    requires n' == if KeyOf(e.key) in n then n else n[KeyOf(e.key) := e.col]
    ensures IndexedAs(n'[Position(|s|) := e.col], s + [e])
  {
    IndexOfIndexedAs(s);
    SnocDomain(s, e, n, n');
    SnocKeys(s, e, n, n');
    SnocPositions(s, e, n, n');
  }

  lemma SnocDomain(s: seq<Entry>, e: Entry, n: map<IndexKey, Column>, n': map<IndexKey, Column>)
    requires IndexedAs(n, s)
    requires n' == if KeyOf(e.key) in n then n else n[KeyOf(e.key) := e.col]
    ensures forall ik: IndexKey :: ik in n'[Position(|s|) := e.col] ==>
      if ik.KeyOf? then ik.key in KeysOf(s + [e]) else 0 <= ik.pos < |s + [e]|
  {
    assert KeysOf(s + [e]) == KeysOf(s) + [e.key];
  }

  lemma SnocKeys(s: seq<Entry>, e: Entry, n: map<IndexKey, Column>, n': map<IndexKey, Column>)
    requires IndexedAs(n, s)
    requires n' == if KeyOf(e.key) in n then n else n[KeyOf(e.key) := e.col]
    ensures forall k :: k in KeysOf(s + [e]) ==>
      KeyOf(k) in n'[Position(|s|) := e.col] &&
      n'[Position(|s|) := e.col][KeyOf(k)] == (s + [e])[FirstIndex(KeysOf(s + [e]), k).value].col
  {
    var t := s + [e];
    var m := n'[Position(|s|) := e.col];
    assert KeysOf(t) == KeysOf(s) + [e.key];
    assert KeyOf(e.key) in n <==> e.key in KeysOf(s);
    forall k | k in KeysOf(t)
      ensures KeyOf(k) in m && m[KeyOf(k)] == t[FirstIndex(KeysOf(t), k).value].col
    {
      FirstIndexSnoc(KeysOf(s), e.key, k);
      if k in KeysOf(s) {
        assert m[KeyOf(k)] == n[KeyOf(k)];
      }
    }
  }

  lemma SnocPositions(s: seq<Entry>, e: Entry, n: map<IndexKey, Column>, n': map<IndexKey, Column>)
    requires IndexedAs(n, s)
    requires n' == if KeyOf(e.key) in n then n else n[KeyOf(e.key) := e.col]
    ensures forall p :: 0 <= p < |s + [e]| ==>
      Position(p) in n'[Position(|s|) := e.col] && n'[Position(|s|) := e.col][Position(p)] == (s + [e])[p].col
  {
    var t := s + [e];
    var m := n'[Position(|s|) := e.col];
    forall p | 0 <= p < |t|
      ensures Position(p) in m && m[Position(p)] == t[p].col
    {
      if p < |s| {
        assert n'[Position(p)] == n[Position(p)];
        assert t[p] == s[p];
      } else {
        assert p == |s|;
      }
    }
  }

  /** Overwriting the entry at the first position of its key with another entry under the same
      key: the index changes at that position and that key only. */
  lemma IndexOfUpdate(s: seq<Entry>, p: nat, e: Entry)
    requires p < |s| && s[p].key == e.key && FirstIndex(KeysOf(s), e.key) == Some(p)
    ensures IndexOf(s[p := e]) == IndexOf(s)[Position(p) := e.col][KeyOf(e.key) := e.col]
  {
    var m: map<IndexKey, Column> := IndexOf(s)[Position(p) := e.col][KeyOf(e.key) := e.col];
    UpdateIndexedOf(s, p, e, m);
    IndexedAsUnique(m, s[p := e]);
  }

  lemma UpdateIndexedOf(s: seq<Entry>, p: nat, e: Entry, m: map<IndexKey, Column>)
    requires p < |s| && s[p].key == e.key && FirstIndex(KeysOf(s), e.key) == Some(p)
    requires m == IndexOf(s)[Position(p) := e.col][KeyOf(e.key) := e.col]
    ensures IndexedAs(m, s[p := e])
  {
    IndexOfIndexedAs(s);
    UpdateIndexed(s, p, e, IndexOf(s), m);
  }

  lemma UpdateIndexed(s: seq<Entry>, p: nat, e: Entry, n: map<IndexKey, Column>, m: map<IndexKey, Column>)
    requires p < |s| && s[p].key == e.key && FirstIndex(KeysOf(s), e.key) == Some(p)
    requires IndexedAs(n, s)
    requires m == n[Position(p) := e.col][KeyOf(e.key) := e.col]
    ensures IndexedAs(m, s[p := e])
  {
    UpdateDomain(s, p, e, n, m);
    UpdateKeys(s, p, e, n, m);
    UpdatePositions(s, p, e, n, m);
  }

  lemma UpdateDomain(s: seq<Entry>, p: nat, e: Entry, n: map<IndexKey, Column>, m: map<IndexKey, Column>)
    requires p < |s| && s[p].key == e.key && IndexedAs(n, s)
    requires m == n[Position(p) := e.col][KeyOf(e.key) := e.col]
    ensures forall ik :: ik in m ==> if ik.KeyOf? then ik.key in KeysOf(s[p := e]) else 0 <= ik.pos < |s[p := e]|
  {
    assert KeysOf(s[p := e]) == KeysOf(s);
    assert KeysOf(s)[p] == e.key;
  }

  lemma UpdateKeys(s: seq<Entry>, p: nat, e: Entry, n: map<IndexKey, Column>, m: map<IndexKey, Column>)
    requires p < |s| && s[p].key == e.key && FirstIndex(KeysOf(s), e.key) == Some(p) && IndexedAs(n, s)
    requires m == n[Position(p) := e.col][KeyOf(e.key) := e.col]
    ensures forall k :: k in KeysOf(s[p := e]) ==>
      KeyOf(k) in m && m[KeyOf(k)] == s[p := e][FirstIndex(KeysOf(s[p := e]), k).value].col
  {
    var t := s[p := e];
    assert KeysOf(t) == KeysOf(s);
    forall k | k in KeysOf(t)
      ensures KeyOf(k) in m && m[KeyOf(k)] == t[FirstIndex(KeysOf(t), k).value].col
    {
      if k != e.key {
        assert m[KeyOf(k)] == n[KeyOf(k)];
        assert FirstIndex(KeysOf(s), k).value != p;
      }
    }
  }

  lemma UpdatePositions(s: seq<Entry>, p: nat, e: Entry, n: map<IndexKey, Column>, m: map<IndexKey, Column>)
    requires p < |s| && IndexedAs(n, s)
    requires m == n[Position(p) := e.col][KeyOf(e.key) := e.col]
    ensures forall q :: 0 <= q < |s[p := e]| ==> Position(q) in m && m[Position(q)] == s[p := e][q].col
  {
    forall q | 0 <= q < |s|
      ensures Position(q) in m && m[Position(q)] == s[p := e][q].col
    {
      if q != p {
        assert m[Position(q)] == n[Position(q)];
      }
    }
  }

  /** Builds the index the way the integrity check does: keys first-wins, then positions. */
  method BuildIndex(s: seq<Entry>) returns (d: map<IndexKey, Column>)
    ensures d == IndexOf(s)
  {
    d := map[];
    var i := 0;
    while i < |s|
      invariant 0 <= i <= |s|
      invariant d == KeyIndexOf(s[..i])
    {
      KeyIndexStep(s, i);
      if KeyOf(s[i].key) !in d {
        d := d[KeyOf(s[i].key) := s[i].col];
      }
      i := i + 1;
    }
    assert s[..|s|] == s;
    i := 0;
    while i < |s|
      invariant 0 <= i <= |s|
      invariant d == KeyIndexOf(s) + PositionIndexOf(s[..i])
    {
      PositionIndexStep(KeyIndexOf(s), s, i);
      d := d[Position(i) := s[i].col];
      i := i + 1;
    }
  }

  lemma KeyIndexStep(s: seq<Entry>, i: nat)
    requires i < |s|
    ensures KeyIndexOf(s[..i + 1]) ==
      if KeyOf(s[i].key) in KeyIndexOf(s[..i]) then KeyIndexOf(s[..i])
      else KeyIndexOf(s[..i])[KeyOf(s[i].key) := s[i].col]
  {
    assert s[..i + 1][..i] == s[..i];
  }

  lemma PositionIndexStep(k: map<IndexKey, Column>, s: seq<Entry>, i: nat)
    requires i < |s|
    ensures k + PositionIndexOf(s[..i + 1]) == (k + PositionIndexOf(s[..i]))[Position(i) := s[i].col]
  {
    assert PositionIndexOf(s[..i + 1]) == PositionIndexOf(s[..i])[Position(i) := s[i].col];
  }

  /** Collects the member set from the entry list, one entry at a time. */
  method CollectColumns(s: seq<Entry>) returns (cs: set<Column>)
    ensures cs == ColumnSet(s)
    ensures forall i :: 0 <= i < |s| ==> s[i].col in cs
  {
    cs := {};
    var i := 0;
    while i < |s|
      invariant 0 <= i <= |s|
      invariant cs == ColumnSet(s[..i])
    {
      assert s[..i + 1] == s[..i] + [s[i]];
      assert ColumnSet(s[..i + 1]) == ColumnSet(s[..i]) + {s[i].col} by {
        var t := s[..i + 1];
        assert t[i] == s[i];
        forall d | d in ColumnSet(t) ensures d in ColumnSet(s[..i]) + {s[i].col} {
          var j :| 0 <= j < |t| && t[j].col == d;
          if j < i {
            assert s[..i][j] == t[j];
          }
        }
        forall d | d in ColumnSet(s[..i]) ensures d in ColumnSet(t) {
          var j :| 0 <= j < i && s[..i][j].col == d;
          assert t[j] == s[..i][j];
        }
      }
      cs := cs + {s[i].col};
      i := i + 1;
    }
    assert s[..|s|] == s;
  }
}
