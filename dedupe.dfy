/// The strict (deduplicating) collection's rules, as functions on entry lists.
///
/// In a strict collection every column is stored under its own `.key` and no key occurs
/// twice (`Deduped`).  `StrictAdded`, `FoldAdd`, `Replaced` and `Without` say what `add`,
/// construction / `extend`, `replace` and `remove` do to the ordered entries; the lemmas
/// state the promises the tests make about them.
module Dedupe {
  import opened ColumnModel

  /** Every column under its own key, and no key twice. */
  ghost predicate Deduped(s: seq<Entry>)
  {
    && (forall i :: 0 <= i < |s| ==> s[i].key == s[i].col.key)
    && (forall i, j :: 0 <= i < j < |s| ==> s[i].key != s[j].key)
  }

  lemma DedupedAppend(a: seq<Entry>, b: seq<Entry>)
    requires Deduped(a) && Deduped(b)
    requires forall i, j :: 0 <= i < |a| && 0 <= j < |b| ==> a[i].key != b[j].key
    ensures Deduped(a + b)
  {
    var s := a + b;
    forall i, j | 0 <= i < j < |s| ensures s[i].key != s[j].key {
      if j < |a| {
      } else if i >= |a| {
        assert s[i] == b[i - |a|] && s[j] == b[j - |a|];
      } else {
        assert s[j] == b[j - |a|];
      }
    }
  }

  lemma ColumnSetAppend(a: seq<Entry>, b: seq<Entry>)
    ensures ColumnSet(a + b) == ColumnSet(a) + ColumnSet(b)
  {
    var s := a + b;
    forall c | c in ColumnSet(s) ensures c in ColumnSet(a) + ColumnSet(b) {
      var i :| 0 <= i < |s| && s[i].col == c;
      if i >= |a| {
        assert b[i - |a|].col == c;
      }
    }
    forall c | c in ColumnSet(a) + ColumnSet(b) ensures c in ColumnSet(s) {
      if c in ColumnSet(a) {
        var i :| 0 <= i < |a| && a[i].col == c;
        assert s[i].col == c;
      } else {
        var i :| 0 <= i < |b| && b[i].col == c;
        assert s[|a| + i].col == c;
      }
    }
  }

  // ---------------------------------------------------------------------------------
  // add

  /** The strict `add(c)`: a column whose key is already stored takes that entry's slot;
      otherwise it is appended. */
  function StrictAdded(s: seq<Entry>, c: Column): (r: seq<Entry>)
    requires Deduped(s)
    ensures Deduped(r)
  {
    match FirstIndex(KeysOf(s), c.key)
    case None => s + [Entry(c.key, c)]
    case Some(p) => s[p := Entry(c.key, c)]
  }

  /** The column stored under `k`, as a set of at most one. */
  function ColumnUnder(s: seq<Entry>, k: string): set<Column>
  {
    match FirstIndex(KeysOf(s), k)
    case None => {}
    case Some(p) => {s[p].col}
  }

  /** In a strict collection the column stored under `k` has key `k`. */
  lemma ColumnUnderKey(s: seq<Entry>, k: string)
    requires Deduped(s)
    ensures forall d :: d in ColumnUnder(s, k) ==> d.key == k
  {
    match FirstIndex(KeysOf(s), k)
    case None =>
    case Some(p) =>
      assert KeysOf(s)[p] == s[p].key;
  }

  /** `add(c)` keeps every other entry where it was, puts `c` in the slot of the column with
      its key (or at the end when the key is new), and drops the displaced column. */
  lemma StrictAddedSpec(s: seq<Entry>, c: Column)
    requires Deduped(s)
    ensures c.key in KeysOf(s) ==> |StrictAdded(s, c)| == |s| && KeysOf(StrictAdded(s, c)) == KeysOf(s)
    ensures c.key !in KeysOf(s) ==> StrictAdded(s, c) == s + [Entry(c.key, c)]
    ensures forall i :: 0 <= i < |s| ==>
      StrictAdded(s, c)[i] == if s[i].key == c.key then Entry(c.key, c) else s[i]
    ensures ColumnSet(StrictAdded(s, c)) == ColumnSet(s) - ColumnUnder(s, c.key) + {c}
  {
    var r := StrictAdded(s, c);
    match FirstIndex(KeysOf(s), c.key)
    case None =>
      ColumnSetAppend(s, [Entry(c.key, c)]);
      assert [Entry(c.key, c)][0].col == c;
      assert ColumnSet([Entry(c.key, c)]) == {c};
    case Some(p) =>
      assert KeysOf(r) == KeysOf(s);
      forall d | d in ColumnSet(r) ensures d in ColumnSet(s) - {s[p].col} + {c} {
        var i :| 0 <= i < |r| && r[i].col == d;
      }
      forall d | d in ColumnSet(s) - {s[p].col} + {c} ensures d in ColumnSet(r) {
        if d != c {
          var i :| 0 <= i < |s| && s[i].col == d;
          assert r[i].col == d;
        } else {
          assert r[p].col == c;
        }
      }
  }

  /** Adding a column that is already a member changes nothing. */
  lemma StrictAddIdentical(s: seq<Entry>, c: Column)
    requires Deduped(s) && c in ColumnSet(s)
    ensures StrictAdded(s, c) == s
  {
    var i :| 0 <= i < |s| && s[i].col == c;
    assert KeysOf(s)[i] == c.key;
    var p := FirstIndex(KeysOf(s), c.key).value;
    assert p == i;
    assert s[i] == Entry(c.key, c);
  }

  // ---------------------------------------------------------------------------------
  // construction and extend

  /** Construction and `extend(cs)`: `add` of each column in order. */
  function FoldAdd(s: seq<Entry>, cs: seq<Column>): (r: seq<Entry>)
    requires Deduped(s)
    ensures Deduped(r)
    decreases |cs|
  {
    if cs == [] then s else StrictAdded(FoldAdd(s, cs[..|cs| - 1]), cs[|cs| - 1])
  }

  /** Each column under its own key. */
  function EntriesOf(cs: seq<Column>): (r: seq<Entry>)
    ensures |r| == |cs| && forall i :: 0 <= i < |cs| ==> r[i] == Entry(cs[i].key, cs[i])
  {
    seq(|cs|, i requires 0 <= i < |cs| => Entry(cs[i].key, cs[i]))
  }

  /** Construction from columns whose keys are all different keeps every one, in order. */
  lemma {:induction false} FoldAddDistinct(cs: seq<Column>)
    requires forall i, j :: 0 <= i < j < |cs| ==> cs[i].key != cs[j].key
    ensures FoldAdd([], cs) == EntriesOf(cs)
    decreases |cs|
  {
    if cs != [] {
      var init := cs[..|cs| - 1];
      var c := cs[|cs| - 1];
      FoldAddDistinct(init);
      var m := EntriesOf(init);
      assert c.key !in KeysOf(m) by {
        forall i | 0 <= i < |m| ensures KeysOf(m)[i] != c.key {
          assert init[i] == cs[i];
        }
      }
      StrictAddedSpec(m, c);
      assert m + [Entry(c.key, c)] == EntriesOf(cs);
    }
  }

  /** `extend` keeps the existing entries' keys where they were: the old key list is a prefix
      of the new one. */
  lemma {:induction false} ExtendKeepsOrder(s: seq<Entry>, cs: seq<Column>)
    requires Deduped(s)
    ensures KeysOf(s) <= KeysOf(FoldAdd(s, cs))
    decreases |cs|
  {
    if cs != [] {
      var init := FoldAdd(s, cs[..|cs| - 1]);
      ExtendKeepsOrder(s, cs[..|cs| - 1]);
      StrictAddedSpec(init, cs[|cs| - 1]);
      var c := cs[|cs| - 1];
      if c.key !in KeysOf(init) {
        assert KeysOf(init + [Entry(c.key, c)]) == KeysOf(init) + [c.key];
      }
    }
  }

  /** After `extend(cs)`, the last column given for each key is a member, and an existing entry
      whose key none of `cs` carries stays in its slot. */
  lemma {:induction false} ExtendLastWins(s: seq<Entry>, cs: seq<Column>)
    requires Deduped(s)
    ensures forall i :: 0 <= i < |cs| && (forall j :: i < j < |cs| ==> cs[j].key != cs[i].key) ==>
      cs[i] in ColumnSet(FoldAdd(s, cs))
    ensures forall i :: 0 <= i < |s| && (forall j :: 0 <= j < |cs| ==> cs[j].key != s[i].key) ==>
      i < |FoldAdd(s, cs)| && FoldAdd(s, cs)[i] == s[i]
    decreases |cs|
  {
    if cs != [] {
      var init := cs[..|cs| - 1];
      var c := cs[|cs| - 1];
      var m := FoldAdd(s, init);
      ExtendLastWins(s, init);
      ExtendKeepsOrder(s, init);
      StrictAddedSpec(m, c);
      var r := FoldAdd(s, cs);
      assert r == StrictAdded(m, c);
      forall i | 0 <= i < |cs| && (forall j :: i < j < |cs| ==> cs[j].key != cs[i].key)
        ensures cs[i] in ColumnSet(r)
      {
        if i < |cs| - 1 {
          assert init[i] == cs[i];
          assert forall j :: i < j < |init| ==> init[j].key != init[i].key by {
            forall j | i < j < |init| ensures init[j].key != init[i].key {
              assert init[j] == cs[j];
            }
          }
          assert cs[i] in ColumnSet(m);
          assert cs[i].key != c.key;
          ColumnUnderKey(m, c.key);
        }
      }
      forall i | 0 <= i < |s| && (forall j :: 0 <= j < |cs| ==> cs[j].key != s[i].key)
        ensures i < |r| && r[i] == s[i]
      {
        assert forall j :: 0 <= j < |init| ==> init[j].key != s[i].key by {
          forall j | 0 <= j < |init| ensures init[j].key != s[i].key {
            assert init[j] == cs[j];
          }
        }
        assert m[i] == s[i];
      }
    } else {
      assert FoldAdd(s, cs) == s;
    }
  }

  // ---------------------------------------------------------------------------------
  // remove

  /** The entries of `s` whose column is not in `t`, in order. */
  function Without(s: seq<Entry>, t: set<Column>): (r: seq<Entry>)
    ensures |r| <= |s|
  {
    if s == [] then [] else (if s[0].col in t then [] else [s[0]]) + Without(s[1..], t)
  }

  lemma {:induction false} WithoutMembers(s: seq<Entry>, t: set<Column>)
    ensures forall x :: x in Without(s, t) <==> x in s && x.col !in t
    ensures forall j :: 0 <= j < |Without(s, t)| ==> Without(s, t)[j] in s
  {
    if s != [] {
      WithoutMembers(s[1..], t);
      assert s == [s[0]] + s[1..];
      var h := if s[0].col in t then [] else [s[0]];
      var w := Without(s[1..], t);
      forall j | 0 <= j < |h + w| ensures (h + w)[j] in s {
        if j >= |h| {
          assert (h + w)[j] == w[j - |h|];
        }
      }
    }
  }

  lemma {:induction false} WithoutUntouched(s: seq<Entry>, t: set<Column>)
    requires forall i :: 0 <= i < |s| ==> s[i].col !in t
    ensures Without(s, t) == s
  {
    if s != [] {
      WithoutUntouched(s[1..], t);
    }
  }

  /** A stretch `s[lo..hi]` that holds none of `t`'s columns survives `Without` whole. */
  lemma WithoutSlice(s: seq<Entry>, lo: nat, hi: nat, t: set<Column>)
    requires lo <= hi <= |s|
    requires forall i :: lo <= i < hi ==> s[i].col !in t
    ensures Without(s[lo..hi], t) == s[lo..hi]
  {
    var u := s[lo..hi];
    forall i | 0 <= i < |u| ensures u[i].col !in t {
      assert u[i] == s[lo + i];
    }
    WithoutUntouched(u, t);
  }

  lemma {:induction false} WithoutColumnSet(s: seq<Entry>, t: set<Column>)
    ensures ColumnSet(Without(s, t)) == ColumnSet(s) - t
  {
    if s != [] {
      WithoutColumnSet(s[1..], t);
      var h := if s[0].col in t then [] else [s[0]];
      ColumnSetAppend(h, Without(s[1..], t));
      ColumnSetAppend([s[0]], s[1..]);
      assert s == [s[0]] + s[1..];
    }
  }

  lemma {:induction false} WithoutDeduped(s: seq<Entry>, t: set<Column>)
    requires Deduped(s)
    ensures Deduped(Without(s, t))
  {
    if s != [] {
      WithoutDeduped(s[1..], t);
      if s[0].col !in t {
        var w := Without(s[1..], t);
        WithoutMembers(s[1..], t);
        forall j | 0 <= j < |w| ensures s[0].key != w[j].key {
          assert w[j] in w;
          assert w[j] in s[1..];
          var k :| 0 <= k < |s[1..]| && s[1..][k] == w[j];
          assert s[1 + k] == w[j];
        }
        DedupedAppend([s[0]], w);
      }
    }
  }

  lemma {:induction false} WithoutUnion(s: seq<Entry>, a: set<Column>, b: set<Column>)
    ensures Without(Without(s, a), b) == Without(s, a + b)
  {
    if s != [] {
      WithoutUnion(s[1..], a, b);
      var h := if s[0].col in a then [] else [s[0]];
      WithoutAppend(h, Without(s[1..], a), b);
    }
  }

  lemma {:induction false} WithoutAppend(a: seq<Entry>, b: seq<Entry>, t: set<Column>)
    ensures Without(a + b, t) == Without(a, t) + Without(b, t)
  {
    if a != [] {
      WithoutAppend(a[1..], b, t);
      assert (a + b)[0] == a[0];
      assert (a + b)[1..] == a[1..] + b;
    } else {
      assert a + b == b;
    }
  }

  /** In a strict collection no column sits in two slots. */
  lemma DedupedColumnsDistinct(s: seq<Entry>, p: nat)
    requires Deduped(s) && p < |s|
    ensures forall i :: 0 <= i < |s| && i != p ==> s[i].col != s[p].col
  {
    forall i | 0 <= i < |s| && i != p ensures s[i].col != s[p].col {
      assert s[i].key != s[p].key;
    }
  }

  /** Dropping the one target entry `x` between two untouched stretches. */
  lemma {:induction false} WithoutDropOne(a: seq<Entry>, x: Entry, b: seq<Entry>, t: set<Column>)
    requires x.col in t && Without(a, t) == a && Without(b, t) == b
    ensures Without(a + [x] + b, t) == a + b
  {
    var ax := a + [x];
    assert Without(ax, t) == a by {
      WithoutAppend(a, [x], t);
      assert Without([x], t) == [] + Without([x][1..], t);
      assert a + [] == a;
    }
    WithoutAppend(ax, b, t);
  }

  /** `remove(c)` drops the one entry holding `c` and shifts the later entries down by one. */
  lemma RemoveShifts(s: seq<Entry>, p: nat)
    requires Deduped(s) && p < |s|
    ensures Without(s, {s[p].col}) == s[..p] + s[p + 1..]
  {
    DedupedColumnsDistinct(s, p);
    WithoutSingle(s, p, {s[p].col});
  }

  /** The slots before `p` hold no target, so removal keeps them all. */
  lemma WithoutBefore(s: seq<Entry>, p: nat, t: set<Column>)
    requires p <= |s| && forall i :: 0 <= i < p ==> s[i].col !in t
    ensures Without(s[..p], t) == s[..p]
  {
    WithoutSlice(s, 0, p, t);
    assert s[0..p] == s[..p];
  }

  /** The slots after `p` hold no target, so removal keeps them all. */
  lemma WithoutAfter(s: seq<Entry>, p: nat, t: set<Column>)
    requires p < |s| && forall i :: p < i < |s| ==> s[i].col !in t
    ensures Without(s[p + 1..], t) == s[p + 1..]
  {
    WithoutSlice(s, p + 1, |s|, t);
    assert s[p + 1..|s|] == s[p + 1..];
  }

  /** Removing a set that hits exactly one slot closes the gap. */
  lemma WithoutSingle(s: seq<Entry>, p: nat, t: set<Column>)
    requires p < |s| && s[p].col in t
    requires forall i :: 0 <= i < |s| && i != p ==> s[i].col !in t
    ensures Without(s, t) == s[..p] + s[p + 1..]
  {
    WithoutBefore(s, p, t);
    WithoutAfter(s, p, t);
    assert s == s[..p] + [s[p]] + s[p + 1..];
    WithoutDropOne(s[..p], s[p], s[p + 1..], t);
  }

  // ---------------------------------------------------------------------------------
  // replace

  /** The columns `replace(c)` removes: the one stored under `c.key`, and the one stored under
      `c.name` when the name differs from the key. */
  function ReplaceTargets(s: seq<Entry>, c: Column): set<Column>
  {
    ColumnUnder(s, c.key) + (if c.name != c.key then ColumnUnder(s, c.name) else {})
  }

  /** The walk `replace` makes over the entries: the first target's slot takes the new entry
      `e`, later targets are dropped, and `e` goes at the end if no target was met. */
  function ReplaceWalk(s: seq<Entry>, t: set<Column>, e: Entry, replaced: bool): seq<Entry>
  {
    if s == [] then (if replaced then [] else [e])
    else if s[0].col in t then (if replaced then [] else [e]) + ReplaceWalk(s[1..], t, e, true)
    else [s[0]] + ReplaceWalk(s[1..], t, e, replaced)
  }

  /** The strict `replace(c)`. */
  function Replaced(s: seq<Entry>, c: Column): seq<Entry>
  {
    ReplaceWalk(s, ReplaceTargets(s, c), Entry(c.key, c), false)
  }

  /** The first position whose column is in `t`. */
  function FirstIn(s: seq<Entry>, t: set<Column>): (r: Option<nat>)
    ensures r.None? <==> forall i :: 0 <= i < |s| ==> s[i].col !in t
    ensures r.Some? ==>
      r.value < |s| && s[r.value].col in t && forall i :: 0 <= i < r.value ==> s[i].col !in t
  {
    if s == [] then None
    else if s[0].col in t then Some(0)
    else match FirstIn(s[1..], t)
      case None => None
      case Some(p) => Some(p + 1)
  }

  /** In a strict collection the targets are exactly the columns stored under `c.key`, or
      under `c.name` when that differs. */
  lemma ReplaceTargetsSpec(s: seq<Entry>, c: Column)
    requires Deduped(s)
    ensures ReplaceTargets(s, c) <= ColumnSet(s)
    ensures forall i :: 0 <= i < |s| ==>
      (s[i].col in ReplaceTargets(s, c) <==> s[i].key == c.key || (c.name != c.key && s[i].key == c.name))
  {
    forall i | 0 <= i < |s|
      ensures s[i].col in ReplaceTargets(s, c) <==> s[i].key == c.key || (c.name != c.key && s[i].key == c.name)
    {
      assert KeysOf(s)[i] == s[i].key;
      if s[i].key == c.key {
        assert FirstIndex(KeysOf(s), c.key) == Some(i);
      }
      if c.name != c.key && s[i].key == c.name {
        assert FirstIndex(KeysOf(s), c.name) == Some(i);
      }
    }
  }

  /** Once an entry has been replaced, the rest of the walk only drops targets. */
  lemma {:induction false} WalkAfterReplaced(s: seq<Entry>, t: set<Column>, e: Entry)
    ensures ReplaceWalk(s, t, e, true) == Without(s, t)
  {
    if s != [] {
      WalkAfterReplaced(s[1..], t, e);
    }
  }

  /** Reference form of the walk: remove every target and put `e` at the earliest removed
      slot, or append `e` when nothing matched. */
  lemma {:induction false} WalkIsRemoveThenInsert(s: seq<Entry>, t: set<Column>, e: Entry)
    ensures ReplaceWalk(s, t, e, false) ==
      match FirstIn(s, t)
      case None => s + [e]
      case Some(p) => s[..p] + [e] + Without(s[p + 1..], t)
  {
    if s != [] {
      if s[0].col in t {
        WalkAfterReplaced(s[1..], t, e);
      } else {
        WalkIsRemoveThenInsert(s[1..], t, e);
        match FirstIn(s[1..], t)
        case None =>
          KeptHeadNone(s, t, e);
        case Some(p) =>
          KeptHeadSome(s, t, e, p);
      }
    }
  }

  /** A kept head entry with no target after it: the walk appends `e`. */
  lemma KeptHeadNone(s: seq<Entry>, t: set<Column>, e: Entry)
    requires s != [] && s[0].col !in t && FirstIn(s[1..], t).None?
    requires ReplaceWalk(s[1..], t, e, false) == s[1..] + [e]
    ensures FirstIn(s, t).None?
    ensures ReplaceWalk(s, t, e, false) == s + [e]
  {
    assert ReplaceWalk(s, t, e, false) == [s[0]] + (s[1..] + [e]);
    assert s == [s[0]] + s[1..];
  }

  /** A kept head entry before the first target at `p + 1`: the walk keeps it in front. */
  lemma KeptHeadSome(s: seq<Entry>, t: set<Column>, e: Entry, p: nat)
    requires s != [] && s[0].col !in t && FirstIn(s[1..], t) == Some(p)
    requires ReplaceWalk(s[1..], t, e, false) == s[1..][..p] + [e] + Without(s[1..][p + 1..], t)
    ensures FirstIn(s, t) == Some(p + 1)
    ensures ReplaceWalk(s, t, e, false) == s[..p + 1] + [e] + Without(s[p + 2..], t)
  {
    var u := s[1..];
    var w := Without(u[p + 1..], t);
    var h := [s[0]] + u[..p];
    assert ReplaceWalk(s, t, e, false) == [s[0]] + (u[..p] + [e] + w);
    assert [s[0]] + (u[..p] + [e] + w) == h + [e] + w;
    assert h == s[..p + 1];
    assert u[p + 1..] == s[p + 2..];
  }

  /** Every entry the walk produces is `e` (only while nothing was replaced yet) or an entry
      of `s` whose column is not a target. */
  lemma {:induction false} WalkMembers(s: seq<Entry>, t: set<Column>, e: Entry, replaced: bool)
    ensures forall j :: 0 <= j < |ReplaceWalk(s, t, e, replaced)| ==>
      (!replaced && ReplaceWalk(s, t, e, replaced)[j] == e) ||
      (ReplaceWalk(s, t, e, replaced)[j] in s && ReplaceWalk(s, t, e, replaced)[j].col !in t)
  {
    if s != [] {
      var b := replaced || s[0].col in t;
      var h := if s[0].col in t then (if replaced then [] else [e]) else [s[0]];
      var w := ReplaceWalk(s[1..], t, e, b);
      WalkMembers(s[1..], t, e, b);
      assert ReplaceWalk(s, t, e, replaced) == h + w;
      assert s == [s[0]] + s[1..];
      forall j | 0 <= j < |h + w|
        ensures (!replaced && (h + w)[j] == e) || ((h + w)[j] in s && (h + w)[j].col !in t)
      {
        if j >= |h| {
          assert (h + w)[j] == w[j - |h|];
        }
      }
    }
  }

  /** The walk removes the targets from the member set and adds `e`'s column unless an entry
      was already replaced. */
  lemma {:induction false} WalkColumnSet(s: seq<Entry>, t: set<Column>, e: Entry, replaced: bool)
    ensures ColumnSet(ReplaceWalk(s, t, e, replaced)) ==
      ColumnSet(s) - t + (if replaced then {} else {e.col})
  {
    assert [e][0] == e;
    assert ColumnSet([e]) == {e.col};
    if s != [] {
      var b := replaced || s[0].col in t;
      var h := if s[0].col in t then (if replaced then [] else [e]) else [s[0]];
      WalkColumnSet(s[1..], t, e, b);
      ColumnSetAppend(h, ReplaceWalk(s[1..], t, e, b));
      ColumnSetAppend([s[0]], s[1..]);
      assert s == [s[0]] + s[1..];
      assert [s[0]][0] == s[0];
      assert ColumnSet([s[0]]) == {s[0].col};
    }
  }

  /** The walk keeps a strict list strict when every entry keyed like `e` is a target. */
  lemma {:induction false} WalkDeduped(s: seq<Entry>, t: set<Column>, e: Entry, replaced: bool)
    requires Deduped(s) && e.key == e.col.key
    requires forall i :: 0 <= i < |s| && s[i].key == e.key ==> s[i].col in t
    ensures Deduped(ReplaceWalk(s, t, e, replaced))
  {
    if s != [] {
      var b := replaced || s[0].col in t;
      var w := ReplaceWalk(s[1..], t, e, b);
      WalkDeduped(s[1..], t, e, b);
      WalkMembers(s[1..], t, e, b);
      if s[0].col in t {
        if !replaced {
          forall j | 0 <= j < |w| ensures e.key != w[j].key {
            var k :| 0 <= k < |s[1..]| && s[1..][k] == w[j];
            assert s[1 + k] == w[j];
          }
          DedupedAppend([e], w);
        }
      } else {
        forall j | 0 <= j < |w| ensures s[0].key != w[j].key {
          if w[j] != e {
            var k :| 0 <= k < |s[1..]| && s[1..][k] == w[j];
            assert s[1 + k] == w[j];
          }
        }
        DedupedAppend([s[0]], w);
      }
    }
  }

  /** `FirstIn` finds the earliest slot holding a column of `t`. */
  lemma FirstInAt(s: seq<Entry>, t: set<Column>, p: nat)
    requires p < |s| && s[p].col in t
    requires forall i :: 0 <= i < p ==> s[i].col !in t
    ensures FirstIn(s, t) == Some(p)
  {
  }

  /** Writing `e` over slot `p` is cutting the list at `p` and putting `e` in the gap. */
  lemma SpliceAt(s: seq<Entry>, p: nat, e: Entry)
    requires p < |s|
    ensures s[..p] + [e] + s[p + 1..] == s[p := e]
  {
    var r := s[..p] + [e] + s[p + 1..];
    forall i | 0 <= i < |s| ensures r[i] == s[p := e][i] {
      if i > p {
        assert r[i] == s[p + 1..][i - p - 1];
      }
    }
  }

  /** A walk whose first target is at `p` keeps the slots before it, puts `e` there and then
      only filters. */
  lemma WalkFirstAt(s: seq<Entry>, t: set<Column>, e: Entry, p: nat)
    requires p < |s| && s[p].col in t
    requires forall i :: 0 <= i < p ==> s[i].col !in t
    ensures ReplaceWalk(s, t, e, false) == s[..p] + [e] + Without(s[p + 1..], t)
  {
    WalkIsRemoveThenInsert(s, t, e);
    FirstInAt(s, t, p);
  }

  /** A walk that meets exactly one target puts `e` in that slot. */
  lemma WalkSingle(s: seq<Entry>, t: set<Column>, e: Entry, p: nat)
    requires p < |s| && s[p].col in t
    requires forall i :: 0 <= i < |s| && i != p ==> s[i].col !in t
    ensures ReplaceWalk(s, t, e, false) == s[p := e]
  {
    WalkFirstAt(s, t, e, p);
    WithoutSlice(s, p + 1, |s|, t);
    assert s[p + 1..|s|] == s[p + 1..];
    SpliceAt(s, p, e);
  }

  /** A walk that meets two targets puts `e` in the first slot and closes the second. */
  lemma WalkDouble(s: seq<Entry>, t: set<Column>, e: Entry, p: nat, q: nat)
    requires p < q < |s| && s[p].col in t && s[q].col in t
    requires forall i :: 0 <= i < |s| && i != p && i != q ==> s[i].col !in t
    ensures ReplaceWalk(s, t, e, false) == s[..p] + [e] + s[p + 1..q] + s[q + 1..]
  {
    var rest := s[p + 1..];
    assert ReplaceWalk(s, t, e, false) == s[..p] + [e] + Without(rest, t) by {
      WalkIsRemoveThenInsert(s, t, e);
      FirstInAt(s, t, p);
    }
    assert Without(rest, t) == s[p + 1..q] + s[q + 1..] by {
      var k := q - p - 1;
      forall i | 0 <= i < |rest| && i != k ensures rest[i].col !in t {
        assert rest[i] == s[p + 1 + i];
      }
      WithoutSingle(rest, k, t);
      assert rest[..k] == s[p + 1..q];
      assert rest[k + 1..] == s[q + 1..];
    }
  }

  /** `replace` keeps the collection strict; the targets leave the member set and `c` joins it. */
  lemma ReplacedSpec(s: seq<Entry>, c: Column)
    requires Deduped(s)
    ensures Deduped(Replaced(s, c))
    ensures ColumnSet(Replaced(s, c)) == ColumnSet(s) - ReplaceTargets(s, c) + {c}
  {
    var t := ReplaceTargets(s, c);
    ReplaceTargetsSpec(s, c);
    WalkDeduped(s, t, Entry(c.key, c), false);
    WalkColumnSet(s, t, Entry(c.key, c), false);
  }

  /** When exactly one entry matches, `replace` puts `c` in that entry's slot: the length and
      every other entry stay as they were. */
  lemma ReplaceSingleMatch(s: seq<Entry>, c: Column, p: nat)
    requires Deduped(s) && p < |s| && ReplaceTargets(s, c) == {s[p].col}
    ensures Replaced(s, c) == s[p := Entry(c.key, c)]
  {
    DedupedColumnsDistinct(s, p);
    WalkSingle(s, ReplaceTargets(s, c), Entry(c.key, c), p);
  }

  /** With no match, `replace` appends. */
  lemma ReplaceNoMatch(s: seq<Entry>, c: Column)
    requires ReplaceTargets(s, c) == {}
    ensures Replaced(s, c) == s + [Entry(c.key, c)]
  {
    WalkIsRemoveThenInsert(s, {}, Entry(c.key, c));
  }

  /** When the name hits one entry and the key another, both go and `c` takes the earlier slot:
      the collection shrinks by one. */
  lemma ReplaceDoubleMatch(s: seq<Entry>, c: Column, p: nat, q: nat)
    requires Deduped(s) && p < q < |s| && ReplaceTargets(s, c) == {s[p].col, s[q].col}
    ensures Replaced(s, c) == s[..p] + [Entry(c.key, c)] + s[p + 1..q] + s[q + 1..]
    ensures |Replaced(s, c)| == |s| - 1
  {
    DedupedColumnsDistinct(s, p);
    DedupedColumnsDistinct(s, q);
    WalkDouble(s, ReplaceTargets(s, c), Entry(c.key, c), p, q);
  }

  /** After `replace(c)` the only entry keyed `c.key` or `c.name` is `c`'s own. */
  lemma ReplacedClears(s: seq<Entry>, c: Column, q: nat)
    requires Deduped(s) && Deduped(Replaced(s, c))
    requires q < |Replaced(s, c)| && Replaced(s, c)[q].col == c
    ensures Replaced(s, c)[q] == Entry(c.key, c)
    ensures forall j :: 0 <= j < |Replaced(s, c)| && j != q ==>
      Replaced(s, c)[j].key != c.key && Replaced(s, c)[j].key != c.name
  {
    var r := Replaced(s, c);
    var t := ReplaceTargets(s, c);
    ReplaceTargetsSpec(s, c);
    WalkMembers(s, t, Entry(c.key, c), false);
    DedupedColumnsDistinct(r, q);
    forall j | 0 <= j < |r| && j != q ensures r[j].key != c.key && r[j].key != c.name {
      assert r[j].key != r[q].key;
      assert r[j].col != c;
      var i :| 0 <= i < |s| && s[i] == r[j];
    }
  }

  /** After `replace(c)` the only target a second `replace(c)` finds is `c` itself. */
  lemma TargetsOfReplaced(s: seq<Entry>, c: Column, q: nat)
    requires Deduped(s) && Deduped(Replaced(s, c))
    requires q < |Replaced(s, c)| && Replaced(s, c)[q].col == c
    ensures ReplaceTargets(Replaced(s, c), c) == {c}
  {
    var r := Replaced(s, c);
    ReplacedClears(s, c, q);
    assert KeysOf(r)[q] == c.key;
    assert forall j :: 0 <= j < |r| && j != q ==> KeysOf(r)[j] != c.key && KeysOf(r)[j] != c.name;
    assert FirstIndex(KeysOf(r), c.key) == Some(q);
    assert c.name != c.key ==> FirstIndex(KeysOf(r), c.name) == None;
  }

  /** After `replace(c)`, `c` sits in one slot under its own key and is its own only target. */
  lemma ReplacedHolds(s: seq<Entry>, c: Column) returns (q: nat)
    requires Deduped(s)
    ensures Deduped(Replaced(s, c)) && q < |Replaced(s, c)| && Replaced(s, c)[q] == Entry(c.key, c)
    ensures ReplaceTargets(Replaced(s, c), c) == {c}
  {
    var r := Replaced(s, c);
    ReplacedSpec(s, c);
    assert c in ColumnSet(r);
    q :| 0 <= q < |r| && r[q].col == c;
    TargetsOfReplaced(s, c, q);
    ReplacedClears(s, c, q);
  }

  /** Replacing with a column that already sits under its own key, as its own only target,
      changes nothing. */
  lemma ReplacedInPlace(r: seq<Entry>, c: Column, q: nat)
    requires Deduped(r) && q < |r| && r[q] == Entry(c.key, c) && ReplaceTargets(r, c) == {c}
    ensures Replaced(r, c) == r
  {
    DedupedColumnsDistinct(r, q);
    WalkSingle(r, {c}, Entry(c.key, c), q);
    assert r[q := Entry(c.key, c)] == r;
  }

  /** Calling `replace(c)` twice gives the same entries as calling it once. */
  lemma ReplaceIdempotent(s: seq<Entry>, c: Column)
    requires Deduped(s)
    ensures Replaced(Replaced(s, c), c) == Replaced(s, c)
  {
    var q := ReplacedHolds(s, c);
    ReplacedInPlace(Replaced(s, c), c, q);
  }

  /** For a column whose name is its key, a strict `add` gives the same list as `replace`:
      the only possible target is the column under that key. */
  lemma StrictAddIsReplace(s: seq<Entry>, c: Column)
    requires Deduped(s) && c.name == c.key
    ensures StrictAdded(s, c) == Replaced(s, c)
  {
    match FirstIndex(KeysOf(s), c.key)
    case None =>
      ReplaceNoMatch(s, c);
    case Some(p) =>
      ReplaceSingleMatch(s, c, p);
  }
}
