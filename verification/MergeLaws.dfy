/** Laws of the property tree merge: exact contents and order, idempotence, associativity
and the lookup at every path. */
module MergeLaws {
  import opened Options
  import opened PropertyTrees
  import opened Text

  // ---------- Lists of entries ----------

  lemma {:induction false} HasKeyStep(es: seq<Entry>, key: string)
    requires es != []
    ensures HasKey(es, key) <==> es[0].key == key || HasKey(es[1..], key)
  {
    if HasKey(es, key) {
      var i :| 0 <= i < |es| && es[i].key == key;
      if i > 0 { assert es[1..][i - 1].key == key; }
    }
    if HasKey(es[1..], key) {
      var i :| 0 <= i < |es[1..]| && es[1..][i].key == key;
      assert es[i + 1].key == key;
    }
  }

  lemma KeySetIsHasKey(es: seq<Entry>, key: string)
    ensures key in KeySet(es) <==> HasKey(es, key)
  {}

  lemma {:induction false} KeySetStep(es: seq<Entry>)
    requires es != []
    ensures KeySet(es) == {es[0].key} + KeySet(es[1..])
  {
    forall k ensures k in KeySet(es) <==> k in {es[0].key} + KeySet(es[1..]) {
      KeySetIsHasKey(es, k);
      KeySetIsHasKey(es[1..], k);
      HasKeyStep(es, k);
    }
  }

  lemma KeySetOne(e: Entry)
    ensures KeySet([e]) == {e.key}
  {
    assert [e][0].key in KeySet([e]);
  }

  lemma KeySetConcat(xs: seq<Entry>, ys: seq<Entry>)
    ensures KeySet(xs + ys) == KeySet(xs) + KeySet(ys)
  {
    forall k | k in KeySet(xs) + KeySet(ys) ensures k in KeySet(xs + ys) {
      if k in KeySet(xs) {
        var i :| 0 <= i < |xs| && xs[i].key == k;
        assert (xs + ys)[i].key == k;
      } else {
        var i :| 0 <= i < |ys| && ys[i].key == k;
        assert (xs + ys)[|xs| + i].key == k;
      }
    }
  }

  lemma {:induction false} ChildConcat(xs: seq<Entry>, ys: seq<Entry>, key: string)
    ensures Child(xs + ys, key) == if HasKey(xs, key) then Child(xs, key) else Child(ys, key)
  {
    if xs == [] {
      assert xs + ys == ys;
    } else {
      ChildConcat(xs[1..], ys, key);
      assert (xs + ys)[1..] == xs[1..] + ys;
      HasKeyStep(xs, key);
    }
  }

  lemma {:induction false} ChildAt(es: seq<Entry>, i: nat)
    requires i < |es| && DistinctKeys(es)
    ensures Child(es, es[i].key) == es[i].tree
  {
    if i == 0 {
    } else {
      ChildAt(es[1..], i - 1);
    }
  }

  lemma {:induction false} ChildIsSomeEntry(es: seq<Entry>, key: string) returns (i: nat)
    requires HasKey(es, key)
    ensures i < |es| && es[i].key == key && es[i].tree == Child(es, key)
  {
    HasKeyStep(es, key);
    if es[0].key == key {
      i := 0;
    } else {
      var j := ChildIsSomeEntry(es[1..], key);
      i := j + 1;
    }
  }

  lemma {:induction false} ChildMissing(es: seq<Entry>, key: string)
    requires !HasKey(es, key)
    ensures Child(es, key) == EMPTY_TREE
  {
    if es == [] {
    } else {
      HasKeyStep(es, key);
      ChildMissing(es[1..], key);
    }
  }

  lemma {:induction false} DropConcat(xs: seq<Entry>, ys: seq<Entry>, ks: set<string>)
    ensures Drop(xs + ys, ks) == Drop(xs, ks) + Drop(ys, ks)
  {
    if xs == [] {
      assert xs + ys == ys;
    } else {
      DropConcat(xs[1..], ys, ks);
      assert (xs + ys)[0] == xs[0] && (xs + ys)[1..] == xs[1..] + ys;
      var kept := if xs[0].key in ks then [] else [xs[0]];
      assert Drop(xs, ks) == kept + Drop(xs[1..], ks);
      assert kept + (Drop(xs[1..], ks) + Drop(ys, ks)) == (kept + Drop(xs[1..], ks)) + Drop(ys, ks);
    }
  }

  lemma {:induction false} DropTwice(es: seq<Entry>, ks: set<string>, ls: set<string>)
    ensures Drop(Drop(es, ks), ls) == Drop(es, ks + ls)
  {
    if es == [] {
    } else {
      DropTwice(es[1..], ks, ls);
    }
  }

  lemma {:induction false} DropNone(es: seq<Entry>, ks: set<string>)
    requires KeySet(es) !! ks
    ensures Drop(es, ks) == es
  {
    if es == [] {
    } else {
      KeySetStep(es);
      DropNone(es[1..], ks);
    }
  }

  lemma {:induction false} DropAll(es: seq<Entry>, ks: set<string>)
    requires KeySet(es) <= ks
    ensures Drop(es, ks) == []
  {
    if es == [] {
    } else {
      KeySetStep(es);
      DropAll(es[1..], ks);
    }
  }

  lemma {:induction false} KeySetDrop(es: seq<Entry>, ks: set<string>)
    ensures KeySet(Drop(es, ks)) == KeySet(es) - ks
  {
    if es == [] {
    } else {
      KeySetDrop(es[1..], ks);
      KeySetStep(es);
      if es[0].key !in ks {
        KeySetOne(es[0]);
        KeySetConcat([es[0]], Drop(es[1..], ks));
      }
    }
  }

  lemma {:induction false} ChildDrop(es: seq<Entry>, ks: set<string>, key: string)
    requires key !in ks
    ensures Child(Drop(es, ks), key) == Child(es, key)
  {
    if es == [] {
    } else {
      ChildDrop(es[1..], ks, key);
    }
  }

  lemma {:induction false} DropKeeps(es: seq<Entry>, ks: set<string>)
    ensures forall i :: 0 <= i < |Drop(es, ks)| ==> Drop(es, ks)[i] in es
    ensures DistinctKeys(es) ==> DistinctKeys(Drop(es, ks))
  {
    if es == [] {
    } else {
      DropKeeps(es[1..], ks);
      if DistinctKeys(es) { assert DistinctKeys(es[1..]); }
    }
  }

  // ---------- Plain keys ----------

  lemma {:induction false} PlainKeyIsItsPath(key: string)
    requires PlainKey(key)
    ensures Lines(key, '.') == [key] && SplitAll(key, '.') == [key]
  {}

  /** Under a plain key, reading takes the first entry and adding appends one. */
  lemma {:induction false} PlainAccess(t: Tree, key: string, v: Tree)
    requires PlainKey(key)
    ensures GetChild(t, key) == Child(t.children, key)
    ensures AddChild(t, key, v) == Node(t.data, t.children + [Entry(key, v)])
  {
    PlainKeyIsItsPath(key);
    var path := [key];
    assert path[0] == key && path[1..] == [];
    var inner := Child(t.children, key);
    assert Find(inner, []) == Some(inner);
    if !HasKey(t.children, key) { ChildMissing(t.children, key); }
  }

  /** One step of the merge, where the key is not taken apart. */
  lemma {:induction false} ReadAsIsStep(a: Tree, y: Entry, level: nat)
    requires ReadAsIs(y)
    ensures MergeOne(a, y, level) ==
            Node(a.data, Drop(a.children, {y.key}) +
                         [Entry(y.key, MergeTrees(Child(a.children, y.key), y.tree, level + 1))])
  {
    var kept := EraseKey(a, y.key);
    if PlainKey(y.key) {
      PlainAccess(a, y.key, EMPTY_TREE);
      PlainAccess(kept, y.key, MergeTrees(GetChild(a, y.key), y.tree, level + 1));
    } else {
      assert SplitAll("", '.') == [""];
    }
  }

  /** For second trees whose keys are not taken apart the merge is the one whose laws follow. */
  lemma {:induction false} MergeTreesIsMerge(a: Tree, b: Tree, level: nat)
    requires (level > 0 && CopiedWhole(b)) || ReadsPlain(b.children)
    ensures MergeTrees(a, b, level) == Merge(a, b, level)
    decreases b
  {
    if level == 0 || !CopiedWhole(b) { MergeAllEntriesIsMerge(a, b.children, level); }
  }

  lemma {:induction false} MergeAllEntriesIsMerge(a: Tree, ys: seq<Entry>, level: nat)
    requires ReadsPlain(ys)
    ensures MergeAllEntries(a, ys, level) == Node(a.data, MergeEntries(a.children, ys))
    decreases ys
  {
    if ys == [] {
    } else {
      var y := ys[0];
      ReadAsIsStep(a, y, level);
      MergeTreesIsMerge(Child(a.children, y.key), y.tree, level + 1);
      assert MergeOne(a, y, level) == Node(a.data, MergeEntry(a.children, y));
      MergeAllEntriesIsMerge(MergeOne(a, y, level), ys[1..], level);
    }
  }

  lemma {:induction false} WellFormedReadsPlain(es: seq<Entry>)
    requires WellFormedEntries(es)
    ensures ReadsPlain(es)
  {
    forall i | 0 <= i < |es| ensures CopiedWhole(es[i].tree) || ReadsPlain(es[i].tree.children) {
      if !CopiedWhole(es[i].tree) { WellFormedReadsPlain(es[i].tree.children); }
    }
  }

  lemma {:induction false} WellFormedMerge(a: Tree, b: Tree, level: nat)
    requires if level == 0 then WellFormedEntries(b.children) else WellFormed(b)
    ensures MergeTrees(a, b, level) == Merge(a, b, level)
    ensures level == 0 || !CopiedWhole(b) ==> MergeTrees(a, b, level) == MergeAllEntries(a, b.children, level)
  {
    if level == 0 || !CopiedWhole(b) { WellFormedReadsPlain(b.children); }
    MergeTreesIsMerge(a, b, level);
  }

  /** Merging entry by entry keeps the first tree's own data, whatever the keys. */
  lemma {:induction false} MergeKeepsData(a: Tree, ys: seq<Entry>, level: nat)
    ensures MergeAllEntries(a, ys, level).data == a.data
    decreases ys
  {
    if ys == [] {
    } else {
      MergeKeepsData(MergeOne(a, ys[0], level), ys[1..], level);
    }
  }

  /** One entry changes the subtree under its key and under no other. */
  lemma {:induction false} ChildAfterOne(a: Tree, y: Entry, level: nat, key: string)
    requires ReadAsIs(y)
    ensures Child(MergeOne(a, y, level).children, key) ==
            if key == y.key then MergeTrees(Child(a.children, key), y.tree, level + 1) else Child(a.children, key)
  {
    var kept, merged := Drop(a.children, {y.key}), MergeTrees(Child(a.children, y.key), y.tree, level + 1);
    ReadAsIsStep(a, y, level);
    ChildConcat(kept, [Entry(y.key, merged)], key);
    KeySetDrop(a.children, {y.key});
    KeySetIsHasKey(kept, key);
    KeySetIsHasKey(a.children, key);
    if key != y.key {
      ChildDrop(a.children, {y.key}, key);
      if !HasKey(a.children, key) { ChildMissing(a.children, key); }
    }
  }

  /** Entries with distinct keys and any subtrees: each is merged under its own key. */
  lemma {:induction false} ChildAfterAll(a: Tree, ys: seq<Entry>, level: nat, key: string)
    requires DistinctKeys(ys) && forall i :: 0 <= i < |ys| ==> ReadAsIs(ys[i])
    ensures Child(MergeAllEntries(a, ys, level).children, key) ==
            if HasKey(ys, key) then MergeTrees(Child(a.children, key), Child(ys, key), level + 1)
            else Child(a.children, key)
    decreases ys
  {
    if ys == [] {
    } else {
      ChildAfterOne(a, ys[0], level, key);
      ChildAfterAll(MergeOne(a, ys[0], level), ys[1..], level, key);
      HasKeyStep(ys, key);
    }
  }

  // ---------- Contents and order of a merged object ----------

  /** The keys of `es`, each once, ordered by last occurrence. */
  function LastKeys(es: seq<Entry>): seq<string> {
    if es == [] then []
    else if HasKey(es[1..], es[0].key) then LastKeys(es[1..])
    else [es[0].key] + LastKeys(es[1..])
  }

  /** The subtrees stored under `key`, in order. */
  function ValuesOf(es: seq<Entry>, key: string): seq<Tree> {
    if es == [] then []
    else if es[0].key == key then [es[0].tree] + ValuesOf(es[1..], key)
    else ValuesOf(es[1..], key)
  }

  /** Merges a sequence of trees into `c`, first to last. */
  function MergeAll(c: Tree, vs: seq<Tree>): Tree
    decreases vs
  {
    if vs == [] then c else MergeAll(MergeChild(c, vs[0]), vs[1..])
  }

  function Rebuilt(xs: seq<Entry>, ys: seq<Entry>, ks: seq<string>): seq<Entry> {
    seq(|ks|, i requires 0 <= i < |ks| => Entry(ks[i], MergeAll(Child(xs, ks[i]), ValuesOf(ys, ks[i]))))
  }

  lemma {:induction false} LastKeysAreTheKeys(es: seq<Entry>, k: string)
    ensures k in LastKeys(es) <==> HasKey(es, k)
  {
    if es == [] {
    } else {
      HasKeyStep(es, k);
      LastKeysAreTheKeys(es[1..], k);
    }
  }

  lemma {:induction false} NoValuesWithoutKey(es: seq<Entry>, k: string)
    ensures ValuesOf(es, k) == [] <==> !HasKey(es, k)
  {
    if es == [] {
    } else {
      HasKeyStep(es, k);
      NoValuesWithoutKey(es[1..], k);
    }
  }

  /** One step of the merge loop leaves every other key's subtree alone. */
  lemma {:induction false} ChildAfterStep(xs: seq<Entry>, y: Entry, key: string)
    ensures Child(MergeEntry(xs, y), key) ==
            if key == y.key then MergeChild(Child(xs, key), y.tree) else Child(xs, key)
  {
    var kept := Drop(xs, {y.key});
    var moved := [Entry(y.key, MergeChild(Child(xs, y.key), y.tree))];
    ChildConcat(kept, moved, key);
    KeySetDrop(xs, {y.key});
    KeySetIsHasKey(kept, key);
    KeySetIsHasKey(xs, key);
    if key != y.key {
      ChildDrop(xs, {y.key}, key);
      if !HasKey(xs, key) { ChildMissing(xs, key); }
    }
  }

  lemma {:induction false} MergedOrder(xs: seq<Entry>, ys: seq<Entry>)
    ensures MergeEntries(xs, ys) == Drop(xs, KeySet(ys)) + Rebuilt(xs, ys, LastKeys(ys))
    decreases ys
  {
    if ys == [] {
      DropNone(xs, {});
      assert KeySet(ys) == {};
    } else {
      hide Drop, Rebuilt, LastKeys, MergeEntry, Moved, HasKey;
      MergedOrder(MergeEntry(xs, ys[0]), ys[1..]);
      UntouchedStep(xs, ys);
      RebuiltStep(xs, ys, LastKeys(ys[1..]));
      RebuiltLast(xs, ys);
    }
  }

  /** The order law: the untouched children of the first tree keep their place and contents, then
      come the keys of the second tree, once each, by last occurrence. */
  lemma {:induction false} MergeOrder(a: Tree, b: Tree, level: nat)
    requires ReadsPlain(b.children) && (level == 0 || !CopiedWhole(b))
    ensures var ys := b.children;
            MergeTrees(a, b, level) ==
            Node(a.data, Drop(a.children, KeySet(ys)) + Rebuilt(a.children, ys, LastKeys(ys)))
  {
    MergeTreesIsMerge(a, b, level);
    MergedOrder(a.children, b.children);
  }

  lemma {:induction false} RebuiltLast(xs: seq<Entry>, ys: seq<Entry>)
    requires ys != []
    ensures Rebuilt(xs, ys, LastKeys(ys)) ==
            (if HasKey(ys[1..], ys[0].key) then [] else [Moved(xs, ys[0])]) + Rebuilt(xs, ys, LastKeys(ys[1..]))
  {
    var k, rest := ys[0].key, ys[1..];
    if !HasKey(rest, k) {
      NoValuesWithoutKey(rest, k);
      assert ValuesOf(ys, k) == [ys[0].tree];
      assert MergeAll(Child(xs, k), [ys[0].tree]) == Moved(xs, ys[0]).tree;
      RebuiltCons(xs, ys, k, LastKeys(rest));
    }
  }

  lemma {:induction false} RebuiltCons(xs: seq<Entry>, ys: seq<Entry>, k: string, ks: seq<string>)
    ensures Rebuilt(xs, ys, [k] + ks) ==
            [Entry(k, MergeAll(Child(xs, k), ValuesOf(ys, k)))] + Rebuilt(xs, ys, ks)
  {}

  lemma {:induction false} UntouchedStep(xs: seq<Entry>, ys: seq<Entry>)
    requires ys != []
    ensures Drop(MergeEntry(xs, ys[0]), KeySet(ys[1..])) ==
            Drop(xs, KeySet(ys)) + if HasKey(ys[1..], ys[0].key) then [] else [Moved(xs, ys[0])]
  {
    var k, rest := ys[0].key, ys[1..];
    DropConcat(Drop(xs, {k}), [Moved(xs, ys[0])], KeySet(rest));
    DropTwice(xs, {k}, KeySet(rest));
    KeySetStep(ys);
    KeySetIsHasKey(rest, k);
  }

  lemma {:induction false} RebuiltStep(xs: seq<Entry>, ys: seq<Entry>, ks: seq<string>)
    requires ys != []
    ensures Rebuilt(MergeEntry(xs, ys[0]), ys[1..], ks) == Rebuilt(xs, ys, ks)
  {
    forall i | 0 <= i < |ks|
      ensures MergeAll(Child(MergeEntry(xs, ys[0]), ks[i]), ValuesOf(ys[1..], ks[i])) ==
              MergeAll(Child(xs, ks[i]), ValuesOf(ys, ks[i]))
    {
      ChildAfterStep(xs, ys[0], ks[i]);
      if ks[i] == ys[0].key {
        assert ValuesOf(ys, ks[i])[1..] == ValuesOf(ys[1..], ks[i]);
      }
    }
  }

  /** The subtree a merge leaves under a key, for any second list. */
  lemma {:induction false} MergedChild(xs: seq<Entry>, ys: seq<Entry>, key: string)
    ensures Child(MergeEntries(xs, ys), key) == MergeAll(Child(xs, key), ValuesOf(ys, key))
    decreases ys
  {
    if ys == [] {
    } else {
      MergedChild(MergeEntry(xs, ys[0]), ys[1..], key);
      ChildAfterStep(xs, ys[0], key);
      if key == ys[0].key { assert ValuesOf(ys, key)[1..] == ValuesOf(ys[1..], key); }
    }
  }

  lemma {:induction false} MergedKeys(xs: seq<Entry>, ys: seq<Entry>)
    ensures KeySet(MergeEntries(xs, ys)) == KeySet(xs) + KeySet(ys)
    decreases ys
  {
    if ys != [] {
      MergedKeys(MergeEntry(xs, ys[0]), ys[1..]);
      KeySetDrop(xs, {ys[0].key});
      KeySetConcat(Drop(xs, {ys[0].key}), [Moved(xs, ys[0])]);
      KeySetStep(ys);
      KeySetOne(Moved(xs, ys[0]));
    } else {
      assert KeySet(ys) == {};
    }
  }

  // ---------- Idempotence ----------

  function Size(t: Tree): nat
    decreases t
  {
    1 + SizeEntries(t.children)
  }

  function SizeEntries(es: seq<Entry>): nat
    decreases es
  {
    if es == [] then 0 else Size(es[0].tree) + SizeEntries(es[1..])
  }

  function SizeTrees(vs: seq<Tree>): nat {
    if vs == [] then 0 else Size(vs[0]) + SizeTrees(vs[1..])
  }

  function AllChildren(vs: seq<Tree>): seq<Entry> {
    if vs == [] then [] else vs[0].children + AllChildren(vs[1..])
  }

  lemma {:induction false} SizeEntriesConcat(xs: seq<Entry>, ys: seq<Entry>)
    ensures SizeEntries(xs + ys) == SizeEntries(xs) + SizeEntries(ys)
  {
    if xs == [] {
      assert xs + ys == ys;
    } else {
      SizeEntriesConcat(xs[1..], ys);
      assert (xs + ys)[1..] == xs[1..] + ys;
    }
  }

  lemma {:induction false} SizeAllChildren(vs: seq<Tree>)
    ensures SizeEntries(AllChildren(vs)) + |vs| == SizeTrees(vs)
  {
    if vs == [] {
    } else {
      SizeAllChildren(vs[1..]);
      SizeEntriesConcat(vs[0].children, AllChildren(vs[1..]));
    }
  }

  lemma {:induction false} SizeValuesOf(es: seq<Entry>, k: string)
    ensures SizeTrees(ValuesOf(es, k)) <= SizeEntries(es)
  {
    if es == [] {
    } else {
      SizeValuesOf(es[1..], k);
    }
  }

  lemma {:induction false} MergeEntriesConcat(xs: seq<Entry>, ys: seq<Entry>, zs: seq<Entry>)
    ensures MergeEntries(xs, ys + zs) == MergeEntries(MergeEntries(xs, ys), zs)
    decreases ys
  {
    if ys == [] {
      assert ys + zs == zs;
    } else {
      assert (ys + zs)[0] == ys[0] && (ys + zs)[1..] == ys[1..] + zs;
      MergeEntriesConcat(MergeEntry(xs, ys[0]), ys[1..], zs);
    }
  }

  /** Merging objects one after the other is one merge of all their children. */
  lemma {:induction false} MergeAllObjects(c: Tree, vs: seq<Tree>)
    requires forall i :: 0 <= i < |vs| ==> !CopiedWhole(vs[i])
    ensures MergeAll(c, vs) == Node(c.data, MergeEntries(c.children, AllChildren(vs)))
    decreases vs
  {
    if vs == [] {
    } else {
      MergeAllObjects(MergeChild(c, vs[0]), vs[1..]);
      MergeEntriesConcat(c.children, vs[0].children, AllChildren(vs[1..]));
    }
  }

  /** Once a leaf or an array is copied, nothing that was there before matters. */
  lemma {:induction false} MergeAllForgets(c: Tree, d: Tree, vs: seq<Tree>, i: nat)
    requires i < |vs| && CopiedWhole(vs[i])
    ensures MergeAll(c, vs) == MergeAll(d, vs)
    decreases vs
  {
    if i == 0 {
    } else {
      MergeAllForgets(MergeChild(c, vs[0]), MergeChild(d, vs[0]), vs[1..], i - 1);
    }
  }

  lemma {:induction false} MergeAllTwice(c: Tree, vs: seq<Tree>)
    ensures MergeAll(MergeAll(c, vs), vs) == MergeAll(c, vs)
    decreases SizeTrees(vs), 0
  {
    if i :| 0 <= i < |vs| && CopiedWhole(vs[i]) {
      MergeAllForgets(MergeAll(c, vs), c, vs, i);
    } else if vs != [] {
      MergeAllObjects(c, vs);
      MergeAllObjects(MergeAll(c, vs), vs);
      SizeAllChildren(vs);
      MergeEntriesTwice(c.children, AllChildren(vs));
    }
  }

  lemma {:induction false} MergeEntriesTwice(xs: seq<Entry>, ys: seq<Entry>)
    ensures MergeEntries(MergeEntries(xs, ys), ys) == MergeEntries(xs, ys)
    decreases SizeEntries(ys), 1
  {
    hide Drop, MergeEntries, MergeAll, ValuesOf, LastKeys;
    var once, ks := MergeEntries(xs, ys), LastKeys(ys);
    MergedOrder(xs, ys);
    MergedOrder(once, ys);
    DropConcat(Drop(xs, KeySet(ys)), Rebuilt(xs, ys, ks), KeySet(ys));
    DropTwice(xs, KeySet(ys), KeySet(ys));
    assert KeySet(ys) + KeySet(ys) == KeySet(ys);
    forall k | k in KeySet(Rebuilt(xs, ys, ks)) ensures k in KeySet(ys) {
      LastKeysAreTheKeys(ys, k);
      KeySetIsHasKey(ys, k);
    }
    DropAll(Rebuilt(xs, ys, ks), KeySet(ys));
    forall i | 0 <= i < |ks|
      ensures Rebuilt(once, ys, ks)[i] == Rebuilt(xs, ys, ks)[i]
    {
      MergedChild(xs, ys, ks[i]);
      SizeValuesOf(ys, ks[i]);
      MergeAllTwice(Child(xs, ks[i]), ValuesOf(ys, ks[i]));
    }
    assert Rebuilt(once, ys, ks) == Rebuilt(xs, ys, ks);
  }

  /** Merging the same tree again changes nothing, whether or not it holds duplicate keys. */
  lemma {:induction false} MergeIdempotent(a: Tree, b: Tree, level: nat)
    requires (level > 0 && CopiedWhole(b)) || ReadsPlain(b.children)
    ensures MergeTrees(MergeTrees(a, b, level), b, level) == MergeTrees(a, b, level)
  {
    MergeTreesIsMerge(a, b, level);
    MergeTreesIsMerge(MergeTrees(a, b, level), b, level);
    MergeEntriesTwice(a.children, b.children);
  }

  // ---------- Dotted keys ----------

  /** The first component of a key read as a path. */
  function First(key: string): string {
    SplitAll(key, '.')[0]
  }

  lemma {:induction false} FirstHasNoDot(key: string)
    ensures '.' !in First(key) && (|SplitAll(key, '.')| == 1 <==> '.' !in key)
    ensures '.' !in key ==> First(key) == key
  {}

  lemma {:induction false} ReplacedChild(es: seq<Entry>, key: string, v: Tree, other: string)
    ensures Child(Replaced(es, key, v), other) == if other == key then v else Child(es, other)
    ensures SizeEntries(Replaced(es, key, v)) + Size(Child(es, key)) >= SizeEntries(es) + Size(v)
  {
    if es == [] {
    } else if es[0].key != key {
      ReplacedChild(es[1..], key, v, other);
    }
  }

  lemma {:induction false} AddGrows(t: Tree, path: seq<string>, v: Tree)
    requires path != []
    ensures Size(AddAt(t, path, v)) > Size(t)
    decreases path
  {
    if |path| == 1 {
      var added := [Entry(path[0], v)];
      SizeEntriesConcat(t.children, added);
      assert SizeEntries(added) == Size(added[0].tree) + SizeEntries(added[1..]);
    } else {
      var inner := Child(t.children, path[0]);
      AddGrows(inner, path[1..], v);
      ReplacedChild(t.children, path[0], AddAt(inner, path[1..], v), "");
    }
  }

  lemma {:induction false} AddElsewhere(t: Tree, path: seq<string>, v: Tree, key: string)
    requires path != [] && path[0] != key
    ensures Child(AddAt(t, path, v).children, key) == Child(t.children, key)
  {
    if |path| == 1 {
      ChildConcat(t.children, [Entry(path[0], v)], key);
      if !HasKey(t.children, key) { ChildMissing(t.children, key); }
    } else {
      ReplacedChild(t.children, path[0], AddAt(Child(t.children, path[0]), path[1..], v), key);
    }
  }

  /** An entry whose key starts elsewhere leaves a subtree alone; one whose key is dotted makes the
      subtree under its first component bigger. */
  lemma {:induction false} StepUnderFirst(a: Tree, y: Entry, level: nat, key: string)
    requires '.' !in key
    ensures First(y.key) != key ==> Child(MergeOne(a, y, level).children, key) == Child(a.children, key)
    ensures First(y.key) == key && '.' in y.key ==>
              Size(Child(MergeOne(a, y, level).children, key)) > Size(Child(a.children, key))
  {
    var kept, merged := EraseKey(a, y.key), MergeTrees(GetChild(a, y.key), y.tree, level + 1);
    var path := SplitAll(y.key, '.');
    FirstHasNoDot(y.key);
    if First(y.key) != key {
      ChildDrop(a.children, {y.key}, key);
      AddElsewhere(kept, path, merged, key);
    } else if '.' in y.key {
      ChildDrop(a.children, {y.key}, key);
      var inner := Child(kept.children, key);
      AddGrows(inner, path[1..], merged);
      ReplacedChild(kept.children, key, AddAt(inner, path[1..], merged), key);
    }
  }

  /** No entry has just this key. */
  predicate Unset(es: seq<Entry>, key: string) {
    forall i :: 0 <= i < |es| ==> es[i].key != key
  }

  lemma {:induction false} MergeNeverShrinks(a: Tree, ys: seq<Entry>, level: nat, key: string)
    requires '.' !in key && Unset(ys, key)
    ensures Size(Child(MergeAllEntries(a, ys, level).children, key)) >= Size(Child(a.children, key))
    decreases ys
  {
    if ys == [] {
    } else {
      StepUnderFirst(a, ys[0], level, key);
      FirstHasNoDot(ys[0].key);
      MergeNeverShrinks(MergeOne(a, ys[0], level), ys[1..], level, key);
    }
  }

  /** What is under a dotted key is not replaced, unless its first component is a key as well: every
      merge adds another entry, and the tree grows. */
  lemma {:induction false} DottedKeysPileUp(a: Tree, ys: seq<Entry>, level: nat, i: nat)
    requires i < |ys| && '.' in ys[i].key && Unset(ys, First(ys[i].key))
    ensures var key := First(ys[i].key);
            Size(Child(MergeAllEntries(a, ys, level).children, key)) > Size(Child(a.children, key))
    decreases ys
  {
    var key := First(ys[i].key);
    FirstHasNoDot(ys[i].key);
    StepUnderFirst(a, ys[0], level, key);
    FirstHasNoDot(ys[0].key);
    if i == 0 {
      MergeNeverShrinks(MergeOne(a, ys[0], level), ys[1..], level, key);
    } else {
      DottedKeysPileUp(MergeOne(a, ys[0], level), ys[1..], level, i - 1);
    }
  }

  /** At every level, the keys that are not dotted are distinct, none is the start of a dotted one,
      and the empty key holds a leaf or an array. */
  ghost predicate Separate(es: seq<Entry>) {
    && (forall i, j :: 0 <= i < j < |es| && es[i].key == es[j].key ==> '.' in es[i].key)
    && (forall i :: 0 <= i < |es| && '.' in es[i].key ==> Unset(es, First(es[i].key)))
    && (forall i :: 0 <= i < |es| && es[i].key == "" ==> CopiedWhole(es[i].tree))
    && (forall i :: 0 <= i < |es| ==> CopiedWhole(es[i].tree) || Separate(es[i].tree.children))
  }

  /** Whatever it is merged into, a tree with a dotted key at some level leaves another tree the
      second time. */
  lemma {:induction false} DottedNeverIdempotent(a: Tree, b: Tree, level: nat)
    requires Separate(b.children) && !ReadsPlain(b.children)
    ensures var once := MergeAllEntries(a, b.children, level);
            MergeAllEntries(once, b.children, level) != once
    decreases b
  {
    hide First;
    var once, ys := MergeAllEntries(a, b.children, level), b.children;
    if i :| 0 <= i < |ys| && '.' in ys[i].key {
      DottedKeysPileUp(once, ys, level, i);
    } else {
      assert forall i :: 0 <= i < |ys| ==> ReadAsIs(ys[i]);
      var i :| 0 <= i < |ys| && !CopiedWhole(ys[i].tree) && !ReadsPlain(ys[i].tree.children);
      var key, v := ys[i].key, ys[i].tree;
      ChildAt(ys, i);
      assert HasKey(ys, key);
      ChildAfterAll(a, ys, level, key);
      ChildAfterAll(once, ys, level, key);
      DottedNeverIdempotent(Child(a.children, key), v, level + 1);
    }
  }

  lemma {:induction false} DottedAtTheRoot(a: Tree, b: Tree)
    requires Separate(b.children) && !ReadsPlain(b.children)
    ensures MergeTrees(MergeTrees(a, b, 0), b, 0) != MergeTrees(a, b, 0)
  {
    DottedNeverIdempotent(a, b, 0);
  }

  /** Merging twice is merging once exactly when no key, at any level, is dotted. */
  lemma {:induction false} MergeIdempotentExactly(b: Tree)
    requires Separate(b.children)
    ensures (forall a :: MergeTrees(MergeTrees(a, b, 0), b, 0) == MergeTrees(a, b, 0)) <==>
            ReadsPlain(b.children)
  {
    hide MergeTrees;
    if ReadsPlain(b.children) {
      forall a ensures MergeTrees(MergeTrees(a, b, 0), b, 0) == MergeTrees(a, b, 0) {
        MergeIdempotent(a, b, 0);
      }
    } else {
      DottedAtTheRoot(EMPTY_TREE, b);
    }
  }

  lemma {:induction false} DropReplaced(es: seq<Entry>, key: string, v: Tree)
    ensures Drop(Replaced(es, key, v), {key}) == Drop(es, {key})
  {
    if es == [] {
    } else if es[0].key != key {
      DropReplaced(es[1..], key, v);
    }
  }

  /** An entry whose key starts with a component changes nothing but what is under that component. */
  lemma {:induction false} DropUnderFirst(a: Tree, y: Entry, level: nat)
    ensures Drop(MergeOne(a, y, level).children, {First(y.key)}) == Drop(a.children, {y.key, First(y.key)})
    ensures MergeOne(a, y, level).data == a.data
  {
    var kept, merged := EraseKey(a, y.key), MergeTrees(GetChild(a, y.key), y.tree, level + 1);
    var path := SplitAll(y.key, '.');
    if |path| == 1 {
      DropConcat(kept.children, [Entry(path[0], merged)], {path[0]});
      assert Drop([Entry(path[0], merged)], {path[0]}) == [];
    } else {
      DropReplaced(kept.children, path[0], AddAt(Child(kept.children, path[0]), path[1..], merged));
    }
    DropTwice(a.children, {y.key}, {First(y.key)});
    assert {y.key} + {First(y.key)} == {y.key, First(y.key)};
  }

  lemma {:induction false} LeafComesLast(a: Tree, zs: seq<Entry>, x: string, c: Tree, level: nat)
    requires PlainKey(x) && CopiedWhole(c) && forall i :: 0 <= i < |zs| ==> First(zs[i].key) == x
    ensures MergeAllEntries(a, zs + [Entry(x, c)], level) ==
            Node(a.data, Drop(a.children, KeySet(zs) + {x}) + [Entry(x, c)])
    decreases zs
  {
    if zs == [] {
      assert zs + [Entry(x, c)] == [Entry(x, c)] && [Entry(x, c)][1..] == [];
      assert KeySet(zs) + {x} == {x};
      ReadAsIsStep(a, Entry(x, c), level);
      assert MergeAllEntries(MergeOne(a, Entry(x, c), level), [], level) == MergeOne(a, Entry(x, c), level);
    } else {
      hide First;
      var z, rest, next := zs[0], zs[1..], MergeOne(a, zs[0], level);
      assert (zs + [Entry(x, c)])[0] == z && (zs + [Entry(x, c)])[1..] == rest + [Entry(x, c)];
      LeafComesLast(next, rest, x, c, level);
      DropUnderFirst(a, z, level);
      DropTwice(next.children, {x}, KeySet(rest) + {x});
      DropTwice(a.children, {z.key, x}, KeySet(rest) + {x});
      KeySetStep(zs);
      assert {x} + (KeySet(rest) + {x}) == KeySet(rest) + {x};
      assert {z.key, x} + (KeySet(rest) + {x}) == KeySet(zs) + {x};
    }
  }

  /** A leaf or an array that comes last under the first component of dotted keys undoes what they
      added, and merging twice is merging once all the same. */
  lemma {:induction false} LaterLeafUndoes(a: Tree, zs: seq<Entry>, x: string, c: Tree, level: nat)
    requires PlainKey(x) && CopiedWhole(c) && forall i :: 0 <= i < |zs| ==> First(zs[i].key) == x
    ensures var ys := zs + [Entry(x, c)];
            MergeAllEntries(MergeAllEntries(a, ys, level), ys, level) == MergeAllEntries(a, ys, level)
  {
    hide First, MergeAllEntries;
    var ks, last := KeySet(zs) + {x}, [Entry(x, c)];
    LeafComesLast(a, zs, x, c, level);
    LeafComesLast(MergeAllEntries(a, zs + last, level), zs, x, c, level);
    DropConcat(Drop(a.children, ks), last, ks);
    DropTwice(a.children, ks, ks);
    assert ks + ks == ks;
    assert Drop(last, ks) == [] by { assert last[1..] == []; }
  }

  // ---------- Second trees without duplicate keys ----------

  function Mapped(xs: seq<Entry>, ys: seq<Entry>): seq<Entry> {
    seq(|ys|, i requires 0 <= i < |ys| => Entry(ys[i].key, MergeChild(Child(xs, ys[i].key), ys[i].tree)))
  }

  lemma {:induction false} DistinctValues(es: seq<Entry>, i: nat)
    requires DistinctKeys(es) && i < |es|
    ensures ValuesOf(es, es[i].key) == [es[i].tree]
  {
    var rest := es[1..];
    if i == 0 {
      NoValuesWithoutKey(rest, es[0].key);
    } else {
      DistinctValues(rest, i - 1);
    }
  }

  lemma {:induction false} DistinctLastKeys(es: seq<Entry>)
    requires DistinctKeys(es)
    ensures LastKeys(es) == seq(|es|, i requires 0 <= i < |es| => es[i].key)
  {
    if es == [] {
    } else {
      DistinctLastKeys(es[1..]);
    }
  }

  lemma {:induction false} MergeDistinct(xs: seq<Entry>, ys: seq<Entry>)
    requires DistinctKeys(ys)
    ensures MergeEntries(xs, ys) == Drop(xs, KeySet(ys)) + Mapped(xs, ys)
  {
    MergedOrder(xs, ys);
    DistinctLastKeys(ys);
    forall i | 0 <= i < |ys|
      ensures Rebuilt(xs, ys, LastKeys(ys))[i] == Mapped(xs, ys)[i]
    {
      DistinctValues(ys, i);
      assert MergeAll(Child(xs, ys[i].key), [ys[i].tree]) == MergeChild(Child(xs, ys[i].key), ys[i].tree);
    }
    assert Rebuilt(xs, ys, LastKeys(ys)) == Mapped(xs, ys);
  }

  lemma KeySetMapped(xs: seq<Entry>, ys: seq<Entry>)
    ensures KeySet(Mapped(xs, ys)) == KeySet(ys)
    ensures DistinctKeys(ys) ==> DistinctKeys(Mapped(xs, ys))
  {
    forall k | k in KeySet(ys) ensures k in KeySet(Mapped(xs, ys)) {
      var i :| 0 <= i < |ys| && ys[i].key == k;
      assert Mapped(xs, ys)[i].key == k;
    }
  }

  lemma {:induction false} MergedDistinctKeys(xs: seq<Entry>, ys: seq<Entry>)
    requires DistinctKeys(xs) && DistinctKeys(ys)
    ensures DistinctKeys(MergeEntries(xs, ys))
  {
    MergeDistinct(xs, ys);
    DropKeeps(xs, KeySet(ys));
    KeySetDrop(xs, KeySet(ys));
    KeySetMapped(xs, ys);
    var kept, moved := Drop(xs, KeySet(ys)), Mapped(xs, ys);
    var all := kept + moved;
    forall i, j | 0 <= i < j < |all| ensures all[i].key != all[j].key {
      if i < |kept| <= j {
        assert kept[i].key in KeySet(kept);
        assert moved[j - |kept|].key in KeySet(moved);
      }
    }
  }

  /** Merging an object leaves an object. */
  lemma {:induction false} MergedIsObject(c: Tree, v: Tree)
    requires WellFormed(v) && !CopiedWhole(v)
    ensures !CopiedWhole(MergeChild(c, v))
  {
    MergedKeys(c.children, v.children);
    var k := v.children[0].key;
    assert k in KeySet(v.children);
    var i :| 0 <= i < |MergeChild(c, v).children| && MergeChild(c, v).children[i].key == k;
  }

  // ---------- Associativity ----------

  /** Merging into the empty tree first makes no difference to a later merge. */
  lemma {:induction false} MergeThroughEmpty(xs: seq<Entry>, zs: seq<Entry>)
    requires WellFormedEntries(zs) && DistinctEntries(zs)
    ensures MergeEntries(xs, MergeEntries([], zs)) == MergeEntries(xs, zs)
    decreases zs
  {
    MergeDistinct([], zs);
    MergeDistinct(xs, zs);
    KeySetMapped([], zs);
    var ds := Mapped([], zs);
    assert MergeEntries([], zs) == ds;
    MergeDistinct(xs, ds);
    forall i | 0 <= i < |zs| ensures Mapped(xs, ds)[i] == Mapped(xs, zs)[i] {
      var x, v := Child(xs, zs[i].key), zs[i].tree;
      if !CopiedWhole(v) {
        MergeThroughEmpty(x.children, v.children);
        MergedIsObject(EMPTY_TREE, v);
      }
    }
    assert Mapped(xs, ds) == Mapped(xs, zs);
  }

  /** Wherever `zs` has an object and `ys` has anything at all, `ys` has an object too. */
  ghost predicate Compatible(ys: seq<Entry>, zs: seq<Entry>)
    decreases zs
  {
    forall i :: 0 <= i < |zs| && HasKey(ys, zs[i].key) && !CopiedWhole(zs[i].tree) ==>
      !CopiedWhole(Child(ys, zs[i].key)) &&
      Compatible(Child(ys, zs[i].key).children, zs[i].tree.children)
  }

  lemma {:induction false} MergeEntriesAssociative(xs: seq<Entry>, ys: seq<Entry>, zs: seq<Entry>)
    requires WellFormedEntries(ys) && DistinctEntries(ys)
    requires WellFormedEntries(zs) && DistinctEntries(zs)
    requires Compatible(ys, zs)
    ensures MergeEntries(MergeEntries(xs, ys), zs) == MergeEntries(xs, MergeEntries(ys, zs))
    decreases zs
  {
    hide Drop, MergeEntries, WellFormedEntries, Compatible;
    var kz, ky := KeySet(zs), KeySet(ys);
    var xy, ds := MergeEntries(xs, ys), MergeEntries(ys, zs);
    // The left-hand side, split by where each child comes from.
    MergeDistinct(xs, ys);
    MergeDistinct(xy, zs);
    DropConcat(Drop(xs, ky), Mapped(xs, ys), kz);
    DropTwice(xs, ky, kz);
    DropMapped(xs, ys, kz);
    // The right-hand side, split the same way.
    MergeDistinct(ys, zs);
    MergedDistinctKeys(ys, zs);
    MergeDistinct(xs, ds);
    MergedKeys(ys, zs);
    MappedConcat(xs, Drop(ys, kz), Mapped(ys, zs));
    assert Mapped(xy, zs) == Mapped(xs, Mapped(ys, zs)) by {
      forall i | 0 <= i < |zs| ensures Mapped(xy, zs)[i] == Mapped(xs, Mapped(ys, zs))[i] {
        ChildAssociative(xs, ys, zs, i);
      }
    }
  }

  lemma {:induction false} DropMapped(xs: seq<Entry>, ys: seq<Entry>, ks: set<string>)
    ensures Drop(Mapped(xs, ys), ks) == Mapped(xs, Drop(ys, ks))
  {
    if ys == [] {
    } else {
      assert Mapped(xs, ys)[1..] == Mapped(xs, ys[1..]);
      DropMapped(xs, ys[1..], ks);
      if ys[0].key !in ks {
        assert Mapped(xs, Drop(ys, ks)) == [Mapped(xs, ys)[0]] + Mapped(xs, Drop(ys[1..], ks));
      }
    }
  }

  lemma MappedConcat(xs: seq<Entry>, ys: seq<Entry>, zs: seq<Entry>)
    ensures Mapped(xs, ys + zs) == Mapped(xs, ys) + Mapped(xs, zs)
  {}

  lemma {:induction false} ChildAssociative(xs: seq<Entry>, ys: seq<Entry>, zs: seq<Entry>, i: nat)
    requires WellFormedEntries(ys) && DistinctEntries(ys)
    requires WellFormedEntries(zs) && DistinctEntries(zs)
    requires Compatible(ys, zs) && i < |zs|
    ensures var k, v := zs[i].key, zs[i].tree;
            MergeChild(Child(MergeEntries(xs, ys), k), v) == MergeChild(Child(xs, k), MergeChild(Child(ys, k), v))
    decreases zs, 0
  {
    var k, v := zs[i].key, zs[i].tree;
    var x := Child(xs, k);
    MergedChild(xs, ys, k);
    if !CopiedWhole(v) {
      MergedIsObject(Child(ys, k), v);
      if HasKey(ys, k) {
        var j := ChildIsSomeEntry(ys, k);
        DistinctValues(ys, j);
        assert MergeAll(x, [ys[j].tree]) == MergeChild(x, ys[j].tree);
        MergeEntriesAssociative(x.children, ys[j].tree.children, v.children);
      } else {
        NoValuesWithoutKey(ys, k);
        ChildMissing(ys, k);
        MergeThroughEmpty(x.children, v.children);
      }
    }
  }

  /** Second trees merged into one another stay well formed and free of duplicates. */
  lemma {:induction false} MergedWellFormed(ys: seq<Entry>, zs: seq<Entry>)
    requires WellFormedEntries(ys) && DistinctEntries(ys)
    requires WellFormedEntries(zs) && DistinctEntries(zs)
    requires Compatible(ys, zs)
    ensures WellFormedEntries(MergeEntries(ys, zs)) && DistinctEntries(MergeEntries(ys, zs))
    decreases zs
  {
    MergeDistinct(ys, zs);
    MergedDistinctKeys(ys, zs);
    DropKeeps(ys, KeySet(zs));
    forall i | 0 <= i < |zs|
      ensures WellFormed(Mapped(ys, zs)[i].tree) && Distinct(Mapped(ys, zs)[i].tree)
    {
      var k, v := zs[i].key, zs[i].tree;
      if !CopiedWhole(v) {
        if HasKey(ys, k) {
          var j := ChildIsSomeEntry(ys, k);
          MergedWellFormed(ys[j].tree.children, v.children);
        } else {
          ChildMissing(ys, k);
          MergedWellFormed([], v.children);
        }
      }
    }
  }

  /** The data of a leaf or an array survives when an object is merged into it first, and the first
      tree's data when the object comes last. */
  lemma LeafTellsApart(met: Tree, v: Tree, level: nat) returns (x: Tree)
    requires CopiedWhole(met) && !CopiedWhole(v) && WellFormed(v) && level > 0
    ensures MergeTrees(MergeTrees(x, met, level), v, level) != MergeTrees(x, MergeTrees(met, v, level), level)
  {
    x := Node(met.data + "x", []);
    assert |x.data| == |met.data| + 1;
    MergedIsObject(met, v);
    WellFormedMerge(met, v, level);
    MergeKeepsData(met, v.children, level);
    MergeKeepsData(x, MergeTrees(met, v, level).children, level);
  }

  lemma {:induction false} ObjectTellsApart(met: Tree, v: Tree, level: nat, x: Tree)
    requires !CopiedWhole(met) && !CopiedWhole(v) && WellFormed(v)
    requires MergeAllEntries(MergeAllEntries(x, met.children, level), v.children, level) !=
             MergeAllEntries(x, MergeAllEntries(met, v.children, level).children, level)
    ensures MergeTrees(MergeTrees(x, met, level), v, level) != MergeTrees(x, MergeTrees(met, v, level), level)
  {
    if level > 0 {
      MergedIsObject(met, v);
      WellFormedMerge(met, v, level);
    }
  }

  /** The two orders of merging, read under a key of the third tree. */
  lemma {:induction false} ChildrenBothWays(a: Tree, b: Tree, c: Tree, level: nat, i: nat)
    requires WellFormedEntries(b.children) && DistinctEntries(b.children)
    requires WellFormedEntries(c.children) && DistinctEntries(c.children)
    requires i < |c.children| && HasKey(b.children, c.children[i].key)
    ensures var k, v := c.children[i].key, c.children[i].tree;
            var x, met := Child(a.children, k), Child(b.children, k);
            && Child(MergeAllEntries(MergeAllEntries(a, b.children, level), c.children, level).children, k) ==
               MergeTrees(MergeTrees(x, met, level + 1), v, level + 1)
            && Child(MergeAllEntries(a, MergeAllEntries(b, c.children, level).children, level).children, k) ==
               MergeTrees(x, MergeTrees(met, v, level + 1), level + 1)
  {
    var ys, zs, k := b.children, c.children, c.children[i].key;
    ChildAt(zs, i);
    assert HasKey(zs, k);
    ChildAfterAll(a, ys, level, k);
    ChildAfterAll(MergeAllEntries(a, ys, level), zs, level, k);
    ChildAfterAll(b, zs, level, k);
    WellFormedReadsPlain(zs);
    MergeAllEntriesIsMerge(b, zs, level);
    MergedDistinctKeys(ys, zs);
    MergedKeys(ys, zs);
    var ds := MergeEntries(ys, zs);
    forall m | 0 <= m < |ds| ensures PlainKey(ds[m].key) {
      assert ds[m].key in KeySet(ds);
    }
    KeySetIsHasKey(zs, k);
    KeySetIsHasKey(ds, k);
    ChildAfterAll(a, ds, level, k);
  }

  lemma IncompatibleAt(ys: seq<Entry>, zs: seq<Entry>) returns (i: nat)
    requires !Compatible(ys, zs)
    ensures i < |zs| && HasKey(ys, zs[i].key) && !CopiedWhole(zs[i].tree)
    ensures var met := Child(ys, zs[i].key);
            CopiedWhole(met) || !Compatible(met.children, zs[i].tree.children)
  {
    i :| 0 <= i < |zs| && HasKey(ys, zs[i].key) && !CopiedWhole(zs[i].tree) &&
         (!CopiedWhole(Child(ys, zs[i].key)) ==>
            !Compatible(Child(ys, zs[i].key).children, zs[i].tree.children));
  }

  /** What tells the two orders apart under a key tells them apart. */
  lemma {:induction false} ApartUnderKey(b: Tree, c: Tree, level: nat, i: nat, x: Tree)
    requires WellFormedEntries(b.children) && DistinctEntries(b.children)
    requires WellFormedEntries(c.children) && DistinctEntries(c.children)
    requires i < |c.children| && HasKey(b.children, c.children[i].key)
    requires var met, v := Child(b.children, c.children[i].key), c.children[i].tree;
             MergeTrees(MergeTrees(x, met, level + 1), v, level + 1) !=
             MergeTrees(x, MergeTrees(met, v, level + 1), level + 1)
    ensures var a := Node("", [Entry(c.children[i].key, x)]);
            MergeAllEntries(MergeAllEntries(a, b.children, level), c.children, level) !=
            MergeAllEntries(a, MergeAllEntries(b, c.children, level).children, level)
  {
    hide MergeTrees, MergeAllEntries, WellFormedEntries, DistinctEntries;
    ChildrenBothWays(Node("", [Entry(c.children[i].key, x)]), b, c, level, i);
  }

  /** Where an object meets a leaf or an array, some first tree tells the two orders apart. */
  lemma {:induction false} IncompatibleWitness(b: Tree, c: Tree, level: nat) returns (a: Tree)
    requires WellFormedEntries(b.children) && DistinctEntries(b.children)
    requires WellFormedEntries(c.children) && DistinctEntries(c.children)
    requires !Compatible(b.children, c.children)
    ensures MergeAllEntries(MergeAllEntries(a, b.children, level), c.children, level) !=
            MergeAllEntries(a, MergeAllEntries(b, c.children, level).children, level)
    decreases c
  {
    hide MergeTrees, MergeAllEntries, Compatible, CopiedWhole;
    var i := IncompatibleAt(b.children, c.children);
    var k, v := c.children[i].key, c.children[i].tree;
    var j := ChildIsSomeEntry(b.children, k);
    var met := b.children[j].tree;
    var x: Tree;
    if CopiedWhole(met) {
      x := LeafTellsApart(met, v, level + 1);
    } else {
      x := IncompatibleWitness(met, v, level + 1);
      ObjectTellsApart(met, v, level + 1, x);
    }
    ApartUnderKey(b, c, level, i, x);
    a := Node("", [Entry(k, x)]);
  }

  /** Merging is associative, child order and data included, for every first tree exactly when
      no object of the third tree meets a leaf or an array of the second. */
  lemma {:induction false} MergeAssociativeExactly(b: Tree, c: Tree)
    requires WellFormedEntries(b.children) && DistinctEntries(b.children)
    requires WellFormedEntries(c.children) && DistinctEntries(c.children)
    ensures (forall a :: MergeTrees(MergeTrees(a, b, 0), c, 0) == MergeTrees(a, MergeTrees(b, c, 0), 0)) <==>
            Compatible(b.children, c.children)
  {
    if Compatible(b.children, c.children) {
      MergedWellFormed(b.children, c.children);
      WellFormedMerge(b, c, 0);
      forall a ensures MergeTrees(MergeTrees(a, b, 0), c, 0) == MergeTrees(a, MergeTrees(b, c, 0), 0) {
        WellFormedMerge(a, b, 0);
        WellFormedMerge(MergeTrees(a, b, 0), c, 0);
        WellFormedMerge(a, MergeTrees(b, c, 0), 0);
        MergeEntriesAssociative(a.children, b.children, c.children);
      }
    } else {
      var a := IncompatibleWitness(b, c, 0);
      assert MergeTrees(MergeTrees(a, b, 0), c, 0) != MergeTrees(a, MergeTrees(b, c, 0), 0);
    }
  }

  // ---------- Lookup ----------

  /** One step down a tree: to the nth of the children under a key. */
  datatype Step = Step(key: string, nth: nat)

  /** The node a route leads to; routes reach every node, the elements of arrays included. */
  function At(t: Tree, route: seq<Step>): Option<Tree>
    decreases route
  {
    if route == [] then Some(t)
    else
      var vs := ValuesOf(t.children, route[0].key);
      if route[0].nth < |vs| then At(vs[route[0].nth], route[1..]) else None
  }

  function Keys(route: seq<Step>): seq<string> {
    seq(|route|, i requires 0 <= i < |route| => route[i].key)
  }

  /** The route along which the library reads a path: first occurrences only. */
  function Firsts(path: seq<string>): seq<Step> {
    seq(|path|, i requires 0 <= i < |path| => Step(path[i], 0))
  }

  lemma {:induction false} ChildIsFirstValue(es: seq<Entry>, key: string)
    ensures Child(es, key) == if ValuesOf(es, key) == [] then EMPTY_TREE else ValuesOf(es, key)[0]
  {
    if es == [] {
    } else if es[0].key != key {
      ChildIsFirstValue(es[1..], key);
    }
  }

  lemma {:induction false} FindIsAt(t: Tree, path: seq<string>)
    ensures Find(t, path) == At(t, Firsts(path))
    decreases path
  {
    if path == [] {
    } else {
      NoValuesWithoutKey(t.children, path[0]);
      ChildIsFirstValue(t.children, path[0]);
      assert Firsts(path)[0] == Step(path[0], 0) && Firsts(path)[1..] == Firsts(path[1..]);
      FindIsAt(Child(t.children, path[0]), path[1..]);
    }
  }

  lemma {:induction false} ValuesOfConcat(xs: seq<Entry>, ys: seq<Entry>, key: string)
    ensures ValuesOf(xs + ys, key) == ValuesOf(xs, key) + ValuesOf(ys, key)
  {
    if xs == [] {
      assert xs + ys == ys;
    } else {
      ValuesOfConcat(xs[1..], ys, key);
      assert (xs + ys)[1..] == xs[1..] + ys;
    }
  }

  lemma {:induction false} ValuesOfDrop(es: seq<Entry>, ks: set<string>, key: string)
    ensures ValuesOf(Drop(es, ks), key) == if key in ks then [] else ValuesOf(es, key)
  {
    if es == [] {
    } else {
      ValuesOfDrop(es[1..], ks, key);
    }
  }

  /** Under a key of the second list there is one value after a merge; the others stay. */
  lemma {:induction false} MergedValues(xs: seq<Entry>, ys: seq<Entry>, key: string)
    ensures ValuesOf(MergeEntries(xs, ys), key) ==
            if HasKey(ys, key) then [MergeAll(Child(xs, key), ValuesOf(ys, key))] else ValuesOf(xs, key)
    decreases ys
  {
    if ys == [] {
    } else {
      var y, rest := ys[0], ys[1..];
      ValuesOfDrop(xs, {y.key}, key);
      ValuesOfConcat(Drop(xs, {y.key}), [Moved(xs, y)], key);
      MergedValues(MergeEntry(xs, y), rest, key);
      ChildAfterStep(xs, y, key);
      HasKeyStep(ys, key);
      NoValuesWithoutKey(rest, key);
      if y.key == key { assert ValuesOf(ys, key)[1..] == ValuesOf(rest, key); }
    }
  }

  /** How a route runs through the second tree: it leaves it at an object that lacks the next key;
      it reaches or passes what is put in place whole, where there may be no such node; or it ends at
      an object. */
  datatype Reach = Outside | Copied(found: Option<Tree>) | Inside(object_: Tree)

  function Reaches(b: Tree, route: seq<Step>): Reach
    decreases route
  {
    if route == [] then Inside(b)
    else if !HasKey(b.children, route[0].key) then Outside
    else if route[0].nth > 0 then Copied(None)
    else
      var v := Child(b.children, route[0].key);
      if CopiedWhole(v) then Copied(At(v, route[1..])) else Reaches(v, route[1..])
  }

  /** What a merge makes of the node at the end of a route. */
  function NodeAfter(reach: Reach, before: Option<Tree>): Option<Tree> {
    match reach
    case Outside => before
    case Copied(found) => found
    case Inside(o) => Some(MergeTrees(before.GetOr(EMPTY_TREE), o, 0))
  }

  /** The lookup law: what any route finds after a merge, in terms of the two trees alone. */
  lemma {:induction false} MergeLookup(a: Tree, b: Tree, route: seq<Step>)
    requires ReadsPlain(b.children) && DistinctEntries(b.children)
    ensures At(MergeTrees(a, b, 0), route) == NodeAfter(Reaches(b, route), At(a, route))
    decreases route
  {
    if route == [] {
    } else {
      var k, rest := route[0].key, route[1..];
      MergeTreesIsMerge(a, b, 0);
      MergedValues(a.children, b.children, k);
      if HasKey(b.children, k) && route[0].nth == 0 {
        var j := ChildIsSomeEntry(b.children, k);
        DistinctValues(b.children, j);
        var x, v := Child(a.children, k), b.children[j].tree;
        assert MergeAll(x, [v]) == MergeChild(x, v);
        ChildIsFirstValue(a.children, k);
        if !CopiedWhole(v) {
          MergeTreesIsMerge(x, v, 0);
          MergeLookup(x, v, rest);
          EmptyHasNothing(rest);
        }
      }
    }
  }

  lemma {:induction false} EmptyHasNothing(route: seq<Step>)
    ensures At(EMPTY_TREE, route) == if route == [] then Some(EMPTY_TREE) else None
  {}

  /** The data at the end of a route, if there is a node. */
  function DataAt(t: Tree, route: seq<Step>): Option<string> {
    match At(t, route) case Some(n) => Some(n.data) case None => None
  }

  /** The data the library reads along a path. */
  function Data(t: Tree, path: seq<string>): Option<string> {
    match Find(t, path) case Some(n) => Some(n.data) case None => None
  }

  /** What a merge makes of the data at the end of a route. */
  function DataAfter(reach: Reach, before: Option<string>): Option<string> {
    match reach
    case Outside => before
    case Copied(found) => (match found case Some(n) => Some(n.data) case None => None)
    case Inside(_) => Some(before.GetOr(""))
  }

  lemma {:induction false} MergeData(a: Tree, b: Tree, route: seq<Step>)
    requires ReadsPlain(b.children) && DistinctEntries(b.children)
    ensures DataAt(MergeTrees(a, b, 0), route) == DataAfter(Reaches(b, route), DataAt(a, route))
  {
    MergeLookup(a, b, route);
    var reach := Reaches(b, route);
    if reach.Inside? { MergeKeepsData(At(a, route).GetOr(EMPTY_TREE), reach.object_.children, 0); }
  }

  // ---------- Trees that are alike ----------

  /** Trees that differ at most in how the children under different keys are interleaved: the same
      routes lead to nodes, and to the same data. */
  ghost predicate Alike(a: Tree, b: Tree) {
    forall route :: DataAt(a, route) == DataAt(b, route)
  }

  /** Under a key, equally many values, alike one by one. */
  ghost predicate AlikeUnder(a: Tree, b: Tree, k: string) {
    var vs, ws := ValuesOf(a.children, k), ValuesOf(b.children, k);
    |vs| == |ws| && forall i :: 0 <= i < |vs| ==> Alike(vs[i], ws[i])
  }

  lemma {:induction false} StepData(t: Tree, k: string, i: nat, route: seq<Step>)
    ensures var vs := ValuesOf(t.children, k);
            DataAt(t, [Step(k, i)] + route) == if i < |vs| then DataAt(vs[i], route) else None
  {
    var longer := [Step(k, i)] + route;
    assert longer[0] == Step(k, i) && longer[1..] == route;
  }

  lemma AlikeStep(a: Tree, b: Tree, k: string)
    requires Alike(a, b)
    ensures AlikeUnder(a, b, k)
  {
    var vs, ws := ValuesOf(a.children, k), ValuesOf(b.children, k);
    StepData(a, k, |ws|, []);
    StepData(b, k, |ws|, []);
    StepData(a, k, |vs|, []);
    StepData(b, k, |vs|, []);
    forall i, route | 0 <= i < |vs| ensures DataAt(vs[i], route) == DataAt(ws[i], route) {
      StepData(a, k, i, route);
      StepData(b, k, i, route);
    }
  }

  /** Alike trees are those with the same data and, under each key, as many values, alike again. */
  lemma AlikeExactly(a: Tree, b: Tree)
    ensures Alike(a, b) <==> a.data == b.data && forall k :: AlikeUnder(a, b, k)
  {
    if Alike(a, b) {
      assert DataAt(a, []) == DataAt(b, []);
      forall k ensures AlikeUnder(a, b, k) {
        AlikeStep(a, b, k);
      }
    } else {
      var route: seq<Step> :| DataAt(a, route) != DataAt(b, route);
      if route != [] && AlikeUnder(a, b, route[0].key) {
        var vs, i := ValuesOf(a.children, route[0].key), route[0].nth;
        assert i < |vs| ==> DataAt(vs[i], route[1..]) == DataAt(ValuesOf(b.children, route[0].key)[i], route[1..]);
      }
    }
  }

  /** What the library reads along a path is the same in alike trees. */
  lemma AlikeReadAlike(a: Tree, b: Tree, path: seq<string>)
    requires Alike(a, b)
    ensures Data(a, path) == Data(b, path)
  {
    FindIsAt(a, path);
    FindIsAt(b, path);
    assert DataAt(a, Firsts(path)) == DataAt(b, Firsts(path));
  }

  /** Merging the same tree into alike trees leaves alike trees. */
  lemma {:induction false} MergeKeepsAlike(a: Tree, b: Tree, c: Tree)
    requires ReadsPlain(c.children) && DistinctEntries(c.children)
    requires Alike(a, b)
    ensures Alike(MergeTrees(a, c, 0), MergeTrees(b, c, 0))
  {
    forall route ensures DataAt(MergeTrees(a, c, 0), route) == DataAt(MergeTrees(b, c, 0), route) {
      MergeData(a, c, route);
      MergeData(b, c, route);
    }
  }

  // ---------- What a merge leaves, read off the two trees ----------

  /** Below the root, a leaf or an array takes the place of whatever was there. */
  lemma {:induction false} ArraysAreCopied(a: Tree, b: Tree, level: nat)
    requires level > 0 && forall i :: 0 <= i < |b.children| ==> b.children[i].key == ""
    ensures MergeTrees(a, b, level) == b
  {}

  lemma {:induction false} ValuesAfterOne(a: Tree, y: Entry, level: nat, key: string)
    requires PlainKey(y.key)
    ensures ValuesOf(MergeOne(a, y, level).children, key) ==
            if key == y.key then [MergeTrees(Child(a.children, key), y.tree, level + 1)]
            else ValuesOf(a.children, key)
  {
    var merged := MergeTrees(Child(a.children, y.key), y.tree, level + 1);
    ReadAsIsStep(a, y, level);
    ValuesOfDrop(a.children, {y.key}, key);
    ValuesOfConcat(Drop(a.children, {y.key}), [Entry(y.key, merged)], key);
    assert [Entry(y.key, merged)][1..] == [];
  }

  lemma {:induction false} ValuesAfterAll(a: Tree, ys: seq<Entry>, level: nat, key: string)
    requires DistinctKeys(ys) && forall i :: 0 <= i < |ys| ==> PlainKey(ys[i].key)
    ensures ValuesOf(MergeAllEntries(a, ys, level).children, key) ==
            if HasKey(ys, key) then [MergeTrees(Child(a.children, key), Child(ys, key), level + 1)]
            else ValuesOf(a.children, key)
    decreases ys
  {
    if ys == [] {
    } else {
      ValuesAfterOne(a, ys[0], level, key);
      ChildAfterOne(a, ys[0], level, key);
      ValuesAfterAll(MergeOne(a, ys[0], level), ys[1..], level, key);
      HasKeyStep(ys, key);
    }
  }

  /** An object is merged and not copied: the first tree keeps its data and what is under other keys,
      and under each key of the object there is the merge of what both have there. */
  lemma {:induction false} ObjectsAreMerged(a: Tree, b: Tree, level: nat, key: string)
    requires b.children != [] && DistinctKeys(b.children)
    requires forall i :: 0 <= i < |b.children| ==> PlainKey(b.children[i].key)
    ensures MergeTrees(a, b, level).data == a.data
    ensures ValuesOf(MergeTrees(a, b, level).children, key) ==
            if HasKey(b.children, key) then [MergeTrees(Child(a.children, key), Child(b.children, key), level + 1)]
            else ValuesOf(a.children, key)
  {
    assert b.children[0].key != "";
    MergeKeepsData(a, b.children, level);
    ValuesAfterAll(a, b.children, level, key);
  }

  /** At the root an array is not copied: its elements replace one another, and the last one stays. */
  lemma {:induction false} RootArrayKeepsLast(a: Tree, ys: seq<Entry>)
    requires ys != []
    requires forall i :: 0 <= i < |ys| ==> ys[i].key == ""
    requires forall i, j :: 0 <= i < |ys| && 0 <= j < |ys[i].tree.children| ==> ys[i].tree.children[j].key == ""
    ensures MergeTrees(a, Node("", ys), 0) == Node(a.data, Drop(a.children, {""}) + [ys[|ys| - 1]])
    decreases ys
  {
    var y, next := ys[0], MergeOne(a, ys[0], 0);
    ArraysAreCopied(Child(a.children, ""), y.tree, 1);
    assert y == Entry("", y.tree);
    ReadAsIsStep(a, y, 0);
    if |ys| == 1 {
      assert ys[1..] == [] && MergeAllEntries(next, [], 0) == next;
    } else {
      RootArrayKeepsLast(next, ys[1..]);
      DropConcat(Drop(a.children, {""}), [y], {""});
      DropTwice(a.children, {""}, {""});
      assert {""} + {""} == {""};
      assert Drop([y], {""}) == [] by { assert [y][1..] == []; }
    }
  }

  lemma {:induction false} AtConcat(t: Tree, route: seq<Step>, rest: seq<Step>)
    ensures At(t, route + rest) == if At(t, route).Some? then At(At(t, route).value, rest) else None
    decreases route
  {
    if route == [] {
      assert route + rest == rest;
    } else {
      assert (route + rest)[0] == route[0] && (route + rest)[1..] == route[1..] + rest;
      var vs := ValuesOf(t.children, route[0].key);
      if route[0].nth < |vs| { AtConcat(vs[route[0].nth], route[1..], rest); }
    }
  }

  lemma {:induction false} ReachesCopied(b: Tree, path: seq<string>, v: Tree, rest: seq<Step>)
    requires path != [] && Find(b, path) == Some(v)
    requires forall i :: 0 <= i < |v.children| ==> v.children[i].key == ""
    ensures Reaches(b, Firsts(path) + rest) == Copied(At(v, rest))
    decreases path
  {
    var route, w := Firsts(path) + rest, Child(b.children, path[0]);
    assert route[0] == Step(path[0], 0) && route[1..] == Firsts(path[1..]) + rest;
    FindIsAt(w, path[1..]);
    AtConcat(w, Firsts(path[1..]), rest);
    if |path| > 1 && !CopiedWhole(w) { ReachesCopied(w, path[1..], v, rest); }
  }

  /** Every leaf and every array of the second tree is found where it was, and so is everything below
      it, whatever the first tree has there. */
  lemma {:induction false} LeavesAndArraysFound(a: Tree, b: Tree, path: seq<string>, v: Tree, rest: seq<Step>)
    requires ReadsPlain(b.children) && DistinctEntries(b.children)
    requires path != [] && Find(b, path) == Some(v)
    requires forall i :: 0 <= i < |v.children| ==> v.children[i].key == ""
    ensures Find(MergeTrees(a, b, 0), path) == Some(v)
    ensures At(MergeTrees(a, b, 0), Firsts(path) + rest) == At(v, rest)
  {
    ReachesCopied(b, path, v, rest);
    ReachesCopied(b, path, v, []);
    assert Firsts(path) + [] == Firsts(path);
    MergeLookup(a, b, Firsts(path) + rest);
    MergeLookup(a, b, Firsts(path));
    FindIsAt(MergeTrees(a, b, 0), path);
  }

  lemma {:induction false} ReachesInside(b: Tree, path: seq<string>, v: Tree)
    requires Find(b, path) == Some(v) && forall i :: 0 <= i < |path| ==> path[i] != ""
    requires exists i :: 0 <= i < |v.children| && v.children[i].key != ""
    ensures Reaches(b, Firsts(path)) == Inside(v)
    decreases path
  {
    if path == [] {
    } else {
      var w := Child(b.children, path[0]);
      assert Firsts(path)[0] == Step(path[0], 0) && Firsts(path)[1..] == Firsts(path[1..]);
      assert !CopiedWhole(w) by {
        if |path| > 1 { var i :| 0 <= i < |w.children| && w.children[i].key == path[1]; }
      }
      ReachesInside(w, path[1..], v);
    }
  }

  /** Where the second tree has an object, what the first has there is found merged with it. */
  lemma {:induction false} ObjectsFound(a: Tree, b: Tree, path: seq<string>, v: Tree)
    requires ReadsPlain(b.children) && DistinctEntries(b.children)
    requires Find(b, path) == Some(v) && forall i :: 0 <= i < |path| ==> path[i] != ""
    requires exists i :: 0 <= i < |v.children| && v.children[i].key != ""
    ensures Find(MergeTrees(a, b, 0), path) == Some(MergeTrees(Find(a, path).GetOr(EMPTY_TREE), v, 0))
  {
    ReachesInside(b, path, v);
    MergeLookup(a, b, Firsts(path));
    FindIsAt(a, path);
    FindIsAt(MergeTrees(a, b, 0), path);
  }

  // ---------- Keys read as paths ----------

  /** A key with dots is read along its components. */
  lemma {:induction false} PathIsRead(t: Tree, path: seq<string>)
    requires path != [] && Free(path, '.') && path[|path| - 1] != ""
    ensures GetChild(t, Join(path, '.')) == Find(t, path).GetOr(EMPTY_TREE)
  {
    LinesJoin(path, '.');
  }

  lemma {:induction false} ReplacedHasKey(es: seq<Entry>, key: string, v: Tree)
    ensures HasKey(Replaced(es, key, v), key)
  {
    if es == [] {
      assert Replaced(es, key, v)[0].key == key;
    } else {
      HasKeyStep(Replaced(es, key, v), key);
      if es[0].key != key { ReplacedHasKey(es[1..], key, v); }
    }
  }

  lemma {:induction false} FoundWhereAdded(t: Tree, path: seq<string>, v: Tree)
    requires path != [] && Find(t, path).None?
    ensures Find(AddAt(t, path, v), path) == Some(v)
    decreases path
  {
    var inner, after := Child(t.children, path[0]), AddAt(t, path, v);
    if |path| == 1 {
      assert path[1..] == [] && Find(inner, []) == Some(inner) && Find(v, []) == Some(v);
      ChildConcat(t.children, [Entry(path[0], v)], path[0]);
      assert after.children[|t.children|].key == path[0];
    } else {
      if !HasKey(t.children, path[0]) {
        ChildMissing(t.children, path[0]);
        assert Find(EMPTY_TREE, path[1..]).None?;
      }
      FoundWhereAdded(inner, path[1..], v);
      ReplacedChild(t.children, path[0], AddAt(inner, path[1..], v), path[0]);
      ReplacedHasKey(t.children, path[0], AddAt(inner, path[1..], v));
    }
  }

  lemma {:induction false} FindAfterErase(t: Tree, key: string, path: seq<string>)
    requires path != [] && path[0] != key
    ensures Find(EraseKey(t, key), path) == Find(t, path)
  {
    ChildDrop(t.children, {key}, path[0]);
    KeySetDrop(t.children, {key});
    KeySetIsHasKey(t.children, path[0]);
    KeySetIsHasKey(Drop(t.children, {key}), path[0]);
  }

  /** Merging an entry under a dotted key puts it at that path, if nothing is there. */
  lemma {:induction false} DottedEntryIsPlaced(a: Tree, path: seq<string>, v: Tree, level: nat)
    requires |path| > 1 && Free(path, '.') && path[|path| - 1] != "" && Find(a, path).None?
    ensures Find(MergeOne(a, Entry(Join(path, '.'), v), level), path) == Some(MergeTrees(EMPTY_TREE, v, level + 1))
  {
    var key := Join(path, '.');
    PathIsRead(a, path);
    SplitJoin(path, '.');
    assert key == path[0] + ['.'] + Join(path[1..], '.');
    assert key[|path[0]|] == '.';
    assert key != path[0];
    FindAfterErase(a, key, path);
    FoundWhereAdded(EraseKey(a, key), path, MergeTrees(EMPTY_TREE, v, level + 1));
  }
}
