/** Ordered property trees and their right-biased merge, as configuration loading uses them.

A tree is a string together with an ordered list of keyed subtrees; a key may occur more
than once, and reading a key always takes its first occurrence. */
module PropertyTrees {
  import opened Options
  import opened Text

  datatype Tree = Node(data: string, children: seq<Entry>)

  datatype Entry = Entry(key: string, tree: Tree)

  const EMPTY_TREE := Node("", [])

  // ---------- Reading and changing a list of children ----------

  predicate HasKey(es: seq<Entry>, key: string) {
    exists i :: 0 <= i < |es| && es[i].key == key
  }

  function KeySet(es: seq<Entry>): set<string> {
    set i | 0 <= i < |es| :: es[i].key
  }

  /** The first subtree stored under `key`, or the empty tree when there is none. */
  function Child(es: seq<Entry>, key: string): Tree {
    if es == [] then EMPTY_TREE
    else if es[0].key == key then es[0].tree
    else Child(es[1..], key)
  }

  /** All entries whose key is not in `keys`, in their original order. */
  function Drop(es: seq<Entry>, keys: set<string>): seq<Entry> {
    if es == [] then []
    else if es[0].key in keys then Drop(es[1..], keys)
    else [es[0]] + Drop(es[1..], keys)
  }

  /** Gives the first subtree under `key` the data `text`, adding a leaf when there is none. */
  function SetData(es: seq<Entry>, key: string, text: string): seq<Entry> {
    if es == [] then [Entry(key, Node(text, []))]
    else if es[0].key == key then [Entry(key, es[0].tree.(data := text))] + es[1..]
    else [es[0]] + SetData(es[1..], key, text)
  }

  // ---------- The shapes a node of the second tree can have ----------

  predicate IsLeaf(t: Tree) {
    t.children == []
  }

  /** An array keeps its elements under the empty key. */
  predicate IsArray(t: Tree) {
    t.children != [] && forall i :: 0 <= i < |t.children| ==> t.children[i].key == ""
  }

  /** Leaves and arrays are copied whole; only objects are merged key by key. */
  predicate CopiedWhole(t: Tree) {
    IsLeaf(t) || IsArray(t)
  }

  /** A key that reads the same as a plain key and as a dotted path. */
  predicate PlainKey(key: string) {
    key != "" && '.' !in key
  }

  ghost predicate WellFormed(t: Tree) {
    CopiedWhole(t) || WellFormedEntries(t.children)
  }

  ghost predicate WellFormedEntries(es: seq<Entry>) {
    forall i :: 0 <= i < |es| ==> PlainKey(es[i].key) && WellFormed(es[i].tree)
  }

  /** An entry that is read and added under its key as it is. The empty key is read as the path to the
      tree itself, which does not matter to a leaf or an array. */
  ghost predicate ReadAsIs(y: Entry) {
    PlainKey(y.key) || (y.key == "" && CopiedWhole(y.tree))
  }

  /** No key at any level is taken apart. */
  ghost predicate ReadsPlain(es: seq<Entry>) {
    forall i :: 0 <= i < |es| ==>
      ReadAsIs(es[i]) && (CopiedWhole(es[i].tree) || ReadsPlain(es[i].tree.children))
  }

  ghost predicate DistinctKeys(es: seq<Entry>) {
    forall i, j :: 0 <= i < j < |es| ==> es[i].key != es[j].key
  }

  /** No object of the tree holds a key twice; the contents of arrays are unconstrained. */
  ghost predicate Distinct(t: Tree) {
    CopiedWhole(t) || DistinctEntries(t.children)
  }

  ghost predicate DistinctEntries(es: seq<Entry>) {
    DistinctKeys(es) && forall i :: 0 <= i < |es| ==> Distinct(es[i].tree)
  }

  // ---------- Paths ----------

  /** The node a path leads to, each key taking its first occurrence. */
  function Find(t: Tree, path: seq<string>): Option<Tree>
    decreases path
  {
    if path == [] then Some(t)
    else if HasKey(t.children, path[0]) then Find(Child(t.children, path[0]), path[1..])
    else None
  }

  /** Reading a key: the library takes it as a dotted path, on which the empty key leads to the
      tree itself and a dot at the end adds nothing. */
  function GetChild(t: Tree, key: string): Tree {
    Find(t, Lines(key, '.')).GetOr(EMPTY_TREE)
  }

  /** Adding under a key: also a dotted path, whose last component becomes a new entry, and
      whose other components are found or made on the way. */
  function AddChild(t: Tree, key: string, v: Tree): Tree {
    AddAt(t, SplitAll(key, '.'), v)
  }

  function AddAt(t: Tree, path: seq<string>, v: Tree): Tree
    decreases path
  {
    if path == [] then t
    else if |path| == 1 then Node(t.data, t.children + [Entry(path[0], v)])
    else Node(t.data, Replaced(t.children, path[0], AddAt(Child(t.children, path[0]), path[1..], v)))
  }

  /** The first subtree under `key` replaced, or a new one added at the end. */
  function Replaced(es: seq<Entry>, key: string, v: Tree): seq<Entry> {
    if es == [] then [Entry(key, v)]
    else if es[0].key == key then [Entry(key, v)] + es[1..]
    else [es[0]] + Replaced(es[1..], key, v)
  }

  /** Erasing takes the key as it is, and every entry that has it. */
  function EraseKey(t: Tree, key: string): Tree {
    Node(t.data, Drop(t.children, {key}))
  }

  // ---------- The merge ----------

  /** The tree that merging the second one into the first leaves; copied whole below the root
      when the second is a leaf or an array, and otherwise entry by entry. */
  function MergeTrees(a: Tree, b: Tree, level: nat): Tree
    decreases b
  {
    if level > 0 && CopiedWhole(b) then b else MergeAllEntries(a, b.children, level)
  }

  function MergeAllEntries(a: Tree, ys: seq<Entry>, level: nat): Tree
    decreases ys
  {
    if ys == [] then a else MergeAllEntries(MergeOne(a, ys[0], level), ys[1..], level)
  }

  function MergeOne(a: Tree, y: Entry, level: nat): Tree
    decreases y
  {
    AddChild(EraseKey(a, y.key), y.key, MergeTrees(GetChild(a, y.key), y.tree, level + 1))
  }

  // ---------- The merge of trees with plain keys ----------

  /** What merging `v` into a subtree `c` below the root leaves there. */
  function MergeChild(c: Tree, v: Tree): Tree
    decreases v
  {
    if CopiedWhole(v) then v else Node(c.data, MergeEntries(c.children, v.children))
  }

  /** Merges the entries of `ys` into `xs` one after the other, each moving to the end. */
  function MergeEntries(xs: seq<Entry>, ys: seq<Entry>): seq<Entry>
    decreases ys
  {
    if ys == [] then xs else MergeEntries(MergeEntry(xs, ys[0]), ys[1..])
  }

  function MergeEntry(xs: seq<Entry>, y: Entry): seq<Entry>
    decreases y, 1
  {
    Drop(xs, {y.key}) + [Moved(xs, y)]
  }

  function Moved(xs: seq<Entry>, y: Entry): Entry
    decreases y, 0
  {
    Entry(y.key, MergeChild(Child(xs, y.key), y.tree))
  }

  /** The root is always merged key by key, whatever its shape. */
  function Merge(a: Tree, b: Tree, level: nat): Tree {
    if level > 0 then MergeChild(a, b) else Node(a.data, MergeEntries(a.children, b.children))
  }

  /** The number of direct children stored under `key`. */
  function Count(es: seq<Entry>, key: string): nat {
    if es == [] then 0 else (if es[0].key == key then 1 else 0) + Count(es[1..], key)
  }

  lemma {:induction false} CountIsSizeExactlyForOneKey(es: seq<Entry>, key: string)
    ensures Count(es, key) <= |es|
    ensures Count(es, key) == |es| <==> forall i :: 0 <= i < |es| ==> es[i].key == key
  {
    if es == [] {
    } else {
      CountIsSizeExactlyForOneKey(es[1..], key);
      assert forall i :: 1 <= i < |es| ==> es[i] == es[1..][i - 1];
      if Count(es, key) == |es| {
        forall i | 0 <= i < |es| ensures es[i].key == key {
          if i > 0 { assert es[i] == es[1..][i - 1]; }
        }
      }
    }
  }

  /** A property tree held by reference, as the merge rewrites it in place. */
  class PropertyTree {
    var data: string
    var children: seq<Entry>

    function Value(): Tree reads this { Node(data, children) }

    constructor (t: Tree)
      ensures Value() == t
    {
      data, children := t.data, t.children;
    }

    method Assign(t: Tree)
      modifies this
      ensures Value() == t
    {
      data, children := t.data, t.children;
    }

    method Erase(key: string)
      modifies this`children
      ensures Value() == EraseKey(old(Value()), key)
    {
      children := Drop(children, {key});
    }

    method Add(key: string, t: Tree)
      modifies this
      ensures Value() == AddChild(old(Value()), key, t)
    {
      Assign(AddChild(Value(), key, t));
    }

    method Put(key: string, text: string)
      modifies this`children
      ensures children == SetData(old(children), key, text)
    {
      children := SetData(children, key, text);
    }
  }

  method MergePropertyTrees(merged: PropertyTree, second: Tree, level: nat)
    modifies merged
    ensures merged.Value() == MergeTrees(old(merged.Value()), second, level)
    decreases second
  {
    CountIsSizeExactlyForOneKey(second.children, "");
    if level > 0 && second.children == [] {
      merged.Assign(second);
    } else if level > 0 && Count(second.children, "") == |second.children| {
      merged.Assign(second);
    } else {
      for it := 0 to |second.children|
        invariant MergeAllEntries(merged.Value(), second.children[it..], level) ==
                  MergeAllEntries(old(merged.Value()), second.children, level)
      {
        var y := second.children[it];
        var child := new PropertyTree(GetChild(merged.Value(), y.key));
        MergePropertyTrees(child, y.tree, level + 1);
        merged.Erase(y.key);
        merged.Add(y.key, child.Value());
        assert second.children[it..][1..] == second.children[it + 1..];
      }
    }
  }
}
