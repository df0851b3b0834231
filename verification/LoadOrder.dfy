/** Loading a set of module files: what each contributes, and why the order in which a
directory is iterated does not show. */
module LoadOrder {
  import opened MergeLaws
  import opened ModuleLoader
  import opened Options
  import opened PropertyTrees

  ghost predicate Incomparable(p: seq<string>, q: seq<string>) {
    !(p <= q) && !(q <= p)
  }

  /** If both files load, neither's key is a prefix of the other's. */
  ghost predicate Separate(f: ConfigFile, g: ConfigFile) {
    Loads(f) && Loads(g) ==> Incomparable(KeyPath(f), KeyPath(g))
  }

  ghost predicate SeparateKeys(files: seq<ConfigFile>) {
    forall i, j :: 0 <= i < j < |files| ==> Separate(files[i], files[j])
  }

  // ---------- Routes through a nested tree ----------

  /** An object of which the laws of the merge hold. */
  ghost predicate Mergeable(t: Tree) {
    WellFormedEntries(t.children) && DistinctEntries(t.children) && !CopiedWhole(t)
  }

  lemma {:induction false} NestStep(at: seq<string>, t: Tree, route: seq<Step>)
    requires PlainPath(at) && Mergeable(t) && at != []
    ensures Reaches(Nest(at, t), route) ==
            if route == [] then Inside(Nest(at, t))
            else if route[0].key != at[0] then Outside
            else if route[0].nth > 0 then Copied(None)
            else Reaches(Nest(at[1..], t), route[1..])
  {
    var n := Nest(at, t);
    assert n.children[0].key == at[0];
    NestWellFormed(at[1..], t);
  }

  lemma PathStep(p: seq<string>, q: seq<string>)
    requires p != [] && q != [] && p[0] == q[0]
    ensures p <= q <==> p[1..] <= q[1..]
    ensures p < q <==> p[1..] < q[1..]
  {
    assert p == [p[0]] + p[1..] && q == [q[0]] + q[1..];
  }

  lemma KeysStep(route: seq<Step>)
    requires route != []
    ensures Keys(route) != [] && Keys(route)[0] == route[0].key && Keys(route)[1..] == Keys(route[1..])
  {}

  /** Of two trees nested at incomparable paths, a route runs through one at most, unless it ends
      above both or leaves both for a node that neither has. */
  lemma {:induction false} NestsApart(p: seq<string>, s: Tree, q: seq<string>, t: Tree, route: seq<Step>)
    requires PlainPath(p) && PlainPath(q) && Mergeable(s) && Mergeable(t) && Incomparable(p, q)
    ensures var one, other := Reaches(Nest(p, s), route), Reaches(Nest(q, t), route);
            || one.Outside? || other.Outside?
            || (one == Copied(None) && other == Copied(None))
            || (one.Inside? && other.Inside? && Keys(route) < p && Keys(route) < q)
    decreases p
  {
    hide Mergeable;
    NestStep(p, s, route);
    NestStep(q, t, route);
    if route == [] {
    } else if p[0] == q[0] == route[0].key && route[0].nth == 0 {
      PathStep(p, q);
      PathStep(q, p);
      NestsApart(p[1..], s, q[1..], t, route[1..]);
      KeysStep(route);
      PathStep(Keys(route), p);
      PathStep(Keys(route), q);
    }
  }

  /** Merging trees nested at incomparable paths, in either order, leaves alike trees. */
  lemma {:induction false} NestedMergesCommute(a: Tree, p: seq<string>, s: Tree, q: seq<string>, t: Tree)
    requires PlainPath(p) && PlainPath(q) && Mergeable(s) && Mergeable(t) && Incomparable(p, q)
    ensures Alike(MergeTrees(MergeTrees(a, Nest(p, s), 0), Nest(q, t), 0),
                  MergeTrees(MergeTrees(a, Nest(q, t), 0), Nest(p, s), 0))
  {
    hide MergeTrees, Reaches, DataAt, Mergeable;
    var one, other := Nest(p, s), Nest(q, t);
    MergeableNested(p, s);
    MergeableNested(q, t);
    forall route
      ensures DataAt(MergeTrees(MergeTrees(a, one, 0), other, 0), route) ==
              DataAt(MergeTrees(MergeTrees(a, other, 0), one, 0), route)
    {
      NestsApart(p, s, q, t, route);
      MergeData(a, one, route);
      MergeData(MergeTrees(a, one, 0), other, route);
      MergeData(a, other, route);
      MergeData(MergeTrees(a, other, 0), one, route);
    }
  }

  lemma {:induction false} MergeableNested(at: seq<string>, t: Tree)
    requires PlainPath(at) && Mergeable(t)
    ensures ReadsPlain(Nest(at, t).children) && DistinctEntries(Nest(at, t).children)
  {
    NestWellFormed(at, t);
    WellFormedReadsPlain(Nest(at, t).children);
  }

  lemma {:induction false} ReachesOwn(at: seq<string>, t: Tree)
    requires PlainPath(at) && Mergeable(t)
    ensures Reaches(Nest(at, t), Firsts(at)) == Inside(t)
  {
    if at == [] {
    } else {
      hide Mergeable;
      NestStep(at, t, Firsts(at));
      assert Firsts(at)[1..] == Firsts(at[1..]);
      ReachesOwn(at[1..], t);
    }
  }

  lemma {:induction false} ReachesNotElsewhere(at: seq<string>, t: Tree, path: seq<string>)
    requires PlainPath(at) && Mergeable(t) && Incomparable(at, path)
    ensures Reaches(Nest(at, t), Firsts(path)) == Outside
    decreases at
  {
    hide Mergeable;
    NestStep(at, t, Firsts(path));
    if path[0] == at[0] {
      assert Firsts(path)[1..] == Firsts(path[1..]);
      PathStep(at, path);
      PathStep(path, at);
      ReachesNotElsewhere(at[1..], t, path[1..]);
    }
  }

  // ---------- What one file does ----------

  /** A usable file is loaded by merging in an object that holds its tree at its path. */
  lemma UsableNested(file: ConfigFile)
    requires Usable(file) && Loads(file)
    ensures PlainPath(KeyPath(file)) && Mergeable(Read(EMPTY_TREE, file))
    ensures var nested := Nest(KeyPath(file), Read(EMPTY_TREE, file)).children;
            ReadsPlain(nested) && DistinctEntries(nested)
  {
    hide Read;
    ReadIsObject(file);
    MergeableNested(KeyPath(file), Read(EMPTY_TREE, file));
  }

  /** How a route runs through the tree a file puts in place. */
  function FileReach(file: ConfigFile, route: seq<Step>): Reach {
    if Loads(file) then Reaches(Nest(KeyPath(file), Read(EMPTY_TREE, file)), route) else Outside
  }

  /** What loading a file does to the node at the end of a route. */
  function NodeAct(route: seq<Step>): (ConfigFile, Option<Tree>) -> Option<Tree> {
    (file: ConfigFile, before: Option<Tree>) => NodeAfter(FileReach(file, route), before)
  }

  /** What it does to the data there. */
  function DataAct(route: seq<Step>): (ConfigFile, Option<string>) -> Option<string> {
    (file: ConfigFile, before: Option<string>) => DataAfter(FileReach(file, route), before)
  }

  lemma {:induction false} AfterOneFile(config: Tree, file: ConfigFile, route: seq<Step>)
    requires Usable(file)
    ensures At(AfterFile(config, file), route) == NodeAct(route)(file, At(config, route))
    ensures DataAt(AfterFile(config, file), route) == DataAct(route)(file, DataAt(config, route))
  {
    hide Read, MergeTrees, Reaches, KeyPath, At, DataAt, Usable;
    if Loads(file) {
      var nested := Nest(KeyPath(file), Read(EMPTY_TREE, file));
      UsableNested(file);
      MergeLookup(config, nested, route);
      MergeData(config, nested, route);
      assert NodeAct(route)(file, At(config, route)) == NodeAfter(FileReach(file, route), At(config, route));
    }
  }

  // ---------- What a list of files does ----------

  /** The files act on what is there, one after the other. */
  function Fold<X>(files: seq<ConfigFile>, act: (ConfigFile, X) -> X, x: X): X
    decreases files
  {
    if files == [] then x else Fold(files[1..], act, act(files[0], x))
  }

  lemma {:induction false} NodeAfterFiles(config: Tree, files: seq<ConfigFile>, route: seq<Step>)
    requires AllUsable(files)
    ensures At(AfterFiles(config, files), route) == Fold(files, NodeAct(route), At(config, route))
    decreases files
  {
    if files == [] {
    } else {
      hide Usable, AfterFile, NodeAct, At;
      AfterOneFile(config, files[0], route);
      NodeAfterFiles(AfterFile(config, files[0]), files[1..], route);
    }
  }

  lemma {:induction false} DataAfterFiles(config: Tree, files: seq<ConfigFile>, route: seq<Step>)
    requires AllUsable(files)
    ensures DataAt(AfterFiles(config, files), route) == Fold(files, DataAct(route), DataAt(config, route))
    decreases files
  {
    if files == [] {
    } else {
      hide Usable, AfterFile, DataAct, DataAt;
      AfterOneFile(config, files[0], route);
      DataAfterFiles(AfterFile(config, files[0]), files[1..], route);
    }
  }

  /** Two files can act in either order. */
  ghost predicate Commute<X(!new)>(f: ConfigFile, g: ConfigFile, act: (ConfigFile, X) -> X) {
    forall x :: act(g, act(f, x)) == act(f, act(g, x))
  }

  ghost predicate AllCommute<X(!new)>(files: seq<ConfigFile>, act: (ConfigFile, X) -> X) {
    forall f, g :: f in files && g in files ==> Commute(f, g, act)
  }

  /** Files at incomparable keys act in either order on the data at the end of any route, and on the
      whole node there unless it is above them. */
  lemma EffectsCommute(f: ConfigFile, g: ConfigFile, route: seq<Step>)
    requires Usable(f) && Usable(g) && Separate(f, g)
    ensures Commute(f, g, DataAct(route))
    ensures (Loads(f) ==> !(Keys(route) < KeyPath(f))) ==> Commute(f, g, NodeAct(route))
  {
    hide FileReach, Usable, Separate, Loads, KeyPath, MergeTrees;
    FilesReachApart(f, g, route);
  }

  lemma FilesReachApart(f: ConfigFile, g: ConfigFile, route: seq<Step>)
    requires Usable(f) && Usable(g) && Separate(f, g)
    ensures var one, other := FileReach(f, route), FileReach(g, route);
            || one.Outside? || other.Outside?
            || (one == Copied(None) && other == Copied(None))
            || (one.Inside? && other.Inside? && Loads(f) && Keys(route) < KeyPath(f))
  {
    if Loads(f) && Loads(g) {
      hide Read, Reaches, MergeTrees, KeyPath;
      UsableNested(f);
      UsableNested(g);
      hide Usable;
      NestsApart(KeyPath(f), Read(EMPTY_TREE, f), KeyPath(g), Read(EMPTY_TREE, g), route);
    }
  }

  /** The route does not end above the place of a file. */
  ghost predicate NotAbove(files: seq<ConfigFile>, path: seq<string>) {
    forall i :: 0 <= i < |files| && Loads(files[i]) ==> !(path < KeyPath(files[i]))
  }

  lemma AllEffectsCommute(files: seq<ConfigFile>, route: seq<Step>)
    requires AllUsable(files) && SeparateKeys(files)
    ensures AllCommute(files, DataAct(route))
    ensures NotAbove(files, Keys(route)) ==> AllCommute(files, NodeAct(route))
  {
    hide Usable, Incomparable, Loads, KeyPath, NodeAct, DataAct;
    forall f, g | f in files && g in files
      ensures Commute(f, g, DataAct(route))
      ensures NotAbove(files, Keys(route)) ==> Commute(f, g, NodeAct(route))
    {
      var i :| 0 <= i < |files| && files[i] == f;
      var j :| 0 <= j < |files| && files[j] == g;
      if i < j {
        EffectsCommute(f, g, route);
      } else if j < i {
        EffectsCommute(g, f, route);
      }
    }
  }

  function Without<T>(s: seq<T>, i: nat): seq<T>
    requires i < |s|
  {
    s[..i] + s[i + 1..]
  }

  lemma WithoutMultiset<T>(s: seq<T>, i: nat)
    requires i < |s|
    ensures multiset(Without(s, i)) == multiset(s) - multiset{s[i]}
  {
    assert s == s[..i] + [s[i]] + s[i + 1..];
  }

  lemma PositionOf<T>(s: seq<T>, t: seq<T>) returns (i: nat)
    requires multiset(s) == multiset(t) && t != []
    ensures i < |s| && s[i] == t[0]
  {
    assert t[0] in multiset(t);
    i :| 0 <= i < |s| && s[i] == t[0];
  }

  lemma FilesWithout(s: seq<ConfigFile>, i: nat)
    requires i < |s|
    ensures forall f :: f in Without(s, i) ==> f in s
  {}

  /** A file can act first instead of i-th. */
  lemma {:induction false} FoldFirst<X(!new)>(files: seq<ConfigFile>, i: nat, act: (ConfigFile, X) -> X, x: X)
    requires i < |files| && AllCommute(files, act)
    ensures Fold(files, act, x) == Fold(Without(files, i), act, act(files[i], x))
    decreases i
  {
    var rest := files[1..];
    if i == 0 {
      assert Without(files, 0) == rest;
    } else {
      assert Commute(files[0], files[i], act);
      FoldFirst(rest, i - 1, act, act(files[0], x));
      assert Without(files, i)[1..] == Without(rest, i - 1) && Without(files, i)[0] == files[0];
    }
  }

  lemma {:induction false} FoldPermutes<X(!new)>(fs: seq<ConfigFile>, gs: seq<ConfigFile>,
                                                 act: (ConfigFile, X) -> X, x: X)
    requires multiset(fs) == multiset(gs) && AllCommute(fs, act)
    ensures Fold(fs, act, x) == Fold(gs, act, x)
    decreases |gs|
  {
    assert |fs| == |multiset(fs)| == |multiset(gs)| == |gs|;
    if gs == [] {
    } else {
      hide Commute;
      var i := PositionOf(fs, gs);
      FoldFirst(fs, i, act, x);
      WithoutMultiset(fs, i);
      WithoutMultiset(gs, 0);
      assert Without(gs, 0) == gs[1..];
      FilesWithout(fs, i);
      FoldPermutes(Without(fs, i), gs[1..], act, act(gs[0], x));
    }
  }

  /** Loaded in any order, the same files leave alike trees, arrays and repeated children included;
      and whatever is not above the place of a file is left the same, child order and all. */
  lemma {:induction false} LoadOrderIrrelevant(config: Tree, fs: seq<ConfigFile>, gs: seq<ConfigFile>)
    requires multiset(fs) == multiset(gs)
    requires AllUsable(fs) && SeparateKeys(fs)
    ensures Alike(AfterFiles(config, fs), AfterFiles(config, gs))
    ensures forall route :: NotAbove(fs, Keys(route)) ==>
              At(AfterFiles(config, fs), route) == At(AfterFiles(config, gs), route)
  {
    hide AfterFiles, At, AllUsable, SeparateKeys, NotAbove;
    FilesOrderIrrelevant(config, config, fs, gs);
  }

  /** Also when they are loaded into alike trees. */
  lemma {:induction false} FilesOrderIrrelevant(a: Tree, b: Tree, fs: seq<ConfigFile>, gs: seq<ConfigFile>)
    requires multiset(fs) == multiset(gs)
    requires AllUsable(fs) && SeparateKeys(fs)
    ensures Alike(a, b) ==> Alike(AfterFiles(a, fs), AfterFiles(b, gs))
    ensures forall route :: NotAbove(fs, Keys(route)) && At(a, route) == At(b, route) ==>
              At(AfterFiles(a, fs), route) == At(AfterFiles(b, gs), route)
  {
    hide Usable, AfterFiles, At, DataAt, NodeAct, DataAct, Fold, AllCommute, NotAbove, SeparateKeys;
    forall i | 0 <= i < |gs| ensures Usable(gs[i]) {
      assert gs[i] in multiset(gs);
      assert gs[i] in fs;
    }
    forall route
      ensures DataAt(a, route) == DataAt(b, route) ==>
                DataAt(AfterFiles(a, fs), route) == DataAt(AfterFiles(b, gs), route)
      ensures NotAbove(fs, Keys(route)) && At(a, route) == At(b, route) ==>
                At(AfterFiles(a, fs), route) == At(AfterFiles(b, gs), route)
    {
      AllEffectsCommute(fs, route);
      DataAfterFiles(a, fs, route);
      DataAfterFiles(b, gs, route);
      FoldPermutes(fs, gs, DataAct(route), DataAt(a, route));
      NodeAfterFiles(a, fs, route);
      NodeAfterFiles(b, gs, route);
      if NotAbove(fs, Keys(route)) { FoldPermutes(fs, gs, NodeAct(route), At(a, route)); }
    }
  }

  // ---------- Shuffled directories ----------

  /** The same entries in another order, the entries of every directory below included. */
  ghost predicate Shuffled(xs: seq<DirEntry>, ys: seq<DirEntry>)
    decreases xs
  {
    if xs == [] then ys == []
    else exists j :: 0 <= j < |ys| && SameEntry(xs[0], ys[j]) && Shuffled(xs[1..], Without(ys, j))
  }

  ghost predicate SameEntry(x: DirEntry, y: DirEntry)
    decreases x
  {
    if x.Directory? then y.Directory? && y.name == x.name && Shuffled(x.entries, y.entries) else y == x
  }

  /** Every permutation of a listing is one of its shuffles. */
  lemma {:induction false} PermutationIsShuffle(xs: seq<DirEntry>, ys: seq<DirEntry>)
    requires multiset(xs) == multiset(ys)
    ensures Shuffled(xs, ys)
    decreases xs
  {
    if xs == [] {
      assert |ys| == |multiset(ys)|;
    } else {
      var j := PositionOf(ys, xs);
      WithoutMultiset(ys, j);
      WithoutMultiset(xs, 0);
      assert Without(xs, 0) == xs[1..];
      if xs[0].Directory? { PermutationIsShuffle(xs[0].entries, xs[0].entries); }
      PermutationIsShuffle(xs[1..], Without(ys, j));
    }
  }

  lemma {:induction false} FilesAround(location: seq<string>, below: seq<string>, entries: seq<DirEntry>, i: nat)
    requires i < |entries|
    ensures multiset(FilesOf(location, below, entries)) ==
            multiset(FilesOfEntry(location, below, entries[i])) +
            multiset(FilesOf(location, below, Without(entries, i)))
  {
    hide FilesOf, FilesOfEntry;
    FilesUpTo(location, below, entries, i);
    assert entries == entries[..i + 1] + entries[i + 1..];
    FilesOfConcat(location, below, entries[..i + 1], entries[i + 1..]);
    FilesOfConcat(location, below, entries[..i], entries[i + 1..]);
  }

  /** A shuffled directory tree holds the same files. */
  lemma {:induction false} ShuffledFiles(location: seq<string>, below: seq<string>,
                                         xs: seq<DirEntry>, ys: seq<DirEntry>)
    requires Shuffled(xs, ys)
    ensures multiset(FilesOf(location, below, xs)) == multiset(FilesOf(location, below, ys))
    decreases xs
  {
    if xs == [] {
    } else {
      var j :| 0 <= j < |ys| && SameEntry(xs[0], ys[j]) && Shuffled(xs[1..], Without(ys, j));
      if xs[0].Directory? { ShuffledFiles(location, below + [xs[0].name], xs[0].entries, ys[j].entries); }
      ShuffledFiles(location, below, xs[1..], Without(ys, j));
      FilesAround(location, below, ys, j);
      FilesAround(location, below, xs, 0);
      assert Without(xs, 0) == xs[1..];
      hide FilesOf, Shuffled, SameEntry;
    }
  }

  /** Two listings of every location, in which the same files can be loaded in any order. */
  ghost predicate ShuffledLocations(locations: seq<string>, ds: map<string, seq<DirEntry>>,
                                    es: map<string, seq<DirEntry>>)
  {
    forall dir :: dir in locations ==>
      && (dir in ds <==> dir in es)
      && (dir in ds ==>
            && Shuffled(ds[dir], es[dir])
            && AllUsable(FilesOf([dir], [], ds[dir]))
            && SeparateKeys(FilesOf([dir], [], ds[dir])))
  }

  ghost predicate NotAboveAny(locations: seq<string>, ds: map<string, seq<DirEntry>>, path: seq<string>) {
    forall dir :: dir in locations && dir in ds ==> NotAbove(FilesOf([dir], [], ds[dir]), path)
  }

  /** The order in which the directories of a location list are iterated, down to every level, leaves
      alike trees, and the same nodes wherever they are not above the place of a file. */
  lemma {:induction false} ListingOrderIrrelevant(a: Tree, b: Tree, locations: seq<string>,
                                                  ds: map<string, seq<DirEntry>>, es: map<string, seq<DirEntry>>)
    requires ShuffledLocations(locations, ds, es)
    ensures Alike(a, b) ==> Alike(AfterLocations(a, locations, ds), AfterLocations(b, locations, es))
    ensures forall route :: NotAboveAny(locations, ds, Keys(route)) && At(a, route) == At(b, route) ==>
              At(AfterLocations(a, locations, ds), route) == At(AfterLocations(b, locations, es), route)
    decreases locations
  {
    if locations == [] {
    } else {
      hide Alike, At, AfterFiles, FilesOf, AllUsable, SeparateKeys, NotAbove, Shuffled;
      var dir := locations[0];
      if dir in ds {
        ShuffledFiles([dir], [], ds[dir], es[dir]);
        FilesOrderIrrelevant(a, b, FilesOf([dir], [], ds[dir]), FilesOf([dir], [], es[dir]));
      }
      ListingOrderIrrelevant(AfterLocation(a, dir, ds), AfterLocation(b, dir, es), locations[1..], ds, es);
    }
  }

  // ---------- Isolation ----------

  lemma {:induction false} LoadHere(config: Tree, file: ConfigFile)
    requires Usable(file) && Loads(file)
    ensures var at := KeyPath(file);
            Find(AfterFile(config, file), at) ==
            Some(MergeTrees(Find(config, at).GetOr(EMPTY_TREE), Read(EMPTY_TREE, file), 0))
  {
    hide Read, MergeTrees, At, Reaches, KeyPath;
    var at := KeyPath(file);
    UsableNested(file);
    ReachesOwn(at, Read(EMPTY_TREE, file));
    MergeLookup(config, Nest(at, Read(EMPTY_TREE, file)), Firsts(at));
    FindIsAt(config, at);
    FindIsAt(AfterFile(config, file), at);
  }

  lemma {:induction false} LoadElsewhere(config: Tree, file: ConfigFile, path: seq<string>)
    requires Usable(file)
    requires Loads(file) ==> Incomparable(KeyPath(file), path)
    ensures Find(AfterFile(config, file), path) == Find(config, path)
  {
    if Loads(file) {
      hide Read, MergeTrees, At, Reaches, KeyPath;
      UsableNested(file);
      ReachesNotElsewhere(KeyPath(file), Read(EMPTY_TREE, file), path);
      MergeLookup(config, Nest(KeyPath(file), Read(EMPTY_TREE, file)), Firsts(path));
      FindIsAt(config, path);
      FindIsAt(AfterFile(config, file), path);
    }
  }

  /** No file of the list is put at a key comparable with the path. */
  ghost predicate Apart(files: seq<ConfigFile>, path: seq<string>) {
    forall i :: 0 <= i < |files| && Loads(files[i]) ==> Incomparable(KeyPath(files[i]), path)
  }

  lemma {:induction false} LoadAllElsewhere(config: Tree, files: seq<ConfigFile>, path: seq<string>)
    requires AllUsable(files) && Apart(files, path)
    ensures Find(AfterFiles(config, files), path) == Find(config, path)
    decreases files
  {
    if files == [] {
    } else {
      LoadElsewhere(config, files[0], path);
      LoadAllElsewhere(AfterFile(config, files[0]), files[1..], path);
    }
  }

  lemma ApartFromOthers(files: seq<ConfigFile>, i: nat)
    requires AllUsable(files) && SeparateKeys(files)
    requires i < |files| && Loads(files[i])
    ensures var before, after, at := files[..i], files[i + 1..], KeyPath(files[i]);
            && AllUsable(before) && Apart(before, at)
            && AllUsable(after) && Apart(after, at)
  {
    var before, after, at := files[..i], files[i + 1..], KeyPath(files[i]);
    forall j | 0 <= j < |before| ensures Usable(before[j]) { assert before[j] == files[j]; }
    forall j | 0 <= j < |after| ensures Usable(after[j]) { assert after[j] == files[i + 1 + j]; }
    forall j | 0 <= j < |before| && Loads(before[j]) ensures Incomparable(KeyPath(before[j]), at) {
      assert before[j] == files[j];
    }
    forall j | 0 <= j < |after| && Loads(after[j]) ensures Incomparable(KeyPath(after[j]), at) {
      assert after[j] == files[i + 1 + j];
    }
  }

  lemma {:induction false} AfterFilesAround(config: Tree, files: seq<ConfigFile>, i: nat)
    requires i < |files|
    ensures AfterFiles(config, files) ==
            AfterFiles(AfterFile(AfterFiles(config, files[..i]), files[i]), files[i + 1..])
  {
    assert files == files[..i] + files[i..] && files[i..][1..] == files[i + 1..];
    AfterFilesConcat(config, files[..i], files[i..]);
  }

  /** Isolation: each module's subtree, child order included, is the one it would have had
      had it been loaded alone. */
  lemma {:induction false} ModuleIsolated(config: Tree, files: seq<ConfigFile>, i: nat)
    requires AllUsable(files) && SeparateKeys(files)
    requires i < |files| && Loads(files[i])
    ensures var at := KeyPath(files[i]);
            Find(AfterFiles(config, files), at) ==
            Some(MergeTrees(Find(config, at).GetOr(EMPTY_TREE), Read(EMPTY_TREE, files[i]), 0))
  {
    hide Read, MergeTrees, Find, Usable, Incomparable, AfterFile;
    var at, before := KeyPath(files[i]), AfterFiles(config, files[..i]);
    ApartFromOthers(files, i);
    AfterFilesAround(config, files, i);
    LoadAllElsewhere(config, files[..i], at);
    LoadHere(before, files[i]);
    LoadAllElsewhere(AfterFile(before, files[i]), files[i + 1..], at);
  }
}
