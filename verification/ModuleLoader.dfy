/** Loading module configuration files from directories into one property tree. */
module ModuleLoader {
  import opened MergeLaws
  import opened Options
  import opened PropertyTrees
  import opened Text

  /** A directory listing in the order it is iterated; `parsed` is what the parser for the
      file's format makes of its contents, if it accepts them. */
  datatype DirEntry =
    | Regular(name: string, parsed: Option<Tree>)
    | Directory(name: string, entries: seq<DirEntry>)
    | Other

  /** A regular file somewhere below a location that is searched for modules: the components
      of the location's path, and of the directory's path from there. */
  datatype ConfigFile = ConfigFile(location: seq<string>, below: seq<string>, name: string, parsed: Option<Tree>) {
    function Parent(): seq<string> { location + below }
  }

  // ---------- File names ----------

  /** The index of the last `c`, or the length when there is none. */
  function LastIndexOf(s: string, c: char): (i: nat)
    ensures i <= |s|
  {
    if s == "" then 0
    else if s[|s| - 1] == c then |s| - 1
    else
      var i := LastIndexOf(s[..|s| - 1], c);
      if i == |s| - 1 then |s| else i
  }

  lemma {:induction false} LastIndexIsLast(s: string, c: char)
    ensures var i := LastIndexOf(s, c);
            && (i < |s| <==> c in s)
            && (i < |s| ==> s[i] == c && c !in s[i + 1..])
  {
    if s == "" {
    } else if s[|s| - 1] != c {
      var front, i := s[..|s| - 1], LastIndexOf(s[..|s| - 1], c);
      LastIndexIsLast(front, c);
      assert s == front + [s[|s| - 1]];
      hide LastIndexOf;
      assert c in s <==> c in front;
      if i < |front| { assert s[i + 1..] == front[i + 1..] + [s[|s| - 1]]; }
    }
  }

  function Stem(name: string): string {
    if name == "." || name == ".." then name else name[..LastIndexOf(name, '.')]
  }

  function Extension(name: string): string {
    if name == "." || name == ".." then "" else name[LastIndexOf(name, '.')..]
  }

  predicate KnownFormat(name: string) {
    Extension(Stem(name)) == ".conf" && Extension(name) in {".json", ".info", ".ini", ".xml"}
  }

  /** The file name without its two extensions. */
  function BaseName(name: string): string {
    Stem(Stem(name))
  }

  lemma {:induction false} LastIndexInConcat(a: string, b: string, c: char)
    requires c !in b
    ensures LastIndexOf(a + [c] + b, c) == |a|
    decreases |b|
  {
    var s := a + [c] + b;
    if b == "" {
    } else {
      assert s[..|s| - 1] == a + [c] + b[..|b| - 1];
      LastIndexInConcat(a, b[..|b| - 1], c);
    }
  }

  lemma CutAtLastDot(a: string, b: string)
    requires '.' !in b && |b| >= 2
    ensures Stem(a + ['.'] + b) == a && Extension(a + ['.'] + b) == ['.'] + b
  {
    LastIndexInConcat(a, b, '.');
  }

  /** A name without a dot is its own stem, and so are the two that name directories. */
  lemma StemWithoutDot(name: string)
    requires '.' !in name || name == "." || name == ".."
    ensures Stem(name) == name && Extension(name) == ""
  {
    LastIndexIsLast(name, '.');
  }

  lemma StemThenExtension(name: string)
    ensures name == Stem(name) + Extension(name)
  {}

  /** Cutting both extensions off by their lengths leaves the base name. */
  lemma BaseIsFront(name: string)
    ensures |name| == |BaseName(name)| + |Extension(Stem(name))| + |Extension(name)|
    ensures name[..|BaseName(name)|] == BaseName(name)
  {
    hide Stem, Extension;
    StemThenExtension(name);
    StemThenExtension(Stem(name));
    assert name == BaseName(name) + (Extension(Stem(name)) + Extension(name));
  }

  /** Any base followed by `.conf` and one of the four endings is a name that is loaded, and its
      base name is that base. */
  lemma KnownNames(base: string, ending: string)
    requires ending in {"json", "info", "ini", "xml"}
    ensures var name := (base + ".conf") + ['.'] + ending;
            KnownFormat(name) && BaseName(name) == base
  {
    hide Stem, Extension;
    var stem := base + ".conf";
    var name := stem + ['.'] + ending;
    DottedEnding(ending);
    CutAtLastDot(stem, ending);
    CutAtLastDot(base, "conf");
    assert stem == base + ['.'] + "conf" && ['.'] + "conf" == ".conf";
    assert name[..|base|] == base;
  }

  lemma DottedEnding(ending: string)
    requires ending in {"json", "info", "ini", "xml"}
    ensures ['.'] + ending in {".json", ".info", ".ini", ".xml"} && '.' !in ending && |ending| >= 2
  {
    assert ['.'] + "json" == ".json" && ['.'] + "info" == ".info";
    assert ['.'] + "ini" == ".ini" && ['.'] + "xml" == ".xml";
  }

  /** No other names are loaded. */
  lemma KnownNamesOnly(name: string)
    requires KnownFormat(name)
    ensures name == BaseName(name) + ".conf" + Extension(name)
    ensures Extension(name) in {".json", ".info", ".ini", ".xml"}
  {
    StemThenExtension(name);
    StemThenExtension(Stem(name));
  }

  // ---------- Keys ----------

  /** The stems of path components; a component with an empty stem adds nothing to a path. */
  function Stems(components: seq<string>): seq<string> {
    if components == [] then []
    else (if Stem(components[0]) == "" then [] else [Stem(components[0])]) + Stems(components[1..])
  }

  lemma {:induction false} StemsNonEmpty(components: seq<string>)
    ensures forall i :: 0 <= i < |Stems(components)| ==> Stems(components)[i] != ""
  {
    if components == [] {
    } else {
      StemsNonEmpty(components[1..]);
    }
  }

  /** The name of a directory, with or without an extension. */
  ghost predicate Named(component: string, stem: string) {
    PlainKey(stem) &&
    (component == stem || exists ending: string :: '.' !in ending && component == stem + ['.'] + ending)
  }

  /** The names of directories lose their extensions. */
  lemma {:induction false} StemsLoseExtensions(components: seq<string>, stems: seq<string>)
    requires |components| == |stems|
    requires forall i :: 0 <= i < |stems| ==> Named(components[i], stems[i])
    ensures Stems(components) == stems
  {
    if components == [] {
    } else {
      StemOfNamed(components[0], stems[0]);
      StemsLoseExtensions(components[1..], stems[1..]);
    }
  }

  lemma StemOfNamed(component: string, stem: string)
    requires Named(component, stem)
    ensures Stem(component) == stem
  {
    if component == stem {
      StemWithoutDot(component);
    } else {
      var ending: string :| '.' !in ending && component == stem + ['.'] + ending;
      LastIndexInConcat(stem, ending, '.');
      assert component[0] == stem[0] && component[0] != '.';
      assert component[..|stem|] == stem;
    }
  }

  lemma {:induction false} JoinEmptyExactly(parts: seq<string>, sep: char)
    requires forall i :: 0 <= i < |parts| ==> parts[i] != ""
    ensures Join(parts, sep) == "" <==> parts == []
  {}

  /** Joins non-empty components with dots. */
  method JoinKey(parts: seq<string>) returns (key: string)
    requires forall i :: 0 <= i < |parts| ==> parts[i] != ""
    ensures key == Join(parts, '.')
  {
    key := "";
    for it := 0 to |parts|
      invariant key == Join(parts[..it], '.')
    {
      JoinEmptyExactly(parts[..it], '.');
      JoinSnoc(parts[..it], parts[it], '.');
      assert parts[..it + 1] == parts[..it] + [parts[it]];
      if key == "" {
        key := parts[it];
      } else {
        key := key + "." + parts[it];
      }
    }
    assert parts[..|parts|] == parts;
  }

  /** The dotted key of a directory relative to one of its ancestors. */
  method DiffPathToKey(path: seq<string>, ancestorPath: seq<string>) returns (key: string)
    requires ancestorPath <= path
    ensures key == Join(Stems(path[|ancestorPath|..]), '.')
    ensures Stems(path[|ancestorPath|..]) != [] && Free(Stems(path[|ancestorPath|..]), '.') ==>
              SplitAll(key, '.') == Stems(path[|ancestorPath|..])
  {
    var diffPath: seq<string> := [];
    var tmpPath := path;
    while tmpPath != ancestorPath
      invariant ancestorPath <= tmpPath <= path
      invariant diffPath == Stems(path[|tmpPath|..])
      decreases |tmpPath|
    {
      var last := tmpPath[|tmpPath| - 1];
      diffPath := (if Stem(last) == "" then [] else [Stem(last)]) + diffPath;
      tmpPath := tmpPath[..|tmpPath| - 1];
      assert path[|tmpPath|..][0] == last && path[|tmpPath|..][1..] == path[|tmpPath| + 1..];
    }
    StemsNonEmpty(path[|ancestorPath|..]);
    key := JoinKey(diffPath);
    if diffPath != [] && Free(diffPath, '.') { SplitJoin(diffPath, '.'); }
  }

  /** Reads from `pos` up to the next delimiter or the end. */
  method ReadLine(s: string, pos: nat, delim: char) returns (line: string, next: nat)
    requires pos < |s|
    ensures pos < next <= |s|
    ensures Lines(s[pos..], delim) == [line] + Lines(s[next..], delim)
  {
    var end := pos;
    while end < |s| && s[end] != delim
      invariant pos <= end <= |s|
      invariant delim !in s[pos..end]
    {
      end := end + 1;
    }
    line := s[pos..end];
    next := if end < |s| then end + 1 else end;
    LineRead(s, pos, end, delim);
  }

  lemma {:induction false} NoLines(delim: char)
    ensures Lines("", delim) == []
  {}

  lemma {:induction false} LineRead(s: string, pos: nat, end: nat, delim: char)
    requires pos < |s| && pos <= end <= |s|
    requires delim !in s[pos..end] && (end < |s| ==> s[end] == delim)
    ensures Lines(s[pos..], delim) ==
            [s[pos..end]] + Lines(s[if end < |s| then end + 1 else end..], delim)
  {
    hide Lines;
    var rest, i := s[pos..], end - pos;
    assert rest[..i] == s[pos..end];
    LinesStep(rest, i, delim);
    if end < |s| {
      assert rest[i + 1..] == s[end + 1..];
    } else {
      assert s[end..] == "";
      NoLines(delim);
    }
  }

  /** Splits a list of locations by reading up to each separator. */
  method Split(s: string, delim: char) returns (elems: seq<string>)
    ensures elems == Lines(s, delim)
    ensures Join(elems, delim) == WithoutLast(s, delim)
  {
    elems := [];
    var pos := 0;
    while pos < |s|
      invariant pos <= |s|
      invariant elems + Lines(s[pos..], delim) == Lines(s, delim)
    {
      var item, next := ReadLine(s, pos, delim);
      assert elems + ([item] + Lines(s[next..], delim)) == (elems + [item]) + Lines(s[next..], delim);
      elems, pos := elems + [item], next;
    }
    JoinLines(s, delim);
  }

  // ---------- One file ----------

  predicate Loads(file: ConfigFile) {
    KnownFormat(file.name) && file.parsed.Some?
  }

  /** A tree after reading a file into it: the contents merged in, and where they were found. */
  function Read(config: Tree, file: ConfigFile): Tree
    requires Loads(file)
  {
    var merged := MergeTrees(config, file.parsed.value, 0);
    Node(merged.data, SetData(merged.children, "configPath", Join(file.Parent(), '/')))
  }

  /** The path a file's tree is put at. */
  function KeyPath(file: ConfigFile): seq<string>
    requires Loads(file)
  {
    var key := Join(Stems(file.below), '.');
    SplitAll((if key == "" then "modules" else "modules." + key) + "." + BaseName(file.name), '.')
  }

  /** A file with a name that is known is put below "modules", under the names of the directories it
      is in, without their extensions, and its own. */
  lemma PlaceOfFile(file: ConfigFile, stems: seq<string>, base: string, ending: string)
    requires ending in {"json", "info", "ini", "xml"} && file.name == (base + ".conf") + ['.'] + ending
    requires file.parsed.Some? && PlainKey(base) && |stems| == |file.below|
    requires forall i :: 0 <= i < |stems| ==> Named(file.below[i], stems[i])
    ensures Loads(file) && KeyPath(file) == ["modules"] + stems + [base]
  {
    hide KnownFormat, BaseName;
    KnownNames(base, ending);
    StemsLoseExtensions(file.below, stems);
    hide Named;
    JoinEmptyExactly(stems, '.');
    var key, parts := Join(stems, '.'), stems + [base];
    JoinSnoc(stems, base, '.');
    JoinCons("modules", parts, '.');
    assert ["modules"] + parts == ["modules"] + stems + [base];
    if stems == [] {
      assert "modules" + "." + base == "modules" + ['.'] + base;
    } else {
      assert "modules." + key + "." + base == "modules" + ['.'] + (key + ['.'] + base);
    }
    SplitJoin(["modules"] + parts, '.');
  }

  /** A tree holding nothing but `t` at the given path. */
  function Nest(path: seq<string>, t: Tree): Tree {
    if path == [] then t else Node("", [Entry(path[0], Nest(path[1..], t))])
  }

  /** What loading one file does to the configuration; a file that fails to load does nothing. */
  function AfterFile(config: Tree, file: ConfigFile): Tree {
    if Loads(file) then MergeTrees(config, Nest(KeyPath(file), Read(EMPTY_TREE, file)), 0) else config
  }

  function AfterFiles(config: Tree, files: seq<ConfigFile>): Tree
    decreases files
  {
    if files == [] then config else AfterFiles(AfterFile(config, files[0]), files[1..])
  }

  predicate PlainPath(path: seq<string>) {
    forall i :: 0 <= i < |path| ==> PlainKey(path[i])
  }

  /** What the laws of the merge need of a file: what it leaves when it is read, and the path that
      is put at, have plain keys, and no object holds one twice. */
  ghost predicate Usable(file: ConfigFile) {
    Loads(file) ==>
      && WellFormedEntries(Read(EMPTY_TREE, file).children)
      && DistinctEntries(Read(EMPTY_TREE, file).children)
      && PlainPath(KeyPath(file))
  }

  ghost predicate AllUsable(files: seq<ConfigFile>) {
    forall i :: 0 <= i < |files| ==> Usable(files[i])
  }

  lemma {:induction false} SetDataKeys(es: seq<Entry>, key: string, text: string)
    ensures SetData(es, key, text) != []
    ensures KeySet(SetData(es, key, text)) == KeySet(es) + {key}
  {
    if es == [] {
      KeySetOne(Entry(key, Node(text, [])));
    } else {
      KeySetStep(es);
      KeySetStep(SetData(es, key, text));
      if es[0].key != key { SetDataKeys(es[1..], key, text); }
    }
  }

  lemma {:induction false} SetDataKeepsPlain(es: seq<Entry>, key: string, text: string)
    requires PlainKey(key) && WellFormedEntries(es)
    ensures WellFormedEntries(SetData(es, key, text))
  {
    if es == [] {
    } else if es[0].key != key {
      SetDataKeepsPlain(es[1..], key, text);
    }
  }

  /** Only the empty key, under which arrays keep their elements, occurs more than once. */
  ghost predicate NoRepeats(es: seq<Entry>) {
    && (forall i, j :: 0 <= i < j < |es| && es[i].key == es[j].key ==> es[i].key == "")
    && (forall i :: 0 <= i < |es| && es[i].key != "" ==> NoRepeats(es[i].tree.children))
  }

  lemma {:induction false} NoRepeatsIsDistinct(es: seq<Entry>)
    requires WellFormedEntries(es) && NoRepeats(es)
    ensures DistinctEntries(es)
  {
    forall i | 0 <= i < |es| ensures Distinct(es[i].tree) {
      if !CopiedWhole(es[i].tree) { NoRepeatsIsDistinct(es[i].tree.children); }
    }
  }

  /** Merging removes the repeated keys of the second list. */
  lemma {:induction false} MergeNeverRepeats(xs: seq<Entry>, ys: seq<Entry>)
    requires NoRepeats(xs) && WellFormedEntries(ys)
    ensures NoRepeats(MergeEntries(xs, ys))
    decreases ys
  {
    if ys == [] {
    } else {
      var y, kept := ys[0], Drop(xs, {ys[0].key});
      DropNeverRepeats(xs, {y.key});
      KeySetDrop(xs, {y.key});
      MovedNeverRepeats(xs, y);
      forall i | 0 <= i < |kept| ensures kept[i].key != y.key {
        assert kept[i].key in KeySet(kept);
      }
      MergeNeverRepeats(MergeEntry(xs, y), ys[1..]);
    }
  }

  lemma {:induction false} MovedNeverRepeats(xs: seq<Entry>, y: Entry)
    requires NoRepeats(xs) && PlainKey(y.key) && WellFormed(y.tree)
    ensures NoRepeats(Moved(xs, y).tree.children)
    decreases y
  {
    if !CopiedWhole(y.tree) {
      if HasKey(xs, y.key) {
        var i := ChildIsSomeEntry(xs, y.key);
      } else {
        ChildMissing(xs, y.key);
      }
      MergeNeverRepeats(Child(xs, y.key).children, y.tree.children);
    }
  }

  lemma {:induction false} FrontNeverRepeats(e: Entry, rest: seq<Entry>)
    requires NoRepeats(rest) && (e.key != "" ==> NoRepeats(e.tree.children) && e.key !in KeySet(rest))
    ensures NoRepeats([e] + rest)
  {
    var all := [e] + rest;
    forall i, j | 0 <= i < j < |all| && all[i].key == all[j].key ensures all[i].key == "" {
      assert all[j] == rest[j - 1];
      if i == 0 { assert rest[j - 1].key in KeySet(rest); }
    }
  }

  lemma {:induction false} RestNeverRepeats(es: seq<Entry>)
    requires NoRepeats(es) && es != []
    ensures NoRepeats(es[1..])
    ensures es[0].key != "" ==> NoRepeats(es[0].tree.children) && es[0].key !in KeySet(es[1..])
  {
    if es[0].key in KeySet(es[1..]) {
      var i :| 0 <= i < |es[1..]| && es[1..][i].key == es[0].key;
      assert es[i + 1].key == es[0].key;
    }
  }

  lemma {:induction false} DropNeverRepeats(es: seq<Entry>, ks: set<string>)
    requires NoRepeats(es)
    ensures NoRepeats(Drop(es, ks))
  {
    if es == [] {
    } else {
      hide NoRepeats;
      RestNeverRepeats(es);
      DropNeverRepeats(es[1..], ks);
      KeySetDrop(es[1..], ks);
      if es[0].key !in ks { FrontNeverRepeats(es[0], Drop(es[1..], ks)); }
    }
  }

  lemma {:induction false} SetDataNeverRepeats(es: seq<Entry>, key: string, text: string)
    requires NoRepeats(es) && key != ""
    ensures NoRepeats(SetData(es, key, text))
  {
    if es == [] {
    } else if es[0].key == key {
    } else {
      hide NoRepeats;
      RestNeverRepeats(es);
      SetDataNeverRepeats(es[1..], key, text);
      SetDataKeys(es[1..], key, text);
      FrontNeverRepeats(es[0], SetData(es[1..], key, text));
    }
  }

  /** Reading a file with plain keys removes its repeated keys, and leaves an object whose keys are
      plain and distinct: surely so when none was repeated, and otherwise unless an object was merged
      into an array. */
  lemma ReadWellFormed(file: ConfigFile)
    requires Loads(file) && WellFormedEntries(file.parsed.value.children)
    ensures var es := Read(EMPTY_TREE, file).children;
            && NoRepeats(es)
            && (WellFormedEntries(es) ==> DistinctEntries(es))
            && (DistinctEntries(file.parsed.value.children) ==> WellFormedEntries(es))
  {
    var ys, text := file.parsed.value.children, Join(file.Parent(), '/');
    var es := MergeEntries([], ys);
    WellFormedMerge(EMPTY_TREE, file.parsed.value, 0);
    MergeNeverRepeats([], ys);
    SetDataNeverRepeats(es, "configPath", text);
    if DistinctEntries(ys) {
      MergedWellFormed([], ys);
      ConfigPathIsPlain();
      SetDataKeepsPlain(es, "configPath", text);
    }
    if WellFormedEntries(Read(EMPTY_TREE, file).children) {
      NoRepeatsIsDistinct(Read(EMPTY_TREE, file).children);
    }
  }

  lemma ConfigPathIsPlain()
    ensures PlainKey("configPath")
  {}

  /** What was read is never a leaf or an array: it says where it was found. */
  lemma ReadIsObject(file: ConfigFile)
    requires Loads(file)
    ensures !CopiedWhole(Read(EMPTY_TREE, file))
  {
    var merged, key := MergeTrees(EMPTY_TREE, file.parsed.value, 0), "configPath";
    SetDataKeys(merged.children, key, Join(file.Parent(), '/'));
    assert key in KeySet(Read(EMPTY_TREE, file).children);
  }

  lemma {:induction false} NestWellFormed(path: seq<string>, t: Tree)
    requires PlainPath(path)
    requires WellFormedEntries(t.children) && DistinctEntries(t.children) && !CopiedWhole(t)
    ensures var n := Nest(path, t);
            WellFormedEntries(n.children) && DistinctEntries(n.children) && !CopiedWhole(n)
  {
    if path == [] {
    } else {
      NestWellFormed(path[1..], t);
      assert Nest(path, t).children[0].key != "";
    }
  }

  method LoadFile(config: PropertyTree, file: ConfigFile) returns (fileName: Option<string>)
    modifies config
    ensures !Loads(file) ==> fileName.None? && config.Value() == old(config.Value())
    ensures Loads(file) ==>
              fileName == Some(BaseName(file.name)) && config.Value() == Read(old(config.Value()), file)
  {
    var extension1 := Extension(Stem(file.name));
    var extension2 := Extension(file.name);
    if extension1 == ".conf" && extension2 in {".json", ".info", ".ini", ".xml"} && file.parsed.Some? {
      MergePropertyTrees(config, file.parsed.value, 0);
      config.Put("configPath", Join(file.Parent(), '/'));
      fileName := Some(file.name[..|file.name| - |extension1| - |extension2|]);
      BaseIsFront(file.name);
    } else {
      fileName := None;
    }
  }

  // ---------- Directories ----------

  /** The regular files of a directory and of everything below it, in iteration order. */
  function FilesOf(location: seq<string>, below: seq<string>, entries: seq<DirEntry>): seq<ConfigFile>
    decreases entries
  {
    if entries == [] then []
    else FilesOfEntry(location, below, entries[0]) + FilesOf(location, below, entries[1..])
  }

  function FilesOfEntry(location: seq<string>, below: seq<string>, entry: DirEntry): seq<ConfigFile>
    decreases entry
  {
    match entry
    case Regular(name, parsed) => [ConfigFile(location, below, name, parsed)]
    case Directory(name, entries) => FilesOf(location, below + [name], entries)
    case Other => []
  }

  /** Following the names of directories leads to a listing with this file. */
  ghost predicate Lists(entries: seq<DirEntry>, dirs: seq<string>, name: string, parsed: Option<Tree>)
    decreases dirs
  {
    if dirs == [] then Regular(name, parsed) in entries
    else exists inner :: Directory(dirs[0], inner) in entries && Lists(inner, dirs[1..], name, parsed)
  }

  lemma {:induction false} FilesAreBelow(location: seq<string>, below: seq<string>, entries: seq<DirEntry>)
    ensures forall f :: f in FilesOf(location, below, entries) ==> f.location == location && below <= f.below
    decreases entries
  {
    if entries == [] {
    } else {
      if entries[0].Directory? { FilesAreBelow(location, below + [entries[0].name], entries[0].entries); }
      FilesAreBelow(location, below, entries[1..]);
    }
  }

  /** The files of a directory are those that are listed in it, or in a directory below it that its
      directories lead to, and no others. */
  lemma {:induction false} FilesOfExactly(location: seq<string>, below: seq<string>, entries: seq<DirEntry>,
                                          dirs: seq<string>, name: string, parsed: Option<Tree>)
    ensures ConfigFile(location, below + dirs, name, parsed) in FilesOf(location, below, entries) <==>
            Lists(entries, dirs, name, parsed)
    decreases entries
  {
    var file := ConfigFile(location, below + dirs, name, parsed);
    if entries == [] {
    } else {
      FilesOfExactly(location, below, entries[1..], dirs, name, parsed);
      ListsStep(entries, dirs, name, parsed);
      FilesOfEntryExactly(location, below, entries[0], dirs, name, parsed);
    }
  }

  lemma PrefixStep(below: seq<string>, next: string, dirs: seq<string>)
    ensures below + [next] <= below + dirs ==> dirs != [] && dirs[0] == next
  {
    if below + [next] <= below + dirs { assert (below + [next])[|below|] == (below + dirs)[|below|]; }
  }

  lemma {:induction false} FilesOfEntryExactly(location: seq<string>, below: seq<string>, entry: DirEntry,
                                               dirs: seq<string>, name: string, parsed: Option<Tree>)
    ensures ConfigFile(location, below + dirs, name, parsed) in FilesOfEntry(location, below, entry) <==>
            Lists([entry], dirs, name, parsed)
    decreases entry
  {
    if entry.Directory? {
      FilesAreBelow(location, below + [entry.name], entry.entries);
      PrefixStep(below, entry.name, dirs);
      if dirs != [] && dirs[0] == entry.name {
        assert below + dirs == (below + [entry.name]) + dirs[1..];
        FilesOfExactly(location, below + [entry.name], entry.entries, dirs[1..], name, parsed);
      }
      if Lists([entry], dirs, name, parsed) && dirs != [] {
        var inner :| Directory(dirs[0], inner) in [entry] && Lists(inner, dirs[1..], name, parsed);
      }
    } else if dirs != [] {
      assert |below + dirs| != |below|;
    } else {
      assert below + dirs == below;
    }
  }

  lemma {:induction false} ListsStep(entries: seq<DirEntry>, dirs: seq<string>, name: string, parsed: Option<Tree>)
    requires entries != []
    ensures Lists(entries, dirs, name, parsed) <==>
            Lists([entries[0]], dirs, name, parsed) || Lists(entries[1..], dirs, name, parsed)
  {
    assert entries == [entries[0]] + entries[1..];
    if dirs != [] {
      if inner :| Directory(dirs[0], inner) in entries && Lists(inner, dirs[1..], name, parsed) {
        assert Directory(dirs[0], inner) in [entries[0]] || Directory(dirs[0], inner) in entries[1..];
      }
    }
  }

  /** A directory stands for the files in it, in its place: with `FilesOfConcat`, the order of all. */
  lemma {:induction false} FilesOfOne(location: seq<string>, below: seq<string>, name: string, parsed: Option<Tree>,
                                      inner: seq<DirEntry>)
    ensures FilesOf(location, below, [Regular(name, parsed)]) == [ConfigFile(location, below, name, parsed)]
    ensures FilesOf(location, below, [Directory(name, inner)]) == FilesOf(location, below + [name], inner)
    ensures FilesOf(location, below, [Other]) == []
  {
    assert [Regular(name, parsed)][1..] == [] && [Directory(name, inner)][1..] == [] && [Other][1..] == [];
    assert FilesOf(location, below, []) == [];
  }

  lemma {:induction false} AfterFilesConcat(config: Tree, fs: seq<ConfigFile>, gs: seq<ConfigFile>)
    ensures AfterFiles(config, fs + gs) == AfterFiles(AfterFiles(config, fs), gs)
    decreases fs
  {
    if fs == [] {
      assert fs + gs == gs;
    } else {
      assert (fs + gs)[1..] == fs[1..] + gs;
      AfterFilesConcat(AfterFile(config, fs[0]), fs[1..], gs);
    }
  }

  lemma {:induction false} FilesOfConcat(location: seq<string>, below: seq<string>,
                                         xs: seq<DirEntry>, ys: seq<DirEntry>)
    ensures FilesOf(location, below, xs + ys) == FilesOf(location, below, xs) + FilesOf(location, below, ys)
    decreases xs
  {
    if xs == [] {
      assert xs + ys == ys;
    } else {
      assert (xs + ys)[1..] == xs[1..] + ys;
      FilesOfConcat(location, below, xs[1..], ys);
    }
  }

  lemma {:induction false} FilesUpTo(location: seq<string>, below: seq<string>, entries: seq<DirEntry>, i: nat)
    requires i < |entries|
    ensures FilesOf(location, below, entries[..i + 1]) ==
            FilesOf(location, below, entries[..i]) + FilesOfEntry(location, below, entries[i])
  {
    assert entries[..i + 1] == entries[..i] + [entries[i]];
    FilesOfConcat(location, below, entries[..i], [entries[i]]);
    assert FilesOf(location, below, [entries[i]]) ==
           FilesOfEntry(location, below, entries[i]) + FilesOf(location, below, []);
  }

  /** `dir` is the directory's path from `parentDir`, the location being searched. */
  method LoadModulesConfigFromDir(config: PropertyTree, dir: seq<string>, entries: seq<DirEntry>,
                                  parentDir: seq<string>)
    modifies config
    ensures config.Value() == AfterFiles(old(config.Value()), FilesOf(parentDir, dir, entries))
    decreases entries
  {
    for itr := 0 to |entries|
      invariant config.Value() == AfterFiles(old(config.Value()), FilesOf(parentDir, dir, entries[..itr]))
    {
      FilesUpTo(parentDir, dir, entries, itr);
      LoadEntry(config, dir, entries[itr], parentDir);
      AfterFilesConcat(old(config.Value()), FilesOf(parentDir, dir, entries[..itr]),
                       FilesOfEntry(parentDir, dir, entries[itr]));
    }
    assert entries[..|entries|] == entries;
  }

  method LoadEntry(config: PropertyTree, dir: seq<string>, entry: DirEntry, parentDir: seq<string>)
    modifies config
    ensures config.Value() == AfterFiles(old(config.Value()), FilesOfEntry(parentDir, dir, entry))
    decreases entry
  {
    match entry {
      case Regular(name, parsed) =>
        var file := ConfigFile(parentDir, dir, name, parsed);
        assert FilesOfEntry(parentDir, dir, entry)[0] == file;
        ghost var before := config.Value();
        LoadModule(config, file);
        assert AfterFiles(before, [file]) == AfterFile(before, file);
      case Directory(name, inner) =>
        LoadModulesConfigFromDir(config, dir + [name], inner, parentDir);
      case Other =>
    }
  }

  method LoadModule(config: PropertyTree, file: ConfigFile)
    modifies config
    ensures config.Value() == AfterFile(old(config.Value()), file)
  {
    var moduleConfig := new PropertyTree(EMPTY_TREE);
    var fileName := LoadFile(moduleConfig, file);
    if fileName.Some? {
      var key := DiffPathToKey(file.Parent(), file.location);
      assert file.Parent()[|file.location|..] == file.below;
      key := if key == "" then "modules" else "modules." + key;
      key := key + "." + fileName.value;
      var loadedConfig := Nest(SplitAll(key, '.'), moduleConfig.Value());
      MergePropertyTrees(config, loadedConfig, 0);
    }
  }

  // ---------- Several locations ----------

  /** The configuration after loading each location that is a directory, in turn. */
  function AfterLocations(config: Tree, locations: seq<string>, directories: map<string, seq<DirEntry>>): Tree
    decreases locations
  {
    if locations == [] then config
    else AfterLocations(AfterLocation(config, locations[0], directories), locations[1..], directories)
  }

  function AfterLocation(config: Tree, dir: string, directories: map<string, seq<DirEntry>>): Tree {
    if dir in directories then AfterFiles(config, FilesOf([dir], [], directories[dir])) else config
  }

  lemma {:induction false} AfterLocationsConcat(config: Tree, xs: seq<string>, ys: seq<string>,
                                                directories: map<string, seq<DirEntry>>)
    ensures AfterLocations(config, xs + ys, directories) ==
            AfterLocations(AfterLocations(config, xs, directories), ys, directories)
    decreases xs
  {
    if xs == [] {
      assert xs + ys == ys;
    } else {
      assert (xs + ys)[0] == xs[0] && (xs + ys)[1..] == xs[1..] + ys;
      AfterLocationsConcat(AfterLocation(config, xs[0], directories), xs[1..], ys, directories);
    }
  }

  method LoadModulesConfig(config: PropertyTree, configDir: string, modulesConfigPath: string,
                           directories: map<string, seq<DirEntry>>)
    modifies config
    ensures var path := if modulesConfigPath != "" then modulesConfigPath
                        else if configDir == "" then "modules" else configDir + "/modules";
            config.Value() == AfterLocations(old(config.Value()), Lines(path, ':'), directories)
  {
    var path := modulesConfigPath;
    if path == "" { path := if configDir == "" then "modules" else configDir + "/modules"; }
    var locations := Split(path, ':');
    hide Lines, AfterFiles, FilesOf;
    for i := 0 to |locations|
      invariant AfterLocations(config.Value(), locations[i..], directories) ==
                AfterLocations(old(config.Value()), locations, directories)
    {
      var dir := locations[i];
      if dir in directories {
        LoadModulesConfigFromDir(config, [], directories[dir], [dir]);
      }
      assert locations[i..][1..] == locations[i + 1..];
    }
  }
}
