/** Where the settings of module files are found once everything is loaded. */
module LoadedSettings {
  import opened LoadOrder
  import opened MergeLaws
  import opened ModuleLoader
  import opened Options
  import opened PropertyTrees
  import opened Text

  /** A setting of a file: a leaf or an array at a path of what the file holds. */
  ghost predicate Sets(file: ConfigFile, path: seq<string>, v: Tree) {
    && file.parsed.Some? && path != [] && path[0] != "configPath"
    && Find(file.parsed.value, path) == Some(v)
    && forall i :: 0 <= i < |v.children| ==> v.children[i].key == ""
  }

  /** The file's own keys are plain, and no object holds one twice. */
  ghost predicate PlainFile(file: ConfigFile) {
    file.parsed.Some? && ReadsPlain(file.parsed.value.children) && DistinctEntries(file.parsed.value.children)
  }

  // ---------- One file ----------

  lemma {:induction false} SetDataChild(es: seq<Entry>, key: string, text: string, other: string)
    ensures Child(SetData(es, key, text), other) ==
            if other == key then Child(es, key).(data := text) else Child(es, other)
    ensures HasKey(SetData(es, key, text), other) <==> other == key || HasKey(es, other)
  {
    HasKeyStep(SetData(es, key, text), other);
    if es == [] {
    } else {
      HasKeyStep(es, other);
      if es[0].key != key { SetDataChild(es[1..], key, text, other); }
    }
  }

  /** Reading a file leaves every setting where the file has it, and says where the file was found. */
  lemma {:induction false} ReadFinds(config: Tree, file: ConfigFile, path: seq<string>, v: Tree)
    requires Loads(file) && PlainFile(file) && Sets(file, path, v)
    ensures Find(Read(config, file), path) == Some(v)
    ensures Data(Read(config, file), ["configPath"]) == Some(Join(file.Parent(), '/'))
  {
    hide Loads;
    var merged, text := MergeTrees(config, file.parsed.value, 0), Join(file.Parent(), '/');
    LeavesAndArraysFound(config, file.parsed.value, path, v, []);
    SetDataChild(merged.children, "configPath", text, path[0]);
    SetDataChild(merged.children, "configPath", text, "configPath");
    var there := Child(Read(config, file).children, "configPath");
    assert ["configPath"][1..] == [] && Find(there, []) == Some(there);
  }

  lemma {:induction false} FindNested(at: seq<string>, t: Tree, path: seq<string>)
    ensures Find(Nest(at, t), at + path) == Find(t, path)
  {
    if at == [] {
      assert at + path == path;
    } else {
      assert (at + path)[0] == at[0] && (at + path)[1..] == at[1..] + path;
      assert Nest(at, t).children[0].key == at[0];
      FindNested(at[1..], t, path);
    }
  }

  lemma {:induction false} FindConcat(t: Tree, at: seq<string>, path: seq<string>)
    requires Find(t, at).Some?
    ensures Find(t, at + path) == Find(Find(t, at).value, path)
    decreases at
  {
    if at == [] {
      assert at + path == path;
    } else {
      assert (at + path)[0] == at[0] && (at + path)[1..] == at[1..] + path;
      FindConcat(Child(t.children, at[0]), at[1..], path);
    }
  }

  /** Once a file is loaded its settings are found below its key, whatever was there before. */
  lemma {:induction false} SettingLoaded(config: Tree, file: ConfigFile, path: seq<string>, v: Tree)
    requires Usable(file) && Loads(file) && PlainFile(file) && Sets(file, path, v)
    ensures Find(AfterFile(config, file), KeyPath(file) + path) == Some(v)
  {
    hide Read, KeyPath, Find;
    var at, t := KeyPath(file), Read(EMPTY_TREE, file);
    ReadFinds(EMPTY_TREE, file, path, v);
    LoadHere(config, file);
    FindConcat(AfterFile(config, file), at, path);
    UsableNested(file);
    WellFormedReadsPlain(t.children);
    LeavesAndArraysFound(Find(config, at).GetOr(EMPTY_TREE), t, path, v, []);
  }

  // ---------- Many files ----------

  /** With files at incomparable keys, every setting of every one is found in the end. */
  lemma {:induction false} EverySettingLoaded(config: Tree, files: seq<ConfigFile>, i: nat, path: seq<string>, v: Tree)
    requires AllUsable(files) && SeparateKeys(files)
    requires i < |files| && Loads(files[i]) && PlainFile(files[i]) && Sets(files[i], path, v)
    ensures Find(AfterFiles(config, files), KeyPath(files[i]) + path) == Some(v)
  {
    hide Read, KeyPath, Find, AfterFiles, SeparateKeys, PlainFile, Sets;
    var file := files[i];
    var at, t := KeyPath(file), Read(EMPTY_TREE, file);
    ReadFinds(EMPTY_TREE, file, path, v);
    ModuleIsolated(config, files, i);
    FindConcat(AfterFiles(config, files), at, path);
    FoundInRead(Find(config, at).GetOr(EMPTY_TREE), file, path, v);
  }

  lemma {:induction false} FoundInRead(before: Tree, file: ConfigFile, path: seq<string>, v: Tree)
    requires Usable(file) && Loads(file) && PlainFile(file) && Sets(file, path, v)
    ensures Find(MergeTrees(before, Read(EMPTY_TREE, file), 0), path) == Some(v)
  {
    hide Read, KeyPath, Find;
    ReadFinds(EMPTY_TREE, file, path, v);
    UsableNested(file);
    WellFormedReadsPlain(Read(EMPTY_TREE, file).children);
    LeavesAndArraysFound(before, Read(EMPTY_TREE, file), path, v, []);
  }

  /** The file that is loaded last has its settings, whatever the others are. */
  lemma {:induction false} LastFileWins(config: Tree, files: seq<ConfigFile>, file: ConfigFile, path: seq<string>,
                                        v: Tree)
    requires Usable(file) && Loads(file) && PlainFile(file) && Sets(file, path, v)
    ensures Find(AfterFiles(config, files + [file]), KeyPath(file) + path) == Some(v)
  {
    hide Find, KeyPath, Usable, Loads, PlainFile, Sets, AfterFile;
    AfterFilesConcat(config, files, [file]);
    assert [file][1..] == [];
    SettingLoaded(AfterFiles(config, files), file, path, v);
  }

  /** And so have the files of the location that comes last in the list. */
  lemma {:induction false} LastLocationWins(config: Tree, locations: seq<string>, dir: string,
                                            directories: map<string, seq<DirEntry>>, i: nat, path: seq<string>,
                                            v: Tree)
    requires dir in directories
    requires var files := FilesOf([dir], [], directories[dir]);
             && AllUsable(files) && SeparateKeys(files)
             && i < |files| && Loads(files[i]) && PlainFile(files[i]) && Sets(files[i], path, v)
    ensures var file := FilesOf([dir], [], directories[dir])[i];
            Find(AfterLocations(config, locations + [dir], directories), KeyPath(file) + path) == Some(v)
  {
    hide Find, KeyPath, AllUsable, SeparateKeys, Loads, PlainFile, Sets, AfterFiles, FilesOf;
    AfterLocationsConcat(config, locations, [dir], directories);
    assert [dir][1..] == [];
    EverySettingLoaded(AfterLocations(config, locations, directories), FilesOf([dir], [], directories[dir]),
                       i, path, v);
  }

  /** A setting stays through the locations that follow, unless one of their files is put at a place
      comparable with it. */
  lemma {:induction false} SettingStays(config: Tree, locations: seq<string>,
                                        directories: map<string, seq<DirEntry>>, path: seq<string>)
    requires forall dir :: dir in locations && dir in directories ==>
               AllUsable(FilesOf([dir], [], directories[dir])) && Apart(FilesOf([dir], [], directories[dir]), path)
    ensures Find(AfterLocations(config, locations, directories), path) == Find(config, path)
    decreases locations
  {
    if locations == [] {
    } else {
      hide Find, AllUsable, Apart, AfterFiles, FilesOf;
      var dir := locations[0];
      if dir in directories { LoadAllElsewhere(config, FilesOf([dir], [], directories[dir]), path); }
      SettingStays(AfterLocation(config, dir, directories), locations[1..], directories, path);
    }
  }
}
