/**
Extraction of the uv archive into an empty directory, and the marker built from what was extracted:
when the validator accepts the result.
*/
module UvExtract {
  import opened Bytes
  import opened Rearranged
  import opened Text
  import opened UvTree
  import opened Wrappers

  const MAX_UV_ARCHIVE_FILES: nat := 32
  const MAX_UV_ARCHIVE_BYTES: nat := 256 * 1024 * 1024

  /** An entry of the archive; `written` says whether creating, copying and syncing it succeeds. */
  datatype ZipItem = ZipItem(name: string, isDir: bool, isLink: bool, size: nat, content: seq<byte>, written: bool)

  datatype ExtractError =
    | BadCount | UnsafeName | ReservedName | IsLink | DuplicateName | NotPlain | BadFlag | TooLarge | IoFailed
    | Incomplete | ManyExecutables | MissingExecutable | MarkerTaken | Rejected

  /** How a marker is written, and the order its files are put in. */
  datatype MarkerEnv = MarkerEnv(uv: UvEnv, write: Marker -> seq<byte>, sort: seq<InstalledFile> -> seq<InstalledFile>)

  /** What is written parses back, sorting only rearranges, and digests are 64 hexadecimal digits. */
  ghost predicate IsSound(env: MarkerEnv) {
    && (forall m :: env.uv.parse(env.write(m)) == Some(m))
    && (forall files :: multiset(env.sort(files)) == multiset(files))
    && (forall content :: IsHexDigest(env.uv.sha(content)))
  }

  // ---------- names built from components ----------

  /** The path written into the marker is read back as the components it was made of. */
  lemma JoinedIsSafe(name: string)
    requires SafePath(name).Some?
    ensures SafePath(Join(SafePath(name).value)) == SafePath(name)
  {
    var path := SafePath(name).value;
    SafePathExact(name, path);
    SafePathExact(Join(path), path);
    hide SafePath, Join, IsOrdinary;
  }

  // ---------- what has been extracted ----------

  /** Every directory on the way to `path`, itself included. */
  function Prefixes(path: RelPath): set<RelPath> {
    set n | 0 < n <= |path| :: path[..n]
  }

  function KeyOfName(env: UvEnv, name: string): RelPath {
    if SafePath(name).Some? then Fold(env, SafePath(name).value) else []
  }

  /** The directories that directory entries ask for. */
  function EntryDirs(env: UvEnv, items: seq<ZipItem>): set<RelPath> {
    if items == [] then {}
    else
      var last := items[|items| - 1];
      EntryDirs(env, items[..|items| - 1]) + if last.isDir then Prefixes(KeyOfName(env, last.name)) else {}
  }

  function Keys(env: UvEnv, files: seq<InstalledFile>): set<RelPath> {
    set i | 0 <= i < |files| :: KeyOf(env, files[i])
  }

  /** The tree holds exactly the extracted files, under different names, and the directories they need or entries ask for. */
  ghost predicate Extracted(env: UvEnv, items: seq<ZipItem>, tree: Tree, files: seq<InstalledFile>) {
    && (forall i | 0 <= i < |files| :: IsInstalled(env, tree, files[i]))
    && (forall i, j | 0 <= i < j < |files| :: KeyOf(env, files[i]) != KeyOf(env, files[j]))
    && FilesOf(tree) == Keys(env, files)
    && DirsOf(tree) == ListedDirs(env, files) + EntryDirs(env, items)
    && !HasSpecial(tree)
  }

  function WithDirs(tree: Tree, path: RelPath): Tree {
    tree + map p | p in Prefixes(path) :: DirNode
  }

  ghost predicate PlainAlong(tree: Tree, path: RelPath) {
    forall p | p in Prefixes(path) :: p in tree ==> tree[p].DirNode?
  }

  lemma WithDirsKinds(tree: Tree, path: RelPath)
    requires PlainAlong(tree, path)
    ensures FilesOf(WithDirs(tree, path)) == FilesOf(tree)
    ensures DirsOf(WithDirs(tree, path)) == DirsOf(tree) + Prefixes(path)
    ensures HasSpecial(WithDirs(tree, path)) <==> HasSpecial(tree)
    ensures forall p | p in tree :: p in WithDirs(tree, path) && WithDirs(tree, path)[p] == tree[p]
  {
    hide Prefixes;
    var after := WithDirs(tree, path);
    if p :| p in after && after[p].Special? {
      assert tree[p].Special?;
    }
    if p :| p in tree && tree[p].Special? {
      assert after[p].Special?;
    }
  }

  lemma AddDirectory(env: UvEnv, items: seq<ZipItem>, item: ZipItem, tree: Tree, files: seq<InstalledFile>)
    requires Extracted(env, items, tree, files) && item.isDir && PlainAlong(tree, KeyOfName(env, item.name))
    ensures Extracted(env, items + [item], WithDirs(tree, KeyOfName(env, item.name)), files)
  {
    hide KeyOfName, Prefixes, WithDirs, ListedDirs, FilesOf, DirsOf, HasSpecial, Keys, KeyOf, SafePath, IsHexDigest;
    var after := WithDirs(tree, KeyOfName(env, item.name));
    WithDirsKinds(tree, KeyOfName(env, item.name));
    assert (items + [item])[..|items|] == items;
    forall i | 0 <= i < |files| ensures IsInstalled(env, after, files[i]) {
      assert IsInstalled(env, tree, files[i]);
    }
  }

  lemma AddFileKinds(tree: Tree, key: RelPath, content: seq<byte>)
    requires key !in tree
    ensures FilesOf(tree[key := FileNode(content)]) == FilesOf(tree) + {key}
    ensures DirsOf(tree[key := FileNode(content)]) == DirsOf(tree)
    ensures HasSpecial(tree[key := FileNode(content)]) <==> HasSpecial(tree)
  {
    var after := tree[key := FileNode(content)];
    if p :| p in tree && tree[p].Special? {
      assert after[p].Special?;
    }
  }

  lemma ParentsAreAncestors(key: RelPath)
    requires key != []
    ensures Prefixes(key[..|key| - 1]) == Ancestors(key)
  {
    forall p ensures p in Ancestors(key) <==> p in Prefixes(key[..|key| - 1]) {
      if p in Ancestors(key) {
        var n :| 0 < n < |key| && p == key[..n];
        PrefixOfPrefix(key, |key| - 1, n);
      }
      if p in Prefixes(key[..|key| - 1]) {
        var n :| 0 < n <= |key| - 1 && p == key[..|key| - 1][..n];
        PrefixOfPrefix(key, |key| - 1, n);
      }
    }
  }

  lemma AddFile(env: UvEnv, items: seq<ZipItem>, item: ZipItem, tree: Tree, files: seq<InstalledFile>, f: InstalledFile)
    requires Extracted(env, items, tree, files) && !item.isDir
    requires var key := KeyOf(env, f);
             && SafePath(f.path).Some? && key != [] && PlainAlong(tree, key[..|key| - 1])
             && key !in WithDirs(tree, key[..|key| - 1]) && key !in Keys(env, files)
    requires f.bytes == |item.content| && f.sha == env.sha(item.content) && IsHexDigest(f.sha)
    ensures var key := KeyOf(env, f);
            Extracted(env, items + [item], WithDirs(tree, key[..|key| - 1])[key := FileNode(item.content)], files + [f])
  {
    var key := KeyOf(env, f);
    hide KeyOfName, Prefixes, WithDirs, Ancestors, FilesOf, DirsOf, HasSpecial, KeyOf, SafePath, IsHexDigest, Keys, ListedDirs,
         EntryDirs, PlainAlong, IsInstalled;
    var dirs := WithDirs(tree, key[..|key| - 1]);
    var after := dirs[key := FileNode(item.content)];
    WithDirsKinds(tree, key[..|key| - 1]);
    AddFileKinds(dirs, key, item.content);
    ParentsAreAncestors(key);
    KeysGrow(env, files, f);
    DistinctGrows(env, files, f);
    OneMoreEntry(env, items, item, files, f);
    NewIsInstalled(env, after, f, item.content);
    forall g | g in files + [f] ensures IsInstalled(env, after, g) {
      if g in files {
        StillInstalled(env, tree, after, g);
      }
    }
  }

  lemma NewIsInstalled(env: UvEnv, tree: Tree, f: InstalledFile, content: seq<byte>)
    requires SafePath(f.path).Some? && KeyOf(env, f) in tree && tree[KeyOf(env, f)] == FileNode(content)
    requires f.bytes == |content| && f.sha == env.sha(content) && IsHexDigest(f.sha)
    ensures IsInstalled(env, tree, f)
  {
    hide KeyOf, SafePath, IsHexDigest;
  }

  lemma StillInstalled(env: UvEnv, tree: Tree, after: Tree, f: InstalledFile)
    requires IsInstalled(env, tree, f)
    requires forall p | p in tree :: p in after && after[p] == tree[p]
    ensures IsInstalled(env, after, f)
  {
    hide KeyOf, SafePath, IsHexDigest;
  }

  lemma DistinctGrows(env: UvEnv, files: seq<InstalledFile>, f: InstalledFile)
    requires forall i, j | 0 <= i < j < |files| :: KeyOf(env, files[i]) != KeyOf(env, files[j])
    requires KeyOf(env, f) !in Keys(env, files)
    ensures var more := files + [f];
            forall i, j | 0 <= i < j < |more| :: KeyOf(env, more[i]) != KeyOf(env, more[j])
  {
    hide KeyOf;
    forall i | 0 <= i < |files| ensures KeyOf(env, files[i]) in Keys(env, files) {
    }
  }

  lemma OneMoreEntry(env: UvEnv, items: seq<ZipItem>, item: ZipItem, files: seq<InstalledFile>, f: InstalledFile)
    requires !item.isDir
    ensures EntryDirs(env, items + [item]) == EntryDirs(env, items)
    ensures ListedDirs(env, files + [f]) == ListedDirs(env, files) + Ancestors(KeyOf(env, f))
  {
    hide KeyOf, KeyOfName, Ancestors, Prefixes;
    assert (items + [item])[..|items|] == items && (files + [f])[..|files|] == files;
  }

  lemma KeysGrow(env: UvEnv, files: seq<InstalledFile>, f: InstalledFile)
    ensures Keys(env, files + [f]) == Keys(env, files) + {KeyOf(env, f)}
  {
    hide KeyOf;
    var more := files + [f];
    assert more[|files|] == f;
    assert forall i | 0 <= i < |files| :: more[i] == files[i];
  }

  // ---------- extraction ----------

  class Staging {
    const env: MarkerEnv
    var tree: Tree

    constructor (env: MarkerEnv)
      ensures this.env == env && tree == map[]
    {
      this.env := env;
      tree := map[];
    }

    /** `ensure_plain_directory`: creates what is missing, and fails on anything that is no directory. */
    method EnsurePlainDirectory(path: RelPath) returns (ok: bool)
      modifies this`tree
      ensures ok <==> PlainAlong(old(tree), path)
      ensures ok ==> tree == WithDirs(old(tree), path)
    {
      hide MadeSoFar, PlainAlong, WithDirs;
      var n := 0;
      NothingMade(tree, path);
      while n < |path|
        invariant n <= |path| && MadeSoFar(old(tree), tree, path, n)
      {
        var current := path[..n + 1];
        OneMoreMade(old(tree), tree, path, n);
        if current in tree && !tree[current].DirNode? {
          return false;
        }
        tree := tree[current := DirNode];
        n := n + 1;
      }
      AllMade(old(tree), tree, path);
      ok := true;
    }

    /** One entry of the archive. */
    method ExtractItem(ghost done: seq<ZipItem>, item: ZipItem, p: Progress) returns (r: Result<Progress, ExtractError>)
      requires IsSound(env) && Extracting(env.uv, done, tree, p)
      modifies this`tree
      ensures r.Ok? ==> Extracting(env.uv, done + [item], tree, r.value)
      ensures r != Err(Rejected)
    {
      hide Extracting, PlainAlong, WithDirs, Prefixes, IsExecutableName;
      var safe := SafePath(item.name);
      if safe.None? {
        return Err(UnsafeName);
      }
      var relative := safe.value;
      if relative == [MANAGED_UV_MARKER] {
        return Err(ReservedName);
      }
      if item.isLink {
        return Err(IsLink);
      }
      var key := Fold(env.uv, relative);
      if key in p.seen {
        return Err(DuplicateName);
      }
      var f := InstalledFile(Join(relative), env.uv.sha(item.content), item.size);
      NameOfItem(env.uv, item, f);
      hide SafePath, Fold, KeyOf, KeyOfName, Join;
      if item.isDir {
        var made := EnsurePlainDirectory(key);
        if !made {
          return Err(NotPlain);
        }
        DirectoryExtracted(env.uv, done, item, old(tree), p);
        return Ok(p.(seen := p.seen + {key}));
      }
      if EndsWith(item.name, "/") {
        return Err(BadFlag);
      }
      var total := p.total + item.size;
      if item.size > MAX_UV_ARCHIVE_BYTES || total > MAX_UV_ARCHIVE_BYTES {
        return Err(TooLarge);
      }
      var made := EnsurePlainDirectory(key[..|key| - 1]);
      if !made {
        return Err(NotPlain);
      }
      if key in tree || !item.written {
        return Err(IoFailed);
      }
      tree := tree[key := FileNode(item.content)];
      if |item.content| != item.size {
        return Err(Incomplete);
      }
      var isExecutable := IsExecutableName(relative);
      if isExecutable && p.executable.Some? {
        return Err(ManyExecutables);
      }
      FileExtracted(env, done, item, old(tree), p, f, total);
      r := Ok(Progress(p.files + [f], p.seen + {key}, if isExecutable then Some(relative) else p.executable, total));
    }

    /** The entries one after the other; `p` is what has been extracted when all went well. */
    method ExtractItems(items: seq<ZipItem>) returns (r: Result<Progress, ExtractError>)
      requires IsSound(env) && tree == map[]
      modifies this`tree
      ensures r.Ok? ==> 0 < |items| <= MAX_UV_ARCHIVE_FILES && Extracting(env.uv, items, tree, r.value)
      ensures r != Err(Rejected)
    {
      hide IsSound, Extracting, Extracted, IsExecutable;
      if items == [] || |items| > MAX_UV_ARCHIVE_FILES {
        return Err(BadCount);
      }
      var p := Progress([], {}, None, 0);
      NothingExtracted(env.uv, p);
      var k := 0;
      while k < |items|
        invariant k <= |items| && Extracting(env.uv, items[..k], tree, p)
      {
        assert items[..k + 1] == items[..k] + [items[k]];
        var one := ExtractItem(items[..k], items[k], p);
        if one.Err? {
          return Err(one.error);
        }
        p := one.value;
        k := k + 1;
      }
      assert items[..k] == items;
      r := Ok(p);
    }

    /**
    `extract_managed_uv_archive`, the validator being what `UvTree.ValidateManagedUvDir` is proved to
    compute. `published` says whether writing the marker and giving it its name succeeds.
    */
    method ExtractManagedUvArchive(items: seq<ZipItem>, published: bool)
      returns (r: Result<RelPath, ExtractError>, ghost before: Tree, ghost p: Progress)
      requires IsSound(env) && tree == map[]
      modifies this`tree
      ensures r.Ok? || r == Err(Rejected) ==>
                && IsBuilt(env, items, before, p)
                && var m := MarkerFor(env, p.executable.value, p.files);
                   var text := env.write(m);
                   && tree == before[MarkerPath(env.uv) := FileNode(text)]
                   && (r.Ok? <==> |text| <= MAX_MARKER_BYTES && NoEmptyDirs(env.uv, items, p.files)
                                  && OwnEntryRight(env.uv, m, text))
      ensures r.Ok? ==> Accepts(env.uv, tree) && r.value == p.executable.value
    {
      hide Extracting, Accepts, MarkerPath, OwnEntryRight, NoEmptyDirs, Fold;
      before, p := tree, Progress([], {}, None, 0);
      var extracted := ExtractItems(items);
      if extracted.Err? {
        return Err(extracted.error), before, p;
      }
      before, p := tree, extracted.value;
      var executable := extracted.value.executable;
      if executable.None? {
        return Err(MissingExecutable), before, p;
      }
      ExecutableIsPath(env.uv, items, tree, extracted.value);
      var m := MarkerFor(env, executable.value, extracted.value.files);
      var temporary := [env.uv.fold(MANAGED_UV_MARKER + ".tmp")];
      var place := MarkerPath(env.uv);
      if temporary in tree || !published || (place in tree && !tree[place].FileNode?) {
        return Err(MarkerTaken), before, p;
      }
      ExtractedAcceptedIff(env, items, tree, extracted.value);
      tree := tree[place := FileNode(env.write(m))];
      if !Accepts(env.uv, tree) {
        return Err(Rejected), before, p;
      }
      r := Ok(executable.value);
    }
  }

  lemma NothingExtracted(env: UvEnv, p: Progress)
    requires p.files == [] && p.executable == None
    ensures Extracting(env, [], map[], p)
  {
  }

  lemma ExecutableIsPath(env: UvEnv, items: seq<ZipItem>, tree: Tree, p: Progress)
    requires Extracting(env, items, tree, p) && p.executable.Some?
    ensures p.executable.value != []
  {
    hide Extracted;
  }

  /** What the loop keeps: the marker's files, all names seen, the executable, and the bytes so far. */
  datatype Progress = Progress(files: seq<InstalledFile>, seen: set<RelPath>, executable: Option<RelPath>, total: nat)

  ghost predicate Extracting(env: UvEnv, done: seq<ZipItem>, tree: Tree, p: Progress) {
    && Extracted(env, done, tree, p.files)
    && (forall i | 0 <= i < |p.files| :: KeyOf(env, p.files[i]) in p.seen)
    && (p.executable.Some? ==> IsExecutable(p.files, p.executable.value))
  }

  ghost predicate IsExecutable(files: seq<InstalledFile>, path: RelPath) {
    IsExecutableName(path) && exists i | 0 <= i < |files| :: SafePath(files[i].path) == Some(path)
  }

  lemma NameOfItem(env: UvEnv, item: ZipItem, f: InstalledFile)
    requires SafePath(item.name).Some? && f.path == Join(SafePath(item.name).value)
    ensures SafePath(f.path) == SafePath(item.name)
    ensures KeyOf(env, f) == KeyOfName(env, item.name) == Fold(env, SafePath(item.name).value) != []
  {
    JoinedIsSafe(item.name);
    SafePathStaysInside(item.name);
    hide SafePath, Join;
  }

  lemma DirectoryExtracted(env: UvEnv, done: seq<ZipItem>, item: ZipItem, tree: Tree, p: Progress)
    requires Extracting(env, done, tree, p) && item.isDir && PlainAlong(tree, KeyOfName(env, item.name))
    ensures Extracting(env, done + [item], WithDirs(tree, KeyOfName(env, item.name)),
                       p.(seen := p.seen + {KeyOfName(env, item.name)}))
  {
    hide Extracted, KeyOf, KeyOfName, WithDirs, PlainAlong, IsExecutable;
    AddDirectory(env, done, item, tree, p.files);
  }

  lemma FileExtracted(env: MarkerEnv, done: seq<ZipItem>, item: ZipItem, tree: Tree, p: Progress, f: InstalledFile,
                      total: nat)
    requires IsSound(env) && Extracting(env.uv, done, tree, p) && !item.isDir
    requires var key := KeyOf(env.uv, f);
             && SafePath(f.path).Some? && key != [] && key !in p.seen
             && PlainAlong(tree, key[..|key| - 1]) && key !in WithDirs(tree, key[..|key| - 1])
    requires f.bytes == |item.content| && f.sha == env.uv.sha(item.content)
    ensures var key := KeyOf(env.uv, f);
            var relative := SafePath(f.path).value;
            Extracting(env.uv, done + [item], WithDirs(tree, key[..|key| - 1])[key := FileNode(item.content)],
                       Progress(p.files + [f], p.seen + {key},
                                if IsExecutableName(relative) then Some(relative) else p.executable, total))
  {
    hide Extracted, KeyOf, SafePath, WithDirs, PlainAlong, IsExecutableName, IsExecutable, IsHexDigest;
    var key := KeyOf(env.uv, f);
    assert IsHexDigest(env.uv.sha(item.content));
    assert key !in Keys(env.uv, p.files);
    AddFile(env.uv, done, item, tree, p.files, f);
    ExecutableKept(p, f);
  }

  lemma ExecutableKept(p: Progress, f: InstalledFile)
    requires SafePath(f.path).Some?
    ensures IsExecutableName(SafePath(f.path).value) ==> IsExecutable(p.files + [f], SafePath(f.path).value)
    ensures p.executable.Some? && IsExecutable(p.files, p.executable.value) ==>
              IsExecutable(p.files + [f], p.executable.value)
  {
    hide SafePath, IsExecutableName;
    var more := p.files + [f];
    assert more[|p.files|] == f;
    if p.executable.Some? && IsExecutable(p.files, p.executable.value) {
      var i :| 0 <= i < |p.files| && SafePath(p.files[i].path) == p.executable;
      assert more[i] == p.files[i];
    }
  }

  lemma PrefixOfPrefix(path: RelPath, n: nat, k: nat)
    requires k <= n <= |path|
    ensures path[..n][..k] == path[..k]
  {
  }

  lemma LongerPrefix(path: RelPath, n: nat)
    requires n < |path|
    ensures Prefixes(path[..n + 1]) == Prefixes(path[..n]) + {path[..n + 1]}
    ensures path[..n + 1] !in Prefixes(path[..n]) && path[..n + 1] in Prefixes(path)
  {
    forall p | p in Prefixes(path[..n]) ensures p in Prefixes(path[..n + 1]) && |p| <= n {
      var k :| 0 < k <= n && p == path[..n][..k];
      PrefixOfPrefix(path, n, k);
      PrefixOfPrefix(path, n + 1, k);
    }
    PrefixOfPrefix(path, n + 1, n + 1);
    forall p | p in Prefixes(path[..n + 1]) ensures p in Prefixes(path[..n]) || p == path[..n + 1] {
      var k :| 0 < k <= n + 1 && p == path[..n + 1][..k];
      PrefixOfPrefix(path, n + 1, k);
      if k <= n {
        PrefixOfPrefix(path, n, k);
      }
    }
  }

  /** The first `n` directories on the way are there. */
  ghost predicate MadeSoFar(before: Tree, now: Tree, path: RelPath, n: nat)
    requires n <= |path|
  {
    PlainAlong(before, path[..n]) && now == WithDirs(before, path[..n])
  }

  lemma NothingMade(before: Tree, path: RelPath)
    ensures MadeSoFar(before, before, path, 0)
  {
    assert Prefixes(path[..0]) == {};
  }

  lemma OneMoreMade(before: Tree, now: Tree, path: RelPath, n: nat)
    requires n < |path| && MadeSoFar(before, now, path, n)
    ensures var current := path[..n + 1];
            if current in now && !now[current].DirNode? then !PlainAlong(before, path)
            else MadeSoFar(before, now[current := DirNode], path, n + 1)
  {
    LongerPrefix(path, n);
    hide Prefixes;
  }

  lemma AllMade(before: Tree, now: Tree, path: RelPath)
    requires MadeSoFar(before, now, path, |path|)
    ensures PlainAlong(before, path) && now == WithDirs(before, path)
  {
    assert path[..|path|] == path;
  }

  // ---------- when the validator accepts what was extracted ----------

  /** Every directory entry has a file below it. */
  predicate NoEmptyDirs(env: UvEnv, items: seq<ZipItem>, files: seq<InstalledFile>) {
    EntryDirs(env, items) <= ListedDirs(env, files)
  }

  lemma SortedElements(env: MarkerEnv, files: seq<InstalledFile>)
    requires IsSound(env)
    ensures forall f :: f in env.sort(files) <==> f in files
    ensures |env.sort(files)| == |files|
  {
    var sorted := env.sort(files);
    assert multiset(sorted) == multiset(files);
    assert |multiset(sorted)| == |multiset(files)|;
    forall f ensures f in sorted <==> f in files {
      assert f in multiset(sorted) <==> f in multiset(files);
    }
  }

  lemma SortedDistinct(env: MarkerEnv, files: seq<InstalledFile>)
    requires IsSound(env)
    requires forall i, j | 0 <= i < j < |files| :: KeyOf(env.uv, files[i]) != KeyOf(env.uv, files[j])
    ensures var sorted := env.sort(files);
            forall i, j | 0 <= i < j < |sorted| :: KeyOf(env.uv, sorted[i]) != KeyOf(env.uv, sorted[j])
  {
    hide KeyOf;
    var sorted := env.sort(files);
    assert multiset(sorted) == multiset(files);
    forall i, j | 0 <= i < j < |sorted| ensures KeyOf(env.uv, sorted[i]) != KeyOf(env.uv, sorted[j]) {
      SubmultisetOfTwo(sorted, i, j);
      var p, q := TwoPositions(files, sorted[i], sorted[j]);
    }
  }

  lemma SameListing(env: UvEnv, a: seq<InstalledFile>, b: seq<InstalledFile>)
    requires forall f :: f in a <==> f in b
    ensures Keys(env, a) == Keys(env, b) && ListedDirs(env, a) == ListedDirs(env, b)
  {
    SubListing(env, a, b);
    SubListing(env, b, a);
  }

  lemma SubListing(env: UvEnv, a: seq<InstalledFile>, b: seq<InstalledFile>)
    requires forall f | f in a :: f in b
    ensures Keys(env, a) <= Keys(env, b) && ListedDirs(env, a) <= ListedDirs(env, b)
  {
    hide KeyOf, Ancestors, ListedDirs;
    forall k | k in Keys(env, a) ensures k in Keys(env, b) {
      var i :| 0 <= i < |a| && KeyOf(env, a[i]) == k;
      assert a[i] in a;
      var j :| 0 <= j < |b| && b[j] == a[i];
    }
    forall d | d in ListedDirs(env, a) ensures d in ListedDirs(env, b) {
      ListedDirsAt(env, a, d);
      var i :| 0 <= i < |a| && d in Ancestors(KeyOf(env, a[i]));
      assert a[i] in a;
      var j :| 0 <= j < |b| && b[j] == a[i];
      ListedDirsAt(env, b, d);
    }
  }

  function MarkerFor(env: MarkerEnv, executable: RelPath, files: seq<InstalledFile>): Marker
    requires executable != []
  {
    Marker(MANAGED_UV_VERSION, MANAGED_UV_SHA256, Join(executable), env.sort(files))
  }

  lemma MarkerForWellFormed(env: MarkerEnv, name: string, files: seq<InstalledFile>)
    requires IsSound(env) && SafePath(name).Some? && SafePath(name).value != []
    requires IsExecutable(files, SafePath(name).value)
    requires forall i, j | 0 <= i < j < |files| :: KeyOf(env.uv, files[i]) != KeyOf(env.uv, files[j])
    ensures IsWellFormed(env.uv, MarkerFor(env, SafePath(name).value, files))
  {
    var executable := SafePath(name).value;
    var m := MarkerFor(env, executable, files);
    JoinedIsSafe(name);
    SortedDistinct(env, files);
    SortedElements(env, files);
    hide SafePath, KeyOf, Join, IsExecutableName;
    var i :| 0 <= i < |files| && SafePath(files[i].path) == Some(executable);
    assert files[i] in m.files;
    var j :| 0 <= j < |m.files| && m.files[j] == files[i];
    assert SafePath(m.files[j].path) == SafePath(m.executable);
  }

  lemma MarkerKinds(tree: Tree, p: RelPath, text: seq<byte>)
    requires p in tree ==> tree[p].FileNode?
    ensures var after := tree[p := FileNode(text)];
            && FilesOf(after) == FilesOf(tree) + {p} && DirsOf(after) == DirsOf(tree)
            && (HasSpecial(after) <==> HasSpecial(tree))
  {
    if p !in tree {
      AddFileKinds(tree, p, text);
    } else {
      var after := tree[p := FileNode(text)];
      NoSpecialIffNone(tree);
      NoSpecialIffNone(after);
      assert (set q | q in tree && tree[q].Special?) == set q | q in after && after[q].Special?;
    }
  }

  /** Whether one extracted file is installed once the marker is in place. */
  lemma InstalledWithMarker(env: UvEnv, tree: Tree, f: InstalledFile, text: seq<byte>)
    requires IsInstalled(env, tree, f)
    ensures IsInstalled(env, tree[MarkerPath(env) := FileNode(text)], f) <==>
              (KeyOf(env, f) == MarkerPath(env) ==>
                 f.bytes == |text| && f.sha == env.sha(text) && IsHexDigest(f.sha))
  {
    hide SafePath, KeyOf, MarkerPath, IsHexDigest;
  }

  lemma AllInstalledIff(env: MarkerEnv, tree: Tree, files: seq<InstalledFile>, m: Marker, text: seq<byte>)
    requires IsSound(env) && m.files == env.sort(files)
    requires forall i | 0 <= i < |files| :: IsInstalled(env.uv, tree, files[i])
    ensures (forall i | 0 <= i < |m.files| :: IsInstalled(env.uv, tree[MarkerPath(env.uv) := FileNode(text)], m.files[i]))
            <==> OwnEntryRight(env.uv, m, text)
  {
    SortedElements(env, files);
    hide IsInstalled, KeyOf, MarkerPath, IsHexDigest, IsSound;
    forall i | 0 <= i < |m.files|
      ensures IsInstalled(env.uv, tree[MarkerPath(env.uv) := FileNode(text)], m.files[i]) <==>
                (KeyOf(env.uv, m.files[i]) == MarkerPath(env.uv) ==>
                   m.files[i].bytes == |text| && m.files[i].sha == env.uv.sha(text) && IsHexDigest(m.files[i].sha))
    {
      assert m.files[i] in m.files;
      assert m.files[i] in files;
      InstalledWithMarker(env.uv, tree, m.files[i], text);
    }
  }

  /** The marker built from what was extracted. */
  ghost predicate IsBuilt(env: MarkerEnv, items: seq<ZipItem>, tree: Tree, p: Progress) {
    && Extracting(env.uv, items, tree, p)
    && p.executable.Some? && p.executable.value != []
    && (MarkerPath(env.uv) in tree ==> tree[MarkerPath(env.uv)].FileNode?)
  }

  lemma BuiltIsWellFormed(env: MarkerEnv, items: seq<ZipItem>, tree: Tree, p: Progress)
    requires IsSound(env) && IsBuilt(env, items, tree, p)
    ensures IsWellFormed(env.uv, MarkerFor(env, p.executable.value, p.files))
  {
    hide SafePath, KeyOf, IsExecutableName, IsInstalled, MarkerPath, Keys, ListedDirs, EntryDirs, IsWellFormed, MarkerFor;
    var i :| 0 <= i < |p.files| && SafePath(p.files[i].path) == p.executable;
    MarkerForWellFormed(env, p.files[i].path, p.files);
  }

  /**
  When the validator accepts an extracted archive with the marker built from it: exactly when the
  marker is not too long, every directory entry has a file below it, and no entry takes the
  marker's place under another spelling of its name.
  */
  lemma ExtractedAcceptedIff(env: MarkerEnv, items: seq<ZipItem>, tree: Tree, p: Progress)
    requires IsSound(env) && IsBuilt(env, items, tree, p)
    ensures var m := MarkerFor(env, p.executable.value, p.files);
            var text := env.write(m);
            Accepts(env.uv, tree[MarkerPath(env.uv) := FileNode(text)]) <==>
              |text| <= MAX_MARKER_BYTES && NoEmptyDirs(env.uv, items, p.files) && OwnEntryRight(env.uv, m, text)
  {
    hide IsWellFormed, IsInstalled, KeyOf, MarkerPath, FilesOf, DirsOf, HasSpecial, OwnEntryRight, ListedDirs, EntryDirs,
         IsExecutable, ReadMarker, Join;
    BuiltIsWellFormed(env, items, tree, p);
    var m := MarkerFor(env, p.executable.value, p.files);
    var text := env.write(m);
    hide IsSound;
    SortedElements(env, p.files);
    SameListing(env.uv, p.files, m.files);
    AllInstalledIff(env, tree, p.files, m, text);
    MarkerKinds(tree, MarkerPath(env.uv), text);
    MarkerIsRead(env, tree, m);
  }

  lemma MarkerIsRead(env: MarkerEnv, tree: Tree, m: Marker)
    requires IsSound(env)
    ensures ReadMarker(env.uv, tree[MarkerPath(env.uv) := FileNode(env.write(m))]) ==
              if |env.write(m)| <= MAX_MARKER_BYTES then Some(m) else None
  {
    hide MarkerPath;
  }
}
