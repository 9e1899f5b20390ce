/**
Validation of the managed uv installation: a marker file lists every installed file with its size
and digest, and the installed tree must be exactly what the marker says. The file system folds
case, so an entry is found under the folded form of its relative path.
*/
module UvTree {
  import opened Bytes
  import opened Text
  import opened Wrappers

  /** Path components, outermost first. */
  type RelPath = seq<string>

  /** What a name in a directory stands for; a link or another reparse point is `Other`. */
  datatype Item = Plain(content: seq<byte>) | Folder(items: map<string, Item>) | Other

  /** The same without what lies below. */
  datatype Node = FileNode(content: seq<byte>) | DirNode | Special

  /** Everything below the installation directory, by folded relative path. */
  type Tree = map<RelPath, Node>

  datatype Kind = IsFile | IsDir | IsSpecial

  datatype InstalledFile = InstalledFile(path: string, sha: string, bytes: nat)

  datatype Marker = Marker(version: string, archiveSha: string, executable: string, files: seq<InstalledFile>)

  datatype UvEnv = UvEnv(sha: seq<byte> -> string, fold: string -> string, parse: seq<byte> -> Option<Marker>)

  datatype UvError = NotADirectory | NoMarker | BadMarker | UnsafePath | DuplicateFile | Damaged | WrongTree | NoExecutable

  const MANAGED_UV_VERSION := "0.11.3"
  const MANAGED_UV_SHA256 := "ae681c0aaec7cc96af184648cb88d73f8393ed60fa5880abdd6bdb910f9b227c"
  const MANAGED_UV_EXE_NAME := "uv.exe"
  const MANAGED_UV_MARKER := ".uv-install.json"
  const MAX_MARKER_BYTES: nat := 64 * 1024

  // ---------- safe relative paths ----------

  function TrimEndSlashes(s: string): string {
    if s != "" && s[|s| - 1] == '/' then TrimEndSlashes(s[..|s| - 1]) else s
  }

  function Split(s: string): (parts: seq<string>)
    ensures parts != []
  {
    if s == "" then [""]
    else
      var rest := Split(s[1..]);
      if s[0] == '/' then [""] + rest else [[s[0]] + rest[0]] + rest[1..]
  }

  predicate IsControl(c: char) {
    c as int < 0x20 || 0x7F <= c as int < 0xA0
  }

  predicate IsSafeComponent(c: string) {
    && c != "" && c != "." && c != ".."
    && c[|c| - 1] != '.' && c[|c| - 1] != ' '
    && forall i | 0 <= i < |c| :: !IsControl(c[i]) && c[i] !in "<>:\"|?*"
  }

  /** `safe_uv_zip_path`. */
  function SafePath(name: string): Option<RelPath> {
    if name == "" || '\\' in name || '\0' in name then None
    else
      var trimmed := TrimEndSlashes(name);
      if trimmed == "" || trimmed[0] == '/' || (|trimmed| > 1 && trimmed[0] as int < 0x80 && trimmed[1] == ':') then None
      else
        var parts := Split(trimmed);
        if forall i | 0 <= i < |parts| :: IsSafeComponent(parts[i]) then Some(parts) else None
  }

  function Join(parts: seq<string>): string
    requires parts != []
  {
    if |parts| == 1 then parts[0] else parts[0] + "/" + Join(parts[1..])
  }

  lemma {:induction false} JoinSplit(s: string)
    ensures Join(Split(s)) == s
  {
    if s != "" {
      var rest := Split(s[1..]);
      JoinSplit(s[1..]);
      var parts := Split(s);
      if s[0] == '/' {
        assert parts[1..] == rest;
      } else {
        assert parts[1..] == rest[1..];
      }
    }
  }

  lemma {:induction false} SplitHasNoSlash(s: string, i: nat)
    requires i < |Split(s)|
    ensures '/' !in Split(s)[i]
  {
    if s != "" {
      var rest := Split(s[1..]);
      if s[0] == '/' {
        if i > 0 {
          SplitHasNoSlash(s[1..], i - 1);
        }
      } else {
        SplitHasNoSlash(s[1..], i);
      }
    }
  }

  lemma {:induction false} TrimEnds(s: string)
    ensures var t := TrimEndSlashes(s);
            t <= s && (t != "" ==> t[|t| - 1] != '/') && forall i | |t| <= i < |s| :: s[i] == '/'
  {
    if s != "" && s[|s| - 1] == '/' {
      TrimEnds(s[..|s| - 1]);
    }
  }

  lemma {:induction false} SplitAppend(part: string, rest: string)
    requires '/' !in part
    ensures Split(part) == [part]
    ensures Split(part + "/" + rest) == [part] + Split(rest)
  {
    if part == "" {
      assert ("/" + rest)[1..] == rest;
    } else {
      SplitAppend(part[1..], rest);
      assert (part + "/" + rest)[1..] == part[1..] + "/" + rest;
      assert [part[0]] + part[1..] == part;
    }
  }

  lemma {:induction false} SplitJoin(parts: seq<string>)
    requires parts != [] && forall i | 0 <= i < |parts| :: '/' !in parts[i]
    ensures Split(Join(parts)) == parts
  {
    if |parts| == 1 {
      SplitAppend(parts[0], "");
    } else {
      SplitJoin(parts[1..]);
      SplitAppend(parts[0], Join(parts[1..]));
    }
  }

  lemma {:induction false} InJoin(parts: seq<string>, c: char)
    requires parts != [] && c != '/'
    ensures c in Join(parts) <==> exists i | 0 <= i < |parts| :: c in parts[i]
  {
    if |parts| > 1 {
      InJoin(parts[1..], c);
      assert parts == [parts[0]] + parts[1..];
    }
  }

  lemma {:induction false} JoinEnds(parts: seq<string>)
    requires parts != [] && forall i | 0 <= i < |parts| :: parts[i] != "" && '/' !in parts[i]
    ensures Join(parts) != "" && Join(parts)[0] != '/' && Join(parts)[|Join(parts)| - 1] != '/'
  {
    if |parts| > 1 {
      JoinEnds(parts[1..]);
    }
  }

  /** A component that any file system keeps: no control character, no reserved one, no dots and blanks to strip. */
  predicate IsOrdinary(part: string) {
    && part !in ["", ".", ".."] && part[|part| - 1] !in ['.', ' ']
    && forall i | 0 <= i < |part| ::
         part[i] as int >= 0x20 && !(0x7F <= part[i] as int < 0xA0)
         && part[i] !in ['/', '\\', ':', '*', '?', '"', '<', '>', '|']
  }

  lemma SplitOrdinary(name: string)
    requires SafePath(name).Some?
    ensures var path := SafePath(name).value;
            path != [] && Join(path) == TrimEndSlashes(name) && forall i | 0 <= i < |path| :: IsOrdinary(path[i])
  {
    var trimmed := TrimEndSlashes(name);
    var path := Split(trimmed);
    JoinSplit(trimmed);
    TrimEnds(name);
    InJoin(path, '\\');
    forall i | 0 <= i < |path| ensures IsOrdinary(path[i]) {
      SplitHasNoSlash(trimmed, i);
    }
  }

  lemma OrdinaryIsSafe(name: string, path: RelPath)
    requires path != [] && (forall i | 0 <= i < |path| :: IsOrdinary(path[i]))
    requires Join(path) <= name && forall i | |Join(path)| <= i < |name| :: name[i] == '/'
    ensures SafePath(name) == Some(path)
  {
    InJoin(path, '\\');
    InJoin(path, '\0');
    InJoin(path, ':');
    JoinEnds(path);
    SplitJoin(path);
    TrimEnds(name);
    var trimmed := TrimEndSlashes(name);
    assert trimmed == Join(path) by {
      assert |trimmed| <= |Join(path)| && |Join(path)| <= |trimmed|;
    }
    hide Join, Split, TrimEndSlashes;
    forall i | 0 <= i < |path| ensures IsSafeComponent(path[i]) {
      assert IsOrdinary(path[i]);
    }
  }

  /**
  Which names are accepted, and as what: ordinary components joined by single slashes, with any
  number of slashes behind. So no accepted path climbs, is absolute or names a drive.
  */
  lemma SafePathExact(name: string, path: RelPath)
    ensures SafePath(name) == Some(path) <==>
            && path != [] && (forall i | 0 <= i < |path| :: IsOrdinary(path[i]))
            && Join(path) <= name && forall i | |Join(path)| <= i < |name| :: name[i] == '/'
  {
    hide SafePath, Join, IsOrdinary, TrimEndSlashes;
    if SafePath(name) == Some(path) {
      SplitOrdinary(name);
      TrimEnds(name);
    } else if path != [] && (forall i | 0 <= i < |path| :: IsOrdinary(path[i]))
              && Join(path) <= name && forall i | |Join(path)| <= i < |name| :: name[i] == '/' {
      OrdinaryIsSafe(name, path);
    }
  }

  /** An accepted name stays below the directory it is joined to, in either spelling of the separator. */
  lemma {:induction false} SafePathStaysInside(name: string)
    requires SafePath(name).Some?
    ensures var path := SafePath(name).value;
            && path != [] && Join(path) == TrimEndSlashes(name)
            && forall i | 0 <= i < |path| ::
                 && path[i] !in ["", ".", ".."]
                 && '/' !in path[i] && '\\' !in path[i] && ':' !in path[i] && '\0' !in path[i]
    ensures '\\' !in name && '\0' !in name && name[0] != '/'
  {
    SplitOrdinary(name);
    var path := SafePath(name).value;
    assert forall i | 0 <= i < |path| :: IsOrdinary(path[i]);
    JoinEnds(path);
    TrimEnds(name);
    InJoin(path, '\\');
    InJoin(path, '\0');
    hide SafePath, TrimEndSlashes, Join;
  }

  // ---------- directories within directories ----------

  function KindOf(item: Item): Kind {
    match item
    case Plain(_) => IsFile
    case Folder(_) => IsDir
    case Other => IsSpecial
  }

  function NodeOf(item: Item): Node {
    match item
    case Plain(content) => FileNode(content)
    case Folder(_) => DirNode
    case Other => Special
  }

  /** The file system folds case, so no two names in a directory differ in case only. */
  predicate FoldsApart(env: UvEnv, item: Item) {
    item.Folder? ==>
      && (forall m, n | m in item.items && n in item.items && env.fold(m) == env.fold(n) :: m == n)
      && (forall n | n in item.items :: FoldsApart(env, item.items[n]))
  }

  /** What is found under a folded path. */
  function LookUp(env: UvEnv, item: Item, path: RelPath): (found: Option<Item>)
    requires FoldsApart(env, item)
    ensures found.Some? ==> FoldsApart(env, found.value)
    decreases |path|
  {
    if path == [] then Some(item)
    else if !item.Folder? || !exists n :: n in item.items && env.fold(n) == path[0] then None
    else
      var n :| n in item.items && env.fold(n) == path[0];
      LookUp(env, item.items[n], path[1..])
  }

  /** The folded paths of one kind found at `current` and below, listed directory by directory. */
  ghost function Under(env: UvEnv, item: Item, current: RelPath, kind: Kind): set<RelPath>
    decreases item, 1
  {
    (if KindOf(item) == kind then {current} else {}) + Inside(env, item, current, kind)
  }

  ghost function Inside(env: UvEnv, item: Item, current: RelPath, kind: Kind): set<RelPath>
    decreases item, 0
  {
    if !item.Folder? then {}
    else set n, p | n in item.items && p in Under(env, item.items[n], current + [env.fold(n)], kind) :: p
  }

  /** Listing directory by directory finds exactly what looking up paths finds. */
  lemma {:induction false} UnderIsLookUp(env: UvEnv, item: Item, current: RelPath, kind: Kind, path: RelPath)
    requires FoldsApart(env, item)
    ensures current + path in Under(env, item, current, kind) <==>
              LookUp(env, item, path).Some? && KindOf(LookUp(env, item, path).value) == kind
    decreases item
  {
    if path == [] {
      assert current + path == current;
      InsideIsLonger(env, item, current, kind, current);
    } else if item.Folder? {
      forall n | n in item.items
        ensures current + path in Under(env, item.items[n], current + [env.fold(n)], kind) <==>
                  env.fold(n) == path[0] && LookUp(env, item, path).Some? && KindOf(LookUp(env, item, path).value) == kind
      {
        var next := current + [env.fold(n)];
        if env.fold(n) == path[0] {
          assert current + path == next + path[1..];
          UnderIsLookUp(env, item.items[n], next, kind, path[1..]);
        } else {
          UnderExtends(env, item.items[n], next, kind, current + path);
          OtherHead(current, env.fold(n), path);
        }
      }
    }
  }

  lemma OtherHead(current: RelPath, head: string, path: RelPath)
    requires path != [] && head != path[0]
    ensures !(current + [head] <= current + path)
  {
    assert (current + path)[|current|] == path[0] && (current + [head])[|current|] == head;
  }

  lemma {:induction false} UnderExtends(env: UvEnv, item: Item, current: RelPath, kind: Kind, p: RelPath)
    ensures p in Under(env, item, current, kind) ==> current <= p
    decreases item
  {
    InsideIsLonger(env, item, current, kind, p);
  }

  lemma {:induction false} InsideIsLonger(env: UvEnv, item: Item, current: RelPath, kind: Kind, p: RelPath)
    ensures p in Inside(env, item, current, kind) ==> current < p
    decreases item, 0
  {
    if p in Inside(env, item, current, kind) {
      var n :| n in item.items && p in Under(env, item.items[n], current + [env.fold(n)], kind);
      UnderExtends(env, item.items[n], current + [env.fold(n)], kind, p);
    }
  }

  ghost function AllPaths(env: UvEnv, root: Item): set<RelPath> {
    Inside(env, root, [], IsFile) + Inside(env, root, [], IsDir) + Inside(env, root, [], IsSpecial)
  }

  lemma InsideIsLookUp(env: UvEnv, root: Item, kind: Kind, path: RelPath)
    requires FoldsApart(env, root)
    ensures path in Inside(env, root, [], kind) <==>
              path != [] && LookUp(env, root, path).Some? && KindOf(LookUp(env, root, path).value) == kind
  {
    assert [] + path == path;
    UnderIsLookUp(env, root, [], kind, path);
    InsideIsLonger(env, root, [], kind, path);
  }

  lemma AllPathsLookUp(env: UvEnv, root: Item, path: RelPath)
    requires FoldsApart(env, root)
    ensures path in AllPaths(env, root) <==> path != [] && LookUp(env, root, path).Some?
  {
    InsideIsLookUp(env, root, IsFile, path);
    InsideIsLookUp(env, root, IsDir, path);
    InsideIsLookUp(env, root, IsSpecial, path);
  }

  /** The whole installation as one map. */
  ghost function Flat(env: UvEnv, root: Item): (tree: Tree)
    requires FoldsApart(env, root)
    ensures forall p :: p in tree <==> p != [] && LookUp(env, root, p).Some?
    ensures forall p | p in tree :: tree[p] == NodeOf(LookUp(env, root, p).value)
  {
    forall p ensures p in AllPaths(env, root) <==> p != [] && LookUp(env, root, p).Some? {
      AllPathsLookUp(env, root, p);
    }
    map p | p in AllPaths(env, root) :: NodeOf(LookUp(env, root, p).value)
  }

  // ---------- what a valid installation is ----------

  function Fold(env: UvEnv, path: RelPath): RelPath {
    seq(|path|, i requires 0 <= i < |path| => env.fold(path[i]))
  }

  function MarkerPath(env: UvEnv): RelPath {
    [env.fold(MANAGED_UV_MARKER)]
  }

  predicate IsHexDigest(s: string) {
    |s| == 64 && forall i | 0 <= i < 64 :: '0' <= s[i] <= '9' || 'a' <= s[i] <= 'f' || 'A' <= s[i] <= 'F'
  }

  /** The folded path of a listed file; empty when the name is unsafe. */
  function KeyOf(env: UvEnv, f: InstalledFile): RelPath {
    if SafePath(f.path).Some? then Fold(env, SafePath(f.path).value) else []
  }

  predicate IsInstalled(env: UvEnv, tree: Tree, f: InstalledFile) {
    && SafePath(f.path).Some?
    && KeyOf(env, f) in tree && tree[KeyOf(env, f)].FileNode?
    && |tree[KeyOf(env, f)].content| == f.bytes
    && env.sha(tree[KeyOf(env, f)].content) == f.sha
    && IsHexDigest(f.sha)
  }

  predicate IsExecutableName(path: RelPath) {
    path != [] && EqIgnoreCase(path[|path| - 1], MANAGED_UV_EXE_NAME)
  }

  predicate IsWellFormed(env: UvEnv, m: Marker) {
    && m.version == MANAGED_UV_VERSION && m.archiveSha == MANAGED_UV_SHA256 && m.files != []
    && SafePath(m.executable).Some? && IsExecutableName(SafePath(m.executable).value)
    && (exists i | 0 <= i < |m.files| :: SafePath(m.files[i].path) == SafePath(m.executable))
    && (forall i, j | 0 <= i < j < |m.files| :: KeyOf(env, m.files[i]) != KeyOf(env, m.files[j]))
  }

  function Listed(env: UvEnv, m: Marker): set<RelPath> {
    set i | 0 <= i < |m.files| :: KeyOf(env, m.files[i])
  }

  function Ancestors(path: RelPath): set<RelPath> {
    set n | 0 < n < |path| :: path[..n]
  }

  /** The directories that listed files lie in. */
  function ListedDirs(env: UvEnv, files: seq<InstalledFile>): set<RelPath> {
    if files == [] then {} else ListedDirs(env, files[..|files| - 1]) + Ancestors(KeyOf(env, files[|files| - 1]))
  }

  function FilesOf(tree: Tree): set<RelPath> {
    set p | p in tree && tree[p].FileNode?
  }

  function DirsOf(tree: Tree): set<RelPath> {
    set p | p in tree && tree[p].DirNode?
  }

  predicate HasSpecial(tree: Tree) {
    exists p | p in tree :: tree[p].Special?
  }

  function ReadMarker(env: UvEnv, tree: Tree): Option<Marker> {
    if MarkerPath(env) in tree && tree[MarkerPath(env)].FileNode? && |tree[MarkerPath(env)].content| <= MAX_MARKER_BYTES
    then env.parse(tree[MarkerPath(env)].content)
    else None
  }

  /** The tree is exactly what its marker says. */
  predicate IsExact(env: UvEnv, tree: Tree, m: Marker) {
    && IsWellFormed(env, m)
    && (forall i | 0 <= i < |m.files| :: IsInstalled(env, tree, m.files[i]))
    && FilesOf(tree) == Listed(env, m) + {MarkerPath(env)}
    && DirsOf(tree) == ListedDirs(env, m.files)
    && !HasSpecial(tree)
  }

  predicate Accepts(env: UvEnv, tree: Tree) {
    ReadMarker(env, tree).Some? && IsExact(env, tree, ReadMarker(env, tree).value)
  }

  // ---------- the validator ----------

  /** `managed_uv_tree`: adds the files and directories below `item`, or fails on anything special. */
  method WalkTree(env: UvEnv, item: Item, current: RelPath, files0: set<RelPath>, directories0: set<RelPath>)
    returns (r: Option<(set<RelPath>, set<RelPath>)>)
    requires item.Folder?
    ensures r.None? <==> Inside(env, item, current, IsSpecial) != {}
    ensures r.Some? ==>
              && r.value.0 == files0 + Inside(env, item, current, IsFile)
              && r.value.1 == directories0 + Inside(env, item, current, IsDir)
    decreases item
  {
    hide Under, Inside, WalkedTo, KindOf;
    var files, directories := files0, directories0;
    var todo := item.items.Keys;
    NothingWalked(env, item, current, files0, directories0);
    while todo != {}
      invariant todo <= item.items.Keys
      invariant WalkedTo(env, item, current, todo, files0, directories0, files, directories)
      decreases todo
    {
      var n :| n in todo;
      var relative := current + [env.fold(n)];
      OneMoreName(env, item, current, todo, files0, directories0, files, directories, n);
      match item.items[n] {
        case Other => return None;
        case Folder(_) =>
          directories := directories + {relative};
          var below := WalkTree(env, item.items[n], relative, files, directories);
          if below.None? {
            return None;
          }
          files, directories := below.value.0, below.value.1;
        case Plain(_) => files := files + {relative};
      }
      todo := todo - {n};
    }
    AllWalked(env, item, current, files0, directories0, files, directories);
    r := Some((files, directories));
  }

  /** What is inside the names no longer to do. */
  ghost function Part(env: UvEnv, item: Item, current: RelPath, kind: Kind, todo: set<string>): set<RelPath>
    requires item.Folder?
  {
    set n, p | n in item.items && n !in todo && p in Under(env, item.items[n], current + [env.fold(n)], kind) :: p
  }

  /** The names no longer to do held nothing special, and all they held has been added. */
  ghost predicate WalkedTo(env: UvEnv, item: Item, current: RelPath, todo: set<string>,
                           files0: set<RelPath>, directories0: set<RelPath>, files: set<RelPath>, directories: set<RelPath>)
    requires item.Folder?
  {
    && Part(env, item, current, IsSpecial, todo) == {}
    && files == files0 + Part(env, item, current, IsFile, todo)
    && directories == directories0 + Part(env, item, current, IsDir, todo)
  }

  lemma NothingWalked(env: UvEnv, item: Item, current: RelPath, files0: set<RelPath>, directories0: set<RelPath>)
    requires item.Folder?
    ensures WalkedTo(env, item, current, item.items.Keys, files0, directories0, files0, directories0)
  {
    hide Under;
  }

  lemma PartGrows(env: UvEnv, item: Item, current: RelPath, kind: Kind, todo: set<string>, n: string)
    requires item.Folder? && n in todo && n in item.items
    ensures Part(env, item, current, kind, todo - {n}) ==
              Part(env, item, current, kind, todo) + Under(env, item.items[n], current + [env.fold(n)], kind)
    ensures Under(env, item.items[n], current + [env.fold(n)], kind) <= Inside(env, item, current, kind)
  {
    hide Under;
  }

  lemma OneMoreName(env: UvEnv, item: Item, current: RelPath, todo: set<string>,
                    files0: set<RelPath>, directories0: set<RelPath>, files: set<RelPath>, directories: set<RelPath>, n: string)
    requires item.Folder? && n in todo && n in item.items
    requires WalkedTo(env, item, current, todo, files0, directories0, files, directories)
    ensures var child, relative := item.items[n], current + [env.fold(n)];
            match child
            case Other => Inside(env, item, current, IsSpecial) != {}
            case Plain(_) =>
              WalkedTo(env, item, current, todo - {n}, files0, directories0, files + {relative}, directories)
            case Folder(_) =>
              if Inside(env, child, relative, IsSpecial) != {} then Inside(env, item, current, IsSpecial) != {}
              else WalkedTo(env, item, current, todo - {n}, files0, directories0,
                            files + Inside(env, child, relative, IsFile),
                            (directories + {relative}) + Inside(env, child, relative, IsDir))
  {
    hide Part, Under, Inside;
    PartGrows(env, item, current, IsSpecial, todo, n);
    PartGrows(env, item, current, IsFile, todo, n);
    PartGrows(env, item, current, IsDir, todo, n);
    UnderParts(env, item.items[n], current + [env.fold(n)]);
  }

  lemma UnderParts(env: UvEnv, item: Item, current: RelPath)
    ensures forall kind :: Under(env, item, current, kind) ==
                             (if KindOf(item) == kind then {current} else {}) + Inside(env, item, current, kind)
    ensures !item.Folder? ==> forall kind :: Inside(env, item, current, kind) == {}
  {
  }

  lemma AllWalked(env: UvEnv, item: Item, current: RelPath,
                  files0: set<RelPath>, directories0: set<RelPath>, files: set<RelPath>, directories: set<RelPath>)
    requires item.Folder? && WalkedTo(env, item, current, {}, files0, directories0, files, directories)
    ensures Inside(env, item, current, IsSpecial) == {}
    ensures files == files0 + Inside(env, item, current, IsFile)
    ensures directories == directories0 + Inside(env, item, current, IsDir)
  {
    hide Under;
    assert forall kind :: Part(env, item, current, kind, {}) == Inside(env, item, current, kind);
  }

  /** Adds the parents of one listed file, innermost first. */
  method AddAncestors(path: RelPath, before: set<RelPath>) returns (directories: set<RelPath>)
    ensures directories == before + Ancestors(path)
  {
    directories := before;
    var n := |path|;
    while n > 1
      invariant n <= |path|
      invariant directories == before + set k | 0 < k < |path| && n <= k :: path[..k]
    {
      n := n - 1;
      directories := directories + {path[..n]};
    }
  }

  /** The directories that listed files lie in. */
  method CollectDirectories(env: UvEnv, files: seq<InstalledFile>) returns (directories: set<RelPath>)
    ensures directories == ListedDirs(env, files)
  {
    hide Ancestors, KeyOf;
    directories := {};
    var i := 0;
    while i < |files|
      invariant i <= |files| && directories == ListedDirs(env, files[..i])
    {
      assert files[..i + 1][..i] == files[..i];
      directories := AddAncestors(KeyOf(env, files[i]), directories);
      i := i + 1;
    }
    assert files[..i] == files;
  }

  method CheckFile(env: UvEnv, root: Item, f: InstalledFile, seen: set<RelPath>) returns (r: Result<RelPath, UvError>)
    requires FoldsApart(env, root)
    ensures r.Ok? <==> IsInstalled(env, Flat(env, root), f) && KeyOf(env, f) !in seen
    ensures r.Ok? ==> SafePath(f.path) == Some(r.value)
  {
    hide LookUp, FoldsApart;
    var relative := SafePath(f.path);
    if relative.None? {
      return Err(UnsafePath);
    }
    var key := Fold(env, relative.value);
    if key in seen {
      return Err(DuplicateFile);
    }
    SafePathStaysInside(f.path);
    assert key != [] && key == KeyOf(env, f);
    hide SafePath, KeyOf;
    var found := LookUp(env, root, key);
    if found.None? || !found.value.Plain? || |found.value.content| != f.bytes {
      return Err(Damaged);
    }
    if env.sha(found.value.content) != f.sha || !IsHexDigest(f.sha) {
      return Err(Damaged);
    }
    r := Ok(relative.value);
  }

  /** The listed files, all different and all installed; `executable` is the declared one if it is listed. */
  method CheckFiles(env: UvEnv, root: Item, files: seq<InstalledFile>, declared: RelPath)
    returns (r: Result<set<RelPath>, UvError>, executable: Option<RelPath>)
    requires FoldsApart(env, root)
    ensures r.Ok? <==>
              && (forall i | 0 <= i < |files| :: IsInstalled(env, Flat(env, root), files[i]))
              && (forall i, j | 0 <= i < j < |files| :: KeyOf(env, files[i]) != KeyOf(env, files[j]))
    ensures r.Ok? ==> r.value == set i | 0 <= i < |files| :: KeyOf(env, files[i])
    ensures r.Ok? ==> executable == if exists i | 0 <= i < |files| :: SafePath(files[i].path) == Some(declared)
                                    then Some(declared) else None
  {
    var seen: set<RelPath> := {};
    executable := None;
    var n := 0;
    hide IsInstalled, SafePath, KeyOf, FoldsApart, Flat;
    while n < |files|
      invariant n <= |files|
      invariant forall i | 0 <= i < n :: IsInstalled(env, Flat(env, root), files[i])
      invariant forall i, j | 0 <= i < j < n :: KeyOf(env, files[i]) != KeyOf(env, files[j])
      invariant seen == set i | 0 <= i < n :: KeyOf(env, files[i])
      invariant executable.Some? ==> executable.value == declared
      invariant executable.Some? <==> exists i | 0 <= i < n :: SafePath(files[i].path) == Some(declared)
    {
      var one := CheckFile(env, root, files[n], seen);
      if one.Err? {
        return Err(one.error), executable;
      }
      if one.value == declared {
        executable := Some(one.value);
      }
      seen := seen + {KeyOf(env, files[n])};
      n := n + 1;
    }
    r := Ok(seen);
  }

  function KindOfNode(node: Node): Kind {
    match node
    case FileNode(_) => IsFile
    case DirNode => IsDir
    case Special => IsSpecial
  }

  lemma InsideIsFlat(env: UvEnv, root: Item, kind: Kind, p: RelPath)
    requires FoldsApart(env, root)
    ensures p in Inside(env, root, [], kind) <==> p in Flat(env, root) && KindOfNode(Flat(env, root)[p]) == kind
  {
    InsideIsLookUp(env, root, kind, p);
    hide LookUp, FoldsApart, Inside;
  }

  /** The walk of the whole installation, as the flat map sees it. */
  lemma WalkIsFlat(env: UvEnv, root: Item)
    requires root.Folder? && FoldsApart(env, root)
    ensures FilesOf(Flat(env, root)) == Inside(env, root, [], IsFile)
    ensures DirsOf(Flat(env, root)) == Inside(env, root, [], IsDir)
    ensures HasSpecial(Flat(env, root)) <==> Inside(env, root, [], IsSpecial) != {}
  {
    hide FoldsApart, Inside, Flat;
    var tree := Flat(env, root);
    forall p, kind ensures p in Inside(env, root, [], kind) <==> p in tree && KindOfNode(tree[p]) == kind {
      InsideIsFlat(env, root, kind, p);
    }
    assert FilesOf(tree) == Inside(env, root, [], IsFile) && DirsOf(tree) == Inside(env, root, [], IsDir);
    hide FilesOf, DirsOf;
    assert Inside(env, root, [], IsSpecial) == set p | p in tree && tree[p].Special?;
    NoSpecialIffNone(tree);
  }

  lemma NoSpecialIffNone(tree: Tree)
    ensures HasSpecial(tree) <==> (set p | p in tree && tree[p].Special?) != {}
  {
    var special := set p | p in tree && tree[p].Special?;
    forall p | p in tree && tree[p].Special? ensures p in special {
    }
    if special != {} {
      var p :| p in special;
    }
  }

  /** `validate_managed_uv_dir`. */
  method ValidateManagedUvDir(env: UvEnv, root: Item) returns (r: Result<RelPath, UvError>)
    requires FoldsApart(env, root)
    ensures r.Ok? <==> root.Folder? && Accepts(env, Flat(env, root))
    ensures r.Ok? ==> Some(r.value) == SafePath(ReadMarker(env, Flat(env, root)).value.executable)
  {
    hide IsInstalled, SafePath, KeyOf, ListedDirs, IsExecutableName, FoldsApart, LookUp, Inside, FilesOf, DirsOf, HasSpecial;
    if !root.Folder? {
      return Err(NotADirectory);
    }
    ghost var tree := Flat(env, root);
    var marker := LookUp(env, root, MarkerPath(env));
    if marker.None? || !marker.value.Plain? || |marker.value.content| > MAX_MARKER_BYTES {
      return Err(NoMarker);
    }
    var read := env.parse(marker.value.content);
    assert read == ReadMarker(env, tree);
    if read.None? {
      return Err(BadMarker);
    }
    var m := read.value;
    if m.version != MANAGED_UV_VERSION || m.archiveSha != MANAGED_UV_SHA256 || m.files == [] {
      return Err(BadMarker);
    }
    var declared := SafePath(m.executable);
    if declared.None? {
      return Err(UnsafePath);
    }
    hide Flat;
    var seen, executable := CheckFiles(env, root, m.files, declared.value);
    if seen.Err? {
      return Err(seen.error);
    }
    var expectedFiles := seen.value + {MarkerPath(env)};
    var expectedDirectories := CollectDirectories(env, m.files);
    var actual := WalkTree(env, root, [], {}, {});
    WalkIsFlat(env, root);
    if actual.None? || actual.value.0 != expectedFiles || actual.value.1 != expectedDirectories {
      return Err(WrongTree);
    }
    if executable.None? || !IsExecutableName(executable.value) {
      return Err(NoExecutable);
    }
    r := Ok(executable.value);
  }

  // ---------- exactness ----------

  /** The same entry as far as the validator can see: equal, or two files whose digests collide. */
  predicate Alike(env: UvEnv, a: Node, b: Node) {
    a == b || (a.FileNode? && b.FileNode? && |a.content| == |b.content| && env.sha(a.content) == env.sha(b.content))
  }

  lemma SpecialEntry(tree: Tree, p: RelPath)
    requires !HasSpecial(tree) && p in tree
    ensures p in FilesOf(tree) + DirsOf(tree)
  {
  }

  lemma ListedEntryAlike(env: UvEnv, t: Tree, u: Tree, m: Marker, p: RelPath)
    requires IsExact(env, t, m) && IsExact(env, u, m)
    requires p in Listed(env, m)
    ensures p in t && p in u && Alike(env, t[p], u[p])
  {
  }

  /** The marker decides the whole installation: two accepted trees with the same marker agree everywhere. */
  lemma AcceptedTreesAgree(env: UvEnv, t: Tree, u: Tree)
    requires Accepts(env, t) && Accepts(env, u)
    requires t[MarkerPath(env)] == u[MarkerPath(env)]
    ensures t.Keys == u.Keys
    ensures forall p | p in t :: Alike(env, t[p], u[p])
  {
    hide IsWellFormed, ListedDirs, IsInstalled, KeyOf;
    var m := ReadMarker(env, t).value;
    forall p | p in t.Keys + u.Keys
      ensures p in t && p in u && Alike(env, t[p], u[p])
    {
      if p in t {
        SpecialEntry(t, p);
      } else {
        SpecialEntry(u, p);
      }
      if p in Listed(env, m) {
        ListedEntryAlike(env, t, u, m, p);
      } else if p != MarkerPath(env) {
        assert p in DirsOf(t) && p in DirsOf(u);
      }
    }
  }

  /**
  Adding, removing or changing any one entry other than the marker makes an accepted tree rejected,
  unless one file's content is replaced by another of the same length and digest.
  */
  lemma OneChangeRejected(env: UvEnv, t: Tree, u: Tree, p: RelPath)
    requires Accepts(env, t)
    requires p != MarkerPath(env) && t != u && t - {p} == u - {p}
    ensures Accepts(env, u) ==> p in t && p in u && t[p] != u[p] && Alike(env, t[p], u[p])
  {
    hide IsExact, Alike;
    if Accepts(env, u) {
      assert MarkerPath(env) in t - {p} && MarkerPath(env) in u - {p};
      assert (t - {p})[MarkerPath(env)] == t[MarkerPath(env)];
      assert (u - {p})[MarkerPath(env)] == u[MarkerPath(env)];
      AcceptedTreesAgree(env, t, u);
      forall q | q in t && q != p ensures t[q] == u[q] {
        assert (t - {p})[q] == t[q] && (u - {p})[q] == u[q];
      }
    }
  }

  // ---------- which other markers are accepted ----------

  /** What a marker says of the files other than itself. */
  function Others(env: UvEnv, m: Marker): set<(RelPath, nat, string)> {
    set i | 0 <= i < |m.files| && KeyOf(env, m.files[i]) != MarkerPath(env) ::
      (KeyOf(env, m.files[i]), m.files[i].bytes, m.files[i].sha)
  }

  /** A marker that lists itself has to give its own size and digest. */
  predicate OwnEntryRight(env: UvEnv, m: Marker, text: seq<byte>) {
    forall i | 0 <= i < |m.files| && KeyOf(env, m.files[i]) == MarkerPath(env) ::
      m.files[i].bytes == |text| && m.files[i].sha == env.sha(text) && IsHexDigest(m.files[i].sha)
  }

  predicate AllSafe(m: Marker) {
    forall i | 0 <= i < |m.files| :: SafePath(m.files[i].path).Some?
  }

  /** `n`, written as `text`, says of the other files what `m` says. */
  predicate SaysTheSame(env: UvEnv, m: Marker, n: Marker, text: seq<byte>) {
    IsWellFormed(env, n) && AllSafe(n) && OwnEntryRight(env, n, text) && Others(env, n) == Others(env, m)
  }

  lemma {:induction false} ListedDirsAt(env: UvEnv, files: seq<InstalledFile>, p: RelPath)
    ensures p in ListedDirs(env, files) <==> exists i | 0 <= i < |files| :: p in Ancestors(KeyOf(env, files[i]))
  {
    hide KeyOf, Ancestors;
    if files != [] {
      var front := files[..|files| - 1];
      ListedDirsAt(env, front, p);
      assert forall i | 0 <= i < |front| :: files[i] == front[i];
    }
  }

  lemma NoDirectoryOfMarker(env: UvEnv)
    ensures Ancestors(MarkerPath(env)) == {}
  {
  }

  /** The directories follow from what is said of the other files. */
  lemma SameDirectories(env: UvEnv, m: Marker, n: Marker)
    requires forall i | 0 <= i < |m.files| && KeyOf(env, m.files[i]) != MarkerPath(env) :: KeyOf(env, m.files[i]) in Listed(env, n)
    ensures ListedDirs(env, m.files) <= ListedDirs(env, n.files)
  {
    hide KeyOf, Ancestors, ListedDirs, MarkerPath;
    NoDirectoryOfMarker(env);
    forall p | p in ListedDirs(env, m.files) ensures p in ListedDirs(env, n.files) {
      ListedDirsAt(env, m.files, p);
      var i :| 0 <= i < |m.files| && p in Ancestors(KeyOf(env, m.files[i]));
      assert KeyOf(env, m.files[i]) in Listed(env, n);
      var j :| 0 <= j < |n.files| && KeyOf(env, n.files[j]) == KeyOf(env, m.files[i]);
      assert p in Ancestors(KeyOf(env, n.files[j]));
      ListedDirsAt(env, n.files, p);
    }
  }

  lemma OthersListed(env: UvEnv, m: Marker, n: Marker)
    requires Others(env, m) <= Others(env, n)
    ensures forall i | 0 <= i < |m.files| && KeyOf(env, m.files[i]) != MarkerPath(env) :: KeyOf(env, m.files[i]) in Listed(env, n)
    ensures Listed(env, m) + {MarkerPath(env)} <= Listed(env, n) + {MarkerPath(env)}
  {
    hide KeyOf, MarkerPath;
    forall i | 0 <= i < |m.files| && KeyOf(env, m.files[i]) != MarkerPath(env)
      ensures KeyOf(env, m.files[i]) in Listed(env, n)
    {
      var entry := (KeyOf(env, m.files[i]), m.files[i].bytes, m.files[i].sha);
      assert entry in Others(env, m);
      assert entry in Others(env, n);
    }
  }

  /** Files apart from the marker are the same in both trees. */
  lemma OtherFileInstalled(env: UvEnv, t: Tree, u: Tree, f: InstalledFile)
    requires t - {MarkerPath(env)} == u - {MarkerPath(env)}
    requires KeyOf(env, f) != MarkerPath(env)
    ensures IsInstalled(env, t, f) <==> IsInstalled(env, u, f)
  {
    hide SafePath, KeyOf, MarkerPath;
    var k, p := KeyOf(env, f), MarkerPath(env);
    assert k in t <==> k in t - {p};
    assert k in u <==> k in u - {p};
    assert k in t && k in u ==> (t - {p})[k] == t[k] && (u - {p})[k] == u[k];
  }

  lemma ReplaceMarker(env: UvEnv, t: Tree, text: seq<byte>)
    requires MarkerPath(env) in t && t[MarkerPath(env)].FileNode?
    ensures var u := t[MarkerPath(env) := FileNode(text)];
            && u - {MarkerPath(env)} == t - {MarkerPath(env)}
            && FilesOf(u) == FilesOf(t) && DirsOf(u) == DirsOf(t) && (HasSpecial(u) <==> HasSpecial(t))
  {
    var u := t[MarkerPath(env) := FileNode(text)];
    hide MarkerPath;
    NoSpecialIffNone(t);
    NoSpecialIffNone(u);
    hide HasSpecial;
    assert (set p | p in t && t[p].Special?) == set p | p in u && u[p].Special?;
  }

  /** Every entry of `m` about another file is one of `n`, if the same files are installed for both. */
  lemma SameEntries(env: UvEnv, t: Tree, u: Tree, m: Marker, n: Marker)
    requires t - {MarkerPath(env)} == u - {MarkerPath(env)}
    requires forall i | 0 <= i < |m.files| :: IsInstalled(env, t, m.files[i])
    requires forall i | 0 <= i < |n.files| :: IsInstalled(env, u, n.files[i])
    requires Listed(env, m) + {MarkerPath(env)} == Listed(env, n) + {MarkerPath(env)}
    ensures Others(env, m) <= Others(env, n)
  {
    hide SafePath, KeyOf, MarkerPath, IsHexDigest;
    forall e | e in Others(env, m) ensures e in Others(env, n) {
      var i :| 0 <= i < |m.files| && KeyOf(env, m.files[i]) != MarkerPath(env)
               && e == (KeyOf(env, m.files[i]), m.files[i].bytes, m.files[i].sha);
      assert KeyOf(env, m.files[i]) in Listed(env, n) + {MarkerPath(env)};
      var j :| 0 <= j < |n.files| && KeyOf(env, n.files[j]) == KeyOf(env, m.files[i]);
      OtherFileInstalled(env, t, u, m.files[i]);
      assert IsInstalled(env, u, m.files[i]) && IsInstalled(env, u, n.files[j]);
      assert e == (KeyOf(env, n.files[j]), n.files[j].bytes, n.files[j].sha);
    }
  }

  lemma OwnEntryInstalled(env: UvEnv, t: Tree, m: Marker, text: seq<byte>)
    requires MarkerPath(env) in t && t[MarkerPath(env)] == FileNode(text)
    requires forall i | 0 <= i < |m.files| :: IsInstalled(env, t, m.files[i])
    ensures AllSafe(m) && OwnEntryRight(env, m, text)
  {
    hide SafePath, KeyOf, MarkerPath, IsHexDigest;
    forall i | 0 <= i < |m.files| ensures SafePath(m.files[i].path).Some?
      ensures KeyOf(env, m.files[i]) == MarkerPath(env) ==>
                m.files[i].bytes == |text| && m.files[i].sha == env.sha(text) && IsHexDigest(m.files[i].sha)
    {
      assert IsInstalled(env, t, m.files[i]);
    }
  }

  lemma EntryInstalled(env: UvEnv, t: Tree, u: Tree, m: Marker, n: Marker, text: seq<byte>, i: nat)
    requires t - {MarkerPath(env)} == u - {MarkerPath(env)}
    requires MarkerPath(env) in u && u[MarkerPath(env)] == FileNode(text)
    requires forall j | 0 <= j < |m.files| :: IsInstalled(env, t, m.files[j])
    requires AllSafe(n) && OwnEntryRight(env, n, text) && Others(env, n) == Others(env, m)
    requires i < |n.files|
    ensures IsInstalled(env, u, n.files[i])
  {
    hide SafePath, MarkerPath, IsHexDigest;
    var f := n.files[i];
    assert SafePath(f.path).Some?;
    hide KeyOf;
    if KeyOf(env, f) != MarkerPath(env) {
      var e := (KeyOf(env, f), f.bytes, f.sha);
      assert e in Others(env, n);
      assert e in Others(env, m);
      var j :| 0 <= j < |m.files| && KeyOf(env, m.files[j]) != MarkerPath(env)
               && e == (KeyOf(env, m.files[j]), m.files[j].bytes, m.files[j].sha);
      assert IsInstalled(env, t, m.files[j]);
      OtherFileInstalled(env, t, u, m.files[j]);
    }
  }

  lemma SaysTheSameIsExact(env: UvEnv, t: Tree, m: Marker, n: Marker, text: seq<byte>)
    requires IsExact(env, t, m) && SaysTheSame(env, m, n, text)
    requires MarkerPath(env) in t && t[MarkerPath(env)].FileNode?
    ensures IsExact(env, t[MarkerPath(env) := FileNode(text)], n)
  {
    hide IsWellFormed, IsInstalled, ListedDirs, KeyOf, FilesOf, DirsOf, HasSpecial, Others, OwnEntryRight, AllSafe, Listed, MarkerPath;
    var u := t[MarkerPath(env) := FileNode(text)];
    ReplaceMarker(env, t, text);
    OthersListed(env, m, n);
    OthersListed(env, n, m);
    SameDirectories(env, m, n);
    SameDirectories(env, n, m);
    forall i | 0 <= i < |n.files| ensures IsInstalled(env, u, n.files[i]) {
      EntryInstalled(env, t, u, m, n, text, i);
    }
  }

  lemma {:induction false} ExactSaysTheSame(env: UvEnv, t: Tree, m: Marker, n: Marker, text: seq<byte>)
    requires IsExact(env, t, m) && IsExact(env, t[MarkerPath(env) := FileNode(text)], n)
    requires MarkerPath(env) in t && t[MarkerPath(env)].FileNode?
    ensures SaysTheSame(env, m, n, text)
  {
    hide IsWellFormed, IsInstalled, ListedDirs, KeyOf, FilesOf, DirsOf, HasSpecial, Others, OwnEntryRight, AllSafe, Listed, MarkerPath;
    var u := t[MarkerPath(env) := FileNode(text)];
    ReplaceMarker(env, t, text);
    SameEntries(env, t, u, m, n);
    SameEntries(env, u, t, n, m);
    OwnEntryInstalled(env, u, n, text);
  }

  /**
  The marker's own bytes are not pinned. Other text in its place is accepted exactly when it parses
  to a well-formed marker that says the same of the other files, in any order and spelling.
  */
  lemma MarkerTextAcceptedIff(env: UvEnv, t: Tree, text: seq<byte>)
    requires Accepts(env, t) && |text| <= MAX_MARKER_BYTES
    ensures Accepts(env, t[MarkerPath(env) := FileNode(text)]) <==>
              env.parse(text).Some? && SaysTheSame(env, ReadMarker(env, t).value, env.parse(text).value, text)
  {
    var u, m := t[MarkerPath(env) := FileNode(text)], ReadMarker(env, t).value;
    assert ReadMarker(env, u) == env.parse(text);
    hide IsExact, SaysTheSame;
    if env.parse(text).Some? {
      var n := env.parse(text).value;
      if IsExact(env, u, n) {
        ExactSaysTheSame(env, t, m, n, text);
      } else if SaysTheSame(env, m, n, text) {
        SaysTheSameIsExact(env, t, m, n, text);
      }
    }
  }

  /** The list with its first file last. */
  function Rotated(files: seq<InstalledFile>): (r: seq<InstalledFile>)
    requires files != []
    ensures forall f :: f in r <==> f in files
  {
    assert files == [files[0]] + files[1..];
    files[1..] + [files[0]]
  }

  lemma OthersOfSame(env: UvEnv, m: Marker, n: Marker)
    requires forall f | f in m.files :: f in n.files
    ensures Others(env, m) <= Others(env, n)
  {
    hide KeyOf, MarkerPath;
    forall e | e in Others(env, m) ensures e in Others(env, n) {
      var i :| 0 <= i < |m.files| && KeyOf(env, m.files[i]) != MarkerPath(env)
               && e == (KeyOf(env, m.files[i]), m.files[i].bytes, m.files[i].sha);
      assert m.files[i] in m.files;
      var j :| 0 <= j < |n.files| && n.files[j] == m.files[i];
    }
  }

  lemma RotatedWellFormed(env: UvEnv, m: Marker)
    requires IsWellFormed(env, m)
    ensures IsWellFormed(env, m.(files := Rotated(m.files)))
  {
    hide SafePath, KeyOf, IsExecutableName;
    var files := Rotated(m.files);
    var i :| 0 <= i < |m.files| && SafePath(m.files[i].path) == SafePath(m.executable);
    assert m.files[i] in files;
    var j :| 0 <= j < |files| && files[j] == m.files[i];
    forall p, q | 0 <= p < q < |files| ensures KeyOf(env, files[p]) != KeyOf(env, files[q]) {
      assert files[p] == m.files[p + 1];
      assert files[q] == if q < |files| - 1 then m.files[q + 1] else m.files[0];
    }
  }

  lemma ListedFile(env: UvEnv, t: Tree, m: Marker, f: InstalledFile)
    requires IsExact(env, t, m) && f in m.files
    ensures SafePath(f.path).Some? && KeyOf(env, f) in Listed(env, m)
  {
    hide IsWellFormed, ListedDirs, KeyOf, SafePath;
    var i :| 0 <= i < |m.files| && m.files[i] == f;
    assert IsInstalled(env, t, m.files[i]);
  }

  lemma PartOfExact(env: UvEnv, t: Tree, m: Marker, n: Marker, text: seq<byte>)
    requires IsExact(env, t, m) && MarkerPath(env) !in Listed(env, m)
    requires forall f | f in n.files :: f in m.files
    ensures AllSafe(n) && OwnEntryRight(env, n, text)
  {
    hide IsExact, SafePath, KeyOf, MarkerPath, Listed, IsHexDigest;
    forall i | 0 <= i < |n.files| ensures SafePath(n.files[i].path).Some? && KeyOf(env, n.files[i]) != MarkerPath(env) {
      assert n.files[i] in n.files;
      ListedFile(env, t, m, n.files[i]);
    }
  }

  lemma RotatedSaysTheSame(env: UvEnv, t: Tree, m: Marker, text: seq<byte>)
    requires IsExact(env, t, m) && MarkerPath(env) !in Listed(env, m) && m.files != []
    ensures SaysTheSame(env, m, m.(files := Rotated(m.files)), text)
  {
    var n := m.(files := Rotated(m.files));
    assert IsWellFormed(env, m);
    hide IsExact, IsWellFormed, MarkerPath, Others, Listed, Rotated, AllSafe, OwnEntryRight;
    RotatedWellFormed(env, m);
    OthersOfSame(env, m, n);
    OthersOfSame(env, n, m);
    PartOfExact(env, t, m, n, text);
  }

  /** So the order of the list is free: text that lists the first file last is accepted. */
  lemma ReorderedMarkerAccepted(env: UvEnv, t: Tree, text: seq<byte>)
    requires Accepts(env, t) && |text| <= MAX_MARKER_BYTES
    requires var m := ReadMarker(env, t).value;
             && m.files != [] && MarkerPath(env) !in Listed(env, m)
             && env.parse(text) == Some(m.(files := Rotated(m.files)))
    ensures Accepts(env, t[MarkerPath(env) := FileNode(text)])
  {
    var m := ReadMarker(env, t).value;
    assert IsExact(env, t, m);
    hide Accepts, IsExact, SaysTheSame, MarkerPath, ReadMarker, Rotated;
    MarkerTextAcceptedIff(env, t, text);
    RotatedSaysTheSame(env, t, m, text);
  }
}
