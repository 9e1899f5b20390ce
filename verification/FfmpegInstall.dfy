/**
Installation of the pinned FFmpeg tools: stage every member of every downloaded archive next to
its final file, verify each against the manifest, and only then publish them all. File
operations may fail at any point, except removals.
*/
module FfmpegInstall {
  import opened Bytes
  import opened Text
  import opened Wrappers

  datatype Path = ArchiveFile(index: nat) | Temp(name: string) | Final(name: string)

  type Files = map<Path, seq<byte>>

  datatype Member = Member(name: string, archivePath: string, bytes: nat, sha: string)

  datatype Archive = Archive(members: seq<Member>)

  /** The file operations that can fail. */
  datatype Operation = Create(name: string) | Copy(name: string) | MakeExecutable(name: string) | Rename(name: string)

  /** The size a ZIP directory declares for an entry, and what extracting it yields. */
  datatype ZipEntry = ZipEntry(size: nat, content: seq<byte>)

  /** SHA-256 in lower-case hexadecimal, ZIP reading, and the outcome of each file operation. */
  datatype Env = Env(
    sha: seq<byte> -> string, unzip: seq<byte> -> Option<map<string, ZipEntry>>, succeeds: Operation -> bool)

  datatype InstallError =
    | NoArchive | NotZip | MissingMember | SizeMismatch | IoFailed | DigestMismatch | PublishFailed(at: nat)

  /** The content has the digest the manifest pins. */
  predicate IsVerified(env: Env, content: seq<byte>, m: Member) {
    EqIgnoreCase(env.sha(content), m.sha)
  }

  function AllMembers(archives: seq<Archive>): seq<Member> {
    if archives == [] then [] else AllMembers(archives[..|archives| - 1]) + archives[|archives| - 1].members
  }

  predicate DistinctNames(ms: seq<Member>) {
    forall i, j | 0 <= i < j < |ms| :: ms[i].name != ms[j].name
  }

  predicate Names(ms: seq<Member>, name: string) {
    exists i | 0 <= i < |ms| :: ms[i].name == name
  }

  /** The same content, or absence, at one path. */
  predicate SameAt(f: Files, g: Files, p: Path) {
    (p in f <==> p in g) && (p in f && p in g ==> f[p] == g[p])
  }

  // ---------- staging ----------

  /** Only temporary files have changed so far. */
  ghost predicate OnlyTemps(before: Files, now: Files) {
    forall p: Path | !p.Temp? :: SameAt(before, now, p)
  }

  /** The staged members are all verified, and only temporary files have changed. */
  ghost predicate Staged(env: Env, before: Files, now: Files, staged: seq<Member>) {
    && OnlyTemps(before, now)
    && forall i | 0 <= i < |staged| ::
         Temp(staged[i].name) in now && IsVerified(env, now[Temp(staged[i].name)], staged[i])
  }

  /** Every check and file operation of staging this member succeeds. */
  predicate CanStage(env: Env, zip: map<string, ZipEntry>, m: Member) {
    && m.archivePath in zip && zip[m.archivePath].size == m.bytes && IsVerified(env, zip[m.archivePath].content, m)
    && env.succeeds(Create(m.name)) && env.succeeds(Copy(m.name)) && env.succeeds(MakeExecutable(m.name))
  }

  predicate ArchiveReady(env: Env, files: Files, index: nat, members: seq<Member>) {
    && ArchiveFile(index) in files && env.unzip(files[ArchiveFile(index)]).Some?
    && forall k | 0 <= k < |members| :: CanStage(env, env.unzip(files[ArchiveFile(index)]).value, members[k])
  }

  predicate AllReady(env: Env, files: Files, archives: seq<Archive>) {
    forall i | 0 <= i < |archives| :: ArchiveReady(env, files, i, archives[i].members)
  }

  /** The first `n` members can be renamed to their final names. */
  predicate Renames(env: Env, ms: seq<Member>, n: nat)
    requires n <= |ms|
  {
    forall i | 0 <= i < n :: env.succeeds(Rename(ms[i].name))
  }

  class Directory {
    const env: Env
    var files: Files

    constructor (env: Env, files: Files)
      ensures this.env == env && this.files == files
    {
      this.env := env;
      this.files := files;
    }

    /** One member: extract it, verify it, make it executable; `partial` is what a failed copy leaves. */
    method StageMember(zip: map<string, ZipEntry>, m: Member, partial: seq<byte>) returns (r: Result<(), InstallError>)
      modifies this`files
      ensures forall p | p != Temp(m.name) :: SameAt(old(files), files, p)
      ensures r.Ok? ==> Temp(m.name) in files && IsVerified(env, files[Temp(m.name)], m)
      ensures r.Ok? ==> m.archivePath in zip && files[Temp(m.name)] == zip[m.archivePath].content
      ensures r.Ok? <==> CanStage(env, zip, m)
      ensures r.Err? ==> !r.error.PublishFailed?
    {
      hide IsVerified;
      if m.archivePath !in zip {
        return Err(MissingMember);
      }
      var source := zip[m.archivePath];
      if source.size != m.bytes {
        return Err(SizeMismatch);
      }
      var tmp := Temp(m.name);
      files := files - {tmp};
      if !env.succeeds(Create(m.name)) {
        return Err(IoFailed);
      }
      files := files[tmp := []];
      if !env.succeeds(Copy(m.name)) {
        files := files[tmp := partial];
        return Err(IoFailed);
      }
      files := files[tmp := source.content];
      if !IsVerified(env, files[tmp], m) {
        files := files - {tmp};
        return Err(DigestMismatch);
      }
      if !env.succeeds(MakeExecutable(m.name)) {
        return Err(IoFailed);
      }
      r := Ok(());
    }

    method StageArchive(index: nat, members: seq<Member>, partial: seq<byte>, ghost before: Files, staged: seq<Member>)
      returns (r: Result<seq<Member>, InstallError>)
      requires DistinctNames(staged + members) && Staged(env, before, files, staged)
      modifies this`files
      ensures OnlyTemps(before, files)
      ensures r.Ok? ==> r.value == staged + members && Staged(env, before, files, r.value)
      ensures r.Ok? <==> ArchiveReady(env, before, index, members)
      ensures r.Err? ==> !r.error.PublishFailed?
    {
      assert SameAt(before, files, ArchiveFile(index));
      hide CanStage;
      if ArchiveFile(index) !in files {
        return Err(NoArchive);
      }
      var zip := env.unzip(files[ArchiveFile(index)]);
      if zip.None? {
        return Err(NotZip);
      }
      var done := staged;
      var k := 0;
      while k < |members|
        invariant k <= |members| && done == staged + members[..k]
        invariant Staged(env, before, files, done)
        invariant forall j | 0 <= j < k :: CanStage(env, zip.value, members[j])
      {
        ghost var f := files;
        var one := StageMember(zip.value, members[k], partial);
        StagedOneMore(env, before, f, files, staged, members, k);
        hide Staged, DistinctNames, CanStage;
        if one.Err? {
          return Err(one.error);
        }
        done := done + [members[k]];
        k := k + 1;
      }
      assert members[..k] == members;
      r := Ok(done);
    }

    /** The staging half of `extract_managed_ffmpeg_archives`. */
    method StageAll(archives: seq<Archive>, partial: seq<byte>) returns (r: Result<seq<Member>, InstallError>)
      requires DistinctNames(AllMembers(archives))
      modifies this`files
      ensures OnlyTemps(old(files), files)
      ensures r.Ok? ==> r.value == AllMembers(archives) && Staged(env, old(files), files, r.value)
      ensures r.Ok? <==> AllReady(env, old(files), archives)
      ensures r.Err? ==> !r.error.PublishFailed?
    {
      ghost var before := files;
      var staged: seq<Member> := [];
      var i := 0;
      while i < |archives|
        invariant i <= |archives| && staged == AllMembers(archives[..i])
        invariant Staged(env, before, files, staged)
        invariant forall j | 0 <= j < i :: ArchiveReady(env, before, j, archives[j].members)
      {
        MembersGrow(archives, i);
        DistinctPrefix(AllMembers(archives), AllMembers(archives[..i + 1]));
        hide DistinctNames, AllMembers, Staged, ArchiveReady;
        var more := StageArchive(i, archives[i].members, partial, before, staged);
        if more.Err? {
          return Err(more.error);
        }
        staged := more.value;
        i := i + 1;
      }
      assert archives[..i] == archives;
      r := Ok(staged);
    }

    /** One turn of the publishing loop: the old file goes, the verified one takes its name. */
    method PublishMember(ms: seq<Member>, k: nat, ghost before: Files) returns (ok: bool)
      requires k < |ms| && DistinctNames(ms) && Published(env, before, files, ms, k)
      modifies this`files
      ensures ok <==> env.succeeds(Rename(ms[k].name))
      ensures ok ==> Published(env, before, files, ms, k + 1)
      ensures !ok ==> Final(ms[k].name) !in files && Published(env, before - {Final(ms[k].name)}, files, ms, k)
    {
      var name := ms[k].name;
      RemoveStep(env, before, files, ms, k);
      RenameStep(env, before, files, ms, k);
      hide IsVerified, Published, DistinctNames;
      files := files - {Final(name)};
      ok := env.succeeds(Rename(name));
      if ok {
        files := files[Final(name) := files[Temp(name)]] - {Temp(name)};
      }
    }

    method Unpublish(ms: seq<Member>, k: nat)
      requires k <= |ms|
      modifies this`files
      ensures forall i | 0 <= i < k :: Final(ms[i].name) !in files
      ensures forall p: Path | !(p.Final? && Names(ms[..k], p.name)) :: SameAt(old(files), files, p)
    {
      var j := 0;
      while j < k
        invariant j <= k
        invariant forall i | 0 <= i < j :: Final(ms[i].name) !in files
        invariant forall p: Path | !(p.Final? && Names(ms[..k], p.name)) :: SameAt(old(files), files, p)
      {
        assert ms[..k][j] == ms[j];
        files := files - {Final(ms[j].name)};
        j := j + 1;
      }
    }

    /** The publishing half. */
    method PublishAll(ms: seq<Member>, ghost before: Files) returns (r: Result<(), InstallError>)
      requires DistinctNames(ms) && Staged(env, before, files, ms)
      modifies this`files
      ensures r.Ok? <==> Renames(env, ms, |ms|)
      ensures r.Ok? ==> Published(env, before, files, ms, |ms|)
      ensures r.Err? ==> r.error.PublishFailed? && r.error.at < |ms| && RolledBack(before, files, ms, r.error.at)
      ensures r.Err? ==> Renames(env, ms, r.error.at) && !env.succeeds(Rename(ms[r.error.at].name))
    {
      var k := 0;
      PublishedNone(env, before, files, ms);
      while k < |ms|
        invariant k <= |ms| && Published(env, before, files, ms, k) && Renames(env, ms, k)
      {
        hide Published, Staged, DistinctNames;
        var ok := PublishMember(ms, k, before);
        if !ok {
          ghost var f := files;
          Unpublish(ms, k);
          RollBack(env, before, f, files, ms, k);
          return Err(PublishFailed(k));
        }
        k := k + 1;
      }
      r := Ok(());
    }

    /** Downloaded archives and staged files are removed whatever happened. */
    method CleanUp(archives: seq<Archive>)
      modifies this`files
      ensures forall i | 0 <= i < |archives| :: ArchiveFile(i) !in files
      ensures forall i | 0 <= i < |AllMembers(archives)| :: Temp(AllMembers(archives)[i].name) !in files
      ensures forall p: Path | p.Final? :: SameAt(old(files), files, p)
    {
      var i := 0;
      while i < |archives|
        invariant i <= |archives|
        invariant forall j | 0 <= j < i :: ArchiveFile(j) !in files
        invariant forall j | 0 <= j < |AllMembers(archives[..i])| :: Temp(AllMembers(archives[..i])[j].name) !in files
        invariant forall p: Path | p.Final? :: SameAt(old(files), files, p)
      {
        MembersGrow(archives, i);
        hide AllMembers;
        files := files - {ArchiveFile(i)};
        var members := archives[i].members;
        files := files - set j | 0 <= j < |members| :: Temp(members[j].name);
        i := i + 1;
      }
      assert archives[..i] == archives;
    }

    /** `extract_managed_ffmpeg_archives`. */
    method Install(archives: seq<Archive>, partial: seq<byte>) returns (r: Result<(), InstallError>)
      requires DistinctNames(AllMembers(archives))
      modifies this`files
      ensures forall i | 0 <= i < |archives| :: ArchiveFile(i) !in files
      ensures forall i | 0 <= i < |AllMembers(archives)| :: Temp(AllMembers(archives)[i].name) !in files
      ensures forall p: Path | p.Final? && !Names(AllMembers(archives), p.name) :: SameAt(old(files), files, p)
      ensures r.Ok? ==> forall i | 0 <= i < |AllMembers(archives)| ::
                var m := AllMembers(archives)[i];
                Final(m.name) in files && IsVerified(env, files[Final(m.name)], m)
      ensures r.Ok? <==> AllReady(env, old(files), archives) && Renames(env, AllMembers(archives), |AllMembers(archives)|)
      ensures r.Err? && !r.error.PublishFailed? ==>
                !AllReady(env, old(files), archives) && forall p: Path | p.Final? :: SameAt(old(files), files, p)
      ensures r.Err? && r.error.PublishFailed? ==>
                var ms, k := AllMembers(archives), r.error.at;
                && k < |ms| && Renames(env, ms, k) && !env.succeeds(Rename(ms[k].name))
                && (forall i | 0 <= i <= k :: Final(ms[i].name) !in files)
                && (forall i | k < i < |ms| :: SameAt(old(files), files, Final(ms[i].name)))
    {
      ghost var before := files;
      var ms := AllMembers(archives);
      hide AllMembers, AllReady, IsVerified, DistinctNames;
      var staged := StageAll(archives, partial);
      if staged.Err? {
        r := Err(staged.error);
        ghost var s := files;
        CleanUp(archives);
        FinalsUntouched(before, s, files);
        return;
      }
      r := PublishAll(ms, before);
      ghost var f := files;
      CleanUp(archives);
      FinalsKept(env, before, f, files, ms, r);
    }
  }

  /**
  The first `k` members are published, the others still staged, and apart from temporary files
  nothing but the published names has changed.
  */
  ghost predicate Published(env: Env, before: Files, now: Files, ms: seq<Member>, k: nat)
    requires k <= |ms|
  {
    && (forall i | 0 <= i < k :: Final(ms[i].name) in now && IsVerified(env, now[Final(ms[i].name)], ms[i]))
    && (forall i | k <= i < |ms| :: Temp(ms[i].name) in now && IsVerified(env, now[Temp(ms[i].name)], ms[i]))
    && (forall p: Path | !p.Temp? && !(p.Final? && Names(ms[..k], p.name)) :: SameAt(before, now, p))
  }

  /** The published members and the one that failed are absent; every other final file is as before. */
  ghost predicate RolledBack(before: Files, now: Files, ms: seq<Member>, k: nat)
    requires k < |ms|
  {
    && (forall i | 0 <= i <= k :: Final(ms[i].name) !in now)
    && (forall p: Path | p.Final? && !Names(ms[..k + 1], p.name) :: SameAt(before, now, p))
  }

  lemma FinalsUntouched(before: Files, f: Files, g: Files)
    requires OnlyTemps(before, f) && forall p: Path | p.Final? :: SameAt(f, g, p)
    ensures forall p: Path | p.Final? :: SameAt(before, g, p)
  {
    forall p: Path | p.Final? ensures SameAt(before, g, p) {
      assert SameAt(before, f, p) && SameAt(f, g, p);
    }
  }

  lemma PublishedNone(env: Env, before: Files, now: Files, ms: seq<Member>)
    requires Staged(env, before, now, ms)
    ensures Published(env, before, now, ms, 0)
  {
  }

  /** Taking the old file away leaves the rest as it is. */
  lemma RemoveStep(env: Env, before: Files, f: Files, ms: seq<Member>, k: nat)
    requires k < |ms| && DistinctNames(ms) && Published(env, before, f, ms, k)
    ensures Temp(ms[k].name) in f - {Final(ms[k].name)}
    ensures Published(env, before - {Final(ms[k].name)}, f - {Final(ms[k].name)}, ms, k)
  {
    hide IsVerified, Names;
    var name := ms[k].name;
    forall p: Path | !p.Temp? && !(p.Final? && Names(ms[..k], p.name))
      ensures SameAt(before - {Final(name)}, f - {Final(name)}, p)
    {
      assert SameAt(before, f, p);
    }
  }

  /** Renaming the staged file publishes one more member. */
  lemma RenameStep(env: Env, before: Files, f: Files, ms: seq<Member>, k: nat)
    requires k < |ms| && DistinctNames(ms) && Published(env, before, f, ms, k)
    requires Temp(ms[k].name) in f - {Final(ms[k].name)}
    ensures var name := ms[k].name;
            var g := f - {Final(name)};
            Published(env, before, g[Final(name) := g[Temp(name)]] - {Temp(name)}, ms, k + 1)
  {
    hide IsVerified, Names;
    var name := ms[k].name;
    var g := f - {Final(name)};
    var h := g[Final(name) := g[Temp(name)]] - {Temp(name)};
    forall p: Path | !p.Temp? && !(p.Final? && Names(ms[..k + 1], p.name)) ensures SameAt(before, h, p) {
      if p.Final? {
        NamesPrefix(ms, k, p.name);
      }
      assert SameAt(before, f, p);
    }
  }

  lemma RollBack(env: Env, before: Files, f: Files, g: Files, ms: seq<Member>, k: nat)
    requires k < |ms| && Final(ms[k].name) !in f
    requires Published(env, before - {Final(ms[k].name)}, f, ms, k)
    requires forall i | 0 <= i < k :: Final(ms[i].name) !in g
    requires forall p: Path | !(p.Final? && Names(ms[..k], p.name)) :: SameAt(f, g, p)
    ensures RolledBack(before, g, ms, k)
  {
  }

  lemma NamesPrefix(ms: seq<Member>, k: nat, name: string)
    requires k < |ms|
    ensures Names(ms[..k + 1], name) <==> Names(ms[..k], name) || ms[k].name == name
  {
  }

  lemma NamesOfPrefix(ms: seq<Member>, k: nat, name: string)
    requires k <= |ms|
    ensures Names(ms[..k], name) ==> Names(ms, name)
  {
  }

  /** Cleaning up afterwards changes no final file. */
  lemma FinalsKept(env: Env, before: Files, f: Files, g: Files, ms: seq<Member>, r: Result<(), InstallError>)
    requires DistinctNames(ms) && forall p: Path | p.Final? :: SameAt(f, g, p)
    requires r.Ok? ==> Published(env, before, f, ms, |ms|)
    requires r.Err? ==> r.error.PublishFailed? && r.error.at < |ms| && RolledBack(before, f, ms, r.error.at)
    ensures forall p: Path | p.Final? && !Names(ms, p.name) :: SameAt(before, g, p)
    ensures r.Ok? ==> forall i | 0 <= i < |ms| :: Final(ms[i].name) in g && IsVerified(env, g[Final(ms[i].name)], ms[i])
    ensures r.Err? ==>
              && (forall i | 0 <= i <= r.error.at :: Final(ms[i].name) !in g)
              && (forall i | r.error.at < i < |ms| :: SameAt(before, g, Final(ms[i].name)))
  {
    hide IsVerified;
    assert ms[..|ms|] == ms;
    if r.Ok? {
      forall i | 0 <= i < |ms| ensures Final(ms[i].name) in g && g[Final(ms[i].name)] == f[Final(ms[i].name)] {
        assert SameAt(f, g, Final(ms[i].name));
      }
      forall p: Path | p.Final? && !Names(ms, p.name) ensures SameAt(before, g, p) {
        assert SameAt(before, f, p) && SameAt(f, g, p);
      }
    } else {
      var k := r.error.at;
      forall p: Path | p.Final? && !Names(ms[..k + 1], p.name) ensures SameAt(before, g, p) {
        assert SameAt(before, f, p) && SameAt(f, g, p);
      }
      forall p: Path | p.Final? && !Names(ms, p.name) ensures SameAt(before, g, p) {
        NamesOfPrefix(ms, k + 1, p.name);
      }
      forall i | 0 <= i <= k ensures Final(ms[i].name) !in g {
        assert SameAt(f, g, Final(ms[i].name));
      }
      forall i | k < i < |ms| ensures !Names(ms[..k + 1], ms[i].name) {
      }
    }
  }

  lemma StagedOneMore(env: Env, before: Files, f: Files, g: Files, staged: seq<Member>, members: seq<Member>, k: nat)
    requires k < |members| && DistinctNames(staged + members) && Staged(env, before, f, staged + members[..k])
    requires forall p | p != Temp(members[k].name) :: SameAt(f, g, p)
    ensures OnlyTemps(before, g)
    ensures Temp(members[k].name) in g && IsVerified(env, g[Temp(members[k].name)], members[k]) ==>
              Staged(env, before, g, staged + members[..k + 1])
    ensures staged + members[..k + 1] == (staged + members[..k]) + [members[k]]
  {
    hide IsVerified;
    var done := staged + members[..k];
    assert members[..k + 1] == members[..k] + [members[k]];
    forall p: Path | !p.Temp? ensures SameAt(before, g, p) {
      assert SameAt(before, f, p) && SameAt(f, g, p);
    }
    forall i | 0 <= i < |done|
      ensures Temp(done[i].name) in g && g[Temp(done[i].name)] == f[Temp(done[i].name)]
    {
      assert done[i] == (staged + members)[i] && members[k] == (staged + members)[|staged| + k];
      assert SameAt(f, g, Temp(done[i].name));
    }
    var more := done + [members[k]];
    assert staged + members[..k + 1] == more;
    if Temp(members[k].name) in g && IsVerified(env, g[Temp(members[k].name)], members[k]) {
      forall i | 0 <= i < |more|
        ensures Temp(more[i].name) in g && IsVerified(env, g[Temp(more[i].name)], more[i])
      {
        assert i < |done| ==> more[i] == done[i];
      }
    }
  }

  lemma {:induction false} MembersGrow(archives: seq<Archive>, i: nat)
    requires i < |archives|
    ensures AllMembers(archives[..i + 1]) == AllMembers(archives[..i]) + archives[i].members
    ensures AllMembers(archives[..i + 1]) <= AllMembers(archives)
    decreases |archives| - i
  {
    assert archives[..i + 1][..i] == archives[..i];
    if i + 1 < |archives| {
      MembersGrow(archives, i + 1);
    } else {
      assert archives[..i + 1] == archives;
    }
  }

  lemma DistinctPrefix(all: seq<Member>, prefix: seq<Member>)
    requires DistinctNames(all) && prefix <= all
    ensures DistinctNames(prefix)
  {
  }

  // ---------- using what was installed ----------

  /** `resolve_managed_ffmpeg_in` for one member: the digest is compared exactly. */
  predicate Resolves(env: Env, files: Files, m: Member) {
    Final(m.name) in files && env.sha(files[Final(m.name)]) == m.sha
  }

  /**
  Installing ignores the case of a pinned digest and resolving does not: an installed member
  resolves exactly when the manifest spells its digest in lower case.
  */
  lemma InstalledResolvesIff(env: Env, files: Files, m: Member)
    requires forall content :: Lower(env.sha(content)) == env.sha(content)
    requires Final(m.name) in files && IsVerified(env, files[Final(m.name)], m)
    ensures Resolves(env, files, m) <==> Lower(m.sha) == m.sha
  {
  }

  /** A digest pinned in upper case: the member is verified and does not resolve. */
  lemma UpperCasePinDoesNotResolve(env: Env, content: seq<byte>)
    requires env.sha(content) == "ab"
    ensures var m := Member("ffmpeg.exe", "bin/ffmpeg.exe", |content|, "AB");
            && IsVerified(env, content, m)
            && !Resolves(env, map[Final("ffmpeg.exe") := content], m)
  {
    assert Lower("AB") == "ab" == Lower("ab");
  }
}
