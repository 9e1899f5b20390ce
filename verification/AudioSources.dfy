/**
The project audio source store: the original of every imported sound is kept as a blob named by
its digest, and a write-once record ties each sound path of the map to its original and to the
edits applied. SHA-256 and the digest that names a record file are parameters.
*/
module AudioSources {
  import opened AudioEffects
  import opened Bytes
  import opened Text
  import opened Wrappers

  const SCHEMA := "eud-project-audio-source/1"
  const MAX_AUDIO_DURATION_MS: nat := 3600000
  const MAX_AUDIO_CHANNELS_IN: nat := 8
  const MAX_SAMPLE_RATE: nat := 384000
  const MAX_AUDIO_BYTES: nat := 64 * 1024 * 1024

  /** Everything about the original that an edit must not change. */
  datatype Identity = Identity(
    sha: string, name: string, codec: string, duration: nat, channels: nat, sampleRate: nat, bytes: nat)

  datatype Record = Record(schema: string, path: string, source: Identity, effects: Effects)

  datatype Edited = Edited(source: Record, previous: Effects, effects: Effects)

  /** An audio attachment bound to a request: the file as it is now, and what was recorded of it. */
  datatype Binding = Binding(content: seq<byte>, size: nat, source: Identity)

  /** Record files by project and path digest, blobs by project and content digest. */
  datatype Disk = Disk(records: map<(string, string), Record>, blobs: map<(string, string), seq<byte>>)

  datatype Env = Env(sha: seq<byte> -> string, pathKey: string -> string)

  /** Whether copying a blob, giving it its name, and writing a record succeed. */
  datatype Io = Io(copies: bool, renames: bool, writes: bool)

  datatype AudioError =
    | BadPath | BadRecord | BlobMissing | SizeChanged | ChecksumChanged | CopyChanged | PathTaken
    | EmptyPatch | NoSource | DurationChanged | BadEffects(error: EffectsError) | ToolFailed | IoFailed

  // ---------- validation ----------

  predicate IsDigest(s: string) {
    |s| == 64 && IsLowerHex(s)
  }

  /** `validate_managed_sound_path`. */
  predicate IsManagedSound(path: string) {
    var prefix, suffix := "staredit\\wav\\ea_", ".ogg";
    && |path| >= |prefix| + |suffix| && StartsWith(path, prefix) && EndsWith(path, suffix)
    && var hash := path[|prefix|..|path| - |suffix|];
    |hash| in {16, 24, 32, 64} && IsLowerHex(hash)
  }

  lemma {:induction false} ManagedSoundExact(path: string)
    ensures IsManagedSound(path) <==>
              exists hash :: path == "staredit\\wav\\ea_" + hash + ".ogg" && |hash| in {16, 24, 32, 64} && IsLowerHex(hash)
  {
    var prefix, suffix := "staredit\\wav\\ea_", ".ogg";
    if IsManagedSound(path) {
      var hash := path[|prefix|..|path| - |suffix|];
      assert path == prefix + hash + suffix;
    }
    forall hash | path == prefix + hash + suffix && |hash| in {16, 24, 32, 64} && IsLowerHex(hash)
      ensures IsManagedSound(path)
    {
      assert path[|prefix|..|path| - |suffix|] == hash;
    }
  }

  predicate IsFileSize(size: nat) {
    0 < size <= MAX_AUDIO_BYTES
  }

  /** `validate_source_record`. */
  predicate IsValidRecord(r: Record, path: string) {
    && IsManagedSound(path)
    && IsDigest(r.source.sha)
    && EffectsRefusal(r.effects, r.source.duration) == None
    && r.schema == SCHEMA
    && r.path == path
    && Trim(r.source.name) != "" && Trim(r.source.codec) != ""
    && 0 < r.source.duration <= MAX_AUDIO_DURATION_MS
    && 0 < r.source.channels <= MAX_AUDIO_CHANNELS_IN
    && 0 < r.source.sampleRate <= MAX_SAMPLE_RATE
    && IsFileSize(r.source.bytes)
  }

  // ---------- reading and writing records ----------

  /** `source_record`: nothing, a record checked against its path and its blob, or an error. */
  function SourceRecord(env: Env, d: Disk, project: string, path: string): Result<Option<Record>, AudioError> {
    var key := (project, env.pathKey(path));
    if !IsDigest(project) || !IsManagedSound(path) then Err(BadPath)
    else if key !in d.records then Ok(None)
    else
      var r := d.records[key];
      if !IsValidRecord(r, path) then Err(BadRecord)
      else if (project, r.source.sha) !in d.blobs || !IsFileSize(|d.blobs[(project, r.source.sha)]|) then Err(BlobMissing)
      else if |d.blobs[(project, r.source.sha)]| != r.source.bytes then Err(SizeChanged)
      else Ok(Some(r))
  }

  /** `write_source_record`: a path is written once; writing the same record again is accepted. */
  function WriteRecord(env: Env, d: Disk, project: string, r: Record, io: Io): (Result<(), AudioError>, Disk) {
    if !IsValidRecord(r, r.path) then (Err(BadRecord), d)
    else
      match SourceRecord(env, d, project, r.path)
      case Err(e) => (Err(e), d)
      case Ok(Some(existing)) => (if existing == r then Ok(()) else Err(PathTaken), d)
      case Ok(None) => if !io.writes then (Err(IoFailed), d) else (Ok(()), d.(records := d.records[(project, env.pathKey(r.path)) := r]))
  }

  /**
  `persist_source_blob` for a source file that read `source` before and after the copy, of which
  `copied` reached the store.
  */
  function PersistBlob(env: Env, d: Disk, project: string, source: seq<byte>, copied: seq<byte>, expected: string, io: Io)
    : (Result<nat, AudioError>, Disk)
  {
    var key := (project, expected);
    if !IsDigest(project) || !IsDigest(expected) then (Err(BadPath), d)
    else if !IsFileSize(|source|) then (Err(SizeChanged), d)
    else if key in d.blobs then
      if |d.blobs[key]| != |source| || !IsFileSize(|d.blobs[key]|) || env.sha(d.blobs[key]) != expected
      then (Err(ChecksumChanged), d)
      else (Ok(|d.blobs[key]|), d)
    else if !io.copies then (Err(IoFailed), d)
    else if |copied| != |source| || env.sha(copied) != expected then (Err(CopyChanged), d)
    else if !io.renames then (Err(IoFailed), d)
    else (Ok(|source|), d.(blobs := d.blobs[key := copied]))
  }

  /** `validate_bound_source`. */
  function BoundSourceRefusal(env: Env, b: Binding): Option<AudioError> {
    if !IsFileSize(|b.content|) then Some(SizeChanged)
    else if |b.content| != b.size then Some(SizeChanged)
    else if env.sha(b.content) != b.source.sha then Some(ChecksumChanged)
    else None
  }

  function Imported(path: string, b: Binding, bytes: nat): Record {
    Record(SCHEMA, path, b.source.(bytes := bytes), DEFAULT_EFFECTS)
  }

  /** `remember_import`. */
  function Import(env: Env, d: Disk, project: string, path: string, b: Binding, copied: seq<byte>, io: Io)
    : (Result<Record, AudioError>, Disk)
  {
    match SourceRecord(env, d, project, path)
    case Err(e) => (Err(e), d)
    case Ok(Some(existing)) => (Ok(existing), d)
    case Ok(None) =>
      match BoundSourceRefusal(env, b)
      case Some(e) => (Err(e), d)
      case None =>
        var (persisted, d1) := PersistBlob(env, d, project, b.content, copied, b.source.sha, io);
        match persisted
        case Err(e) => (Err(e), d1)
        case Ok(bytes) =>
          var r := Imported(path, b, bytes);
          var (written, d2) := WriteRecord(env, d1, project, r, io);
          if written.Err? then (Err(written.error), d2) else (Ok(r), d2)
  }

  function Tolerance(duration: nat): nat {
    if duration / 200 > 250 then duration / 200 else 250
  }

  function Apart(a: nat, b: nat): nat {
    if a < b then b - a else a - b
  }

  /** What probing and transcoding report: the probed duration, and whether the transcode succeeds once started. */
  datatype Tools = Tools(probed: Option<nat>, transcodes: bool)

  /** `render_edit`; the effects are validated for the recorded duration and again for the probed one. */
  function Render(env: Env, d: Disk, project: string, path: string, patch: Patch, tools: Tools): Result<Edited, AudioError> {
    if IsEmpty(patch) then Err(EmptyPatch)
    else
      match SourceRecord(env, d, project, path)
      case Err(e) => Err(e)
      case Ok(None) => Err(NoSource)
      case Ok(Some(source)) =>
        var blob := (project, source.source.sha);
        if blob !in d.blobs || env.sha(d.blobs[blob]) != source.source.sha then Err(ChecksumChanged)
        else if tools.probed.None? then Err(ToolFailed)
        else if Apart(tools.probed.value, source.source.duration) > Tolerance(source.source.duration) then Err(DurationChanged)
        else
          match ApplyPatch(patch, source.effects, source.source.duration)
          case Err(e) => Err(BadEffects(e))
          case Ok(effects) =>
            match EffectsRefusal(effects, tools.probed.value)
            case Some(e) => Err(BadEffects(e))
            case None => if tools.transcodes then Ok(Edited(source, source.effects, effects)) else Err(ToolFailed)
  }

  /** The value asked for, or else the one there was. */
  predicate IsEither(value: nat, asked: Option<nat>, before: nat) {
    match asked
    case Some(v) => value == v
    case None => value == before
  }

  /** A quarter of a second or half a percent apart at most. */
  predicate LengthAgrees(probed: nat, recorded: nat) {
    -250 <= probed - recorded <= 250 || (200 * (probed - recorded) <= recorded && 200 * (recorded - probed) <= recorded)
  }

  /** The record of the path is sound, and its original is there with its size and digest. */
  predicate IsRecorded(env: Env, d: Disk, project: string, path: string, r: Record) {
    && IsDigest(project)
    && Key(env, project, path) in d.records && d.records[Key(env, project, path)] == r && IsValidRecord(r, path)
    && HasBlob(d, project, r) && env.sha(d.blobs[(project, r.source.sha)]) == r.source.sha
  }

  /**
  When an edit is rendered, and what comes out: each of the three values as asked or as recorded,
  something changed, and fades that fit both the recorded and the probed duration.
  */
  lemma RenderExact(env: Env, d: Disk, project: string, path: string, patch: Patch, tools: Tools, e: Edited)
    ensures Render(env, d, project, path, patch, tools) == Ok(e) <==>
            && patch != Patch(None, None, None)
            && IsRecorded(env, d, project, path, e.source)
            && tools.probed.Some? && tools.transcodes && LengthAgrees(tools.probed.value, e.source.source.duration)
            && e.previous == e.source.effects != e.effects
            && IsEither(e.effects.volume, patch.volume, e.source.effects.volume)
            && IsEither(e.effects.fadeIn, patch.fadeIn, e.source.effects.fadeIn)
            && IsEither(e.effects.fadeOut, patch.fadeOut, e.source.effects.fadeOut)
            && e.effects.volume <= 400
            && 0 < tools.probed.value && e.effects.fadeIn + e.effects.fadeOut <= tools.probed.value
            && e.effects.fadeIn + e.effects.fadeOut <= e.source.source.duration
  {
    RecordedIff(env, d, project, path, e.source);
    hide IsValidRecord, SourceRecord, IsRecorded, IsDigest, IsManagedSound;
    if patch != Patch(None, None, None) && SourceRecord(env, d, project, path) == Ok(Some(e.source)) {
      RecordedFits(env, d, project, path, e.source);
      EffectsFitIff(e.effects, e.source.source.duration);
      if tools.probed.Some? {
        EffectsFitIff(e.effects, tools.probed.value);
        ToleranceIff(tools.probed.value, e.source.source.duration);
      }
      PatchedIff(patch, e.source.effects, e.source.source.duration, e.effects);
    }
    hide ApplyPatch, LengthAgrees, IsEither, EffectsRefusal, Apart, Tolerance;
  }

  lemma RecordedIff(env: Env, d: Disk, project: string, path: string, r: Record)
    ensures IsRecorded(env, d, project, path, r) <==>
            && SourceRecord(env, d, project, path) == Ok(Some(r))
            && (project, r.source.sha) in d.blobs && env.sha(d.blobs[(project, r.source.sha)]) == r.source.sha
  {
    hide IsManagedSound, IsDigest;
  }

  lemma RecordedFits(env: Env, d: Disk, project: string, path: string, r: Record)
    requires SourceRecord(env, d, project, path) == Ok(Some(r))
    ensures r.source.duration > 0
  {
    hide IsManagedSound, IsDigest;
  }

  lemma ToleranceIff(probed: nat, recorded: nat)
    ensures LengthAgrees(probed, recorded) <==> Apart(probed, recorded) <= Tolerance(recorded)
  {
  }

  lemma PatchedIff(p: Patch, current: Effects, duration: nat, e: Effects)
    requires duration > 0
    ensures ApplyPatch(p, current, duration) == Ok(e) <==>
            && e != current && e.volume <= 400 && e.fadeIn + e.fadeOut <= duration
            && IsEither(e.volume, p.volume, current.volume)
            && IsEither(e.fadeIn, p.fadeIn, current.fadeIn)
            && IsEither(e.fadeOut, p.fadeOut, current.fadeOut)
  {
    EffectsFitIff(e, duration);
  }

  function EditedRecord(path: string, e: Edited): Record {
    e.source.(path := path, effects := e.effects)
  }

  /** `remember_edit`. */
  function Remember(env: Env, d: Disk, project: string, path: string, e: Edited, io: Io): (Result<Record, AudioError>, Disk) {
    var r := EditedRecord(path, e);
    var (written, d1) := WriteRecord(env, d, project, r, io);
    if written.Err? then (Err(written.error), d1) else (Ok(r), d1)
  }

  // ---------- the service, updating its files in place ----------

  function Key(env: Env, project: string, path: string): (string, string) {
    (project, env.pathKey(path))
  }

  /** The blob of the record's original is there, with the recorded size. */
  predicate HasBlob(d: Disk, project: string, r: Record) {
    && (project, r.source.sha) in d.blobs
    && |d.blobs[(project, r.source.sha)]| == r.source.bytes
    && IsFileSize(r.source.bytes)
  }

  class Service {
    const env: Env
    var records: map<(string, string), Record>
    var blobs: map<(string, string), seq<byte>>

    constructor (env: Env)
      ensures this.env == env && records == map[] && blobs == map[]
    {
      this.env := env;
      records, blobs := map[], map[];
    }

    function Files(): Disk
      reads this
    {
      Disk(records, blobs)
    }

    /** A path is written once: it must be free, or hold the same record with its blob. */
    method WriteSourceRecord(project: string, r: Record, io: Io) returns (result: Result<(), AudioError>)
      modifies this`records
      ensures result.Ok? <==>
                && IsValidRecord(r, r.path) && IsDigest(project)
                && if Key(env, project, r.path) in old(records)
                   then old(records)[Key(env, project, r.path)] == r && HasBlob(old(Files()), project, r)
                   else io.writes
      ensures records == if result.Ok? then old(records)[Key(env, project, r.path) := r] else old(records)
      ensures (result, Files()) == WriteRecord(env, old(Files()), project, r, io)
    {
      if !IsValidRecord(r, r.path) {
        return Err(BadRecord);
      }
      var existing := SourceRecord(env, Files(), project, r.path);
      if existing.Err? {
        return Err(existing.error);
      }
      if existing.value.Some? {
        return if existing.value.value == r then Ok(()) else Err(PathTaken);
      }
      if !io.writes {
        return Err(IoFailed);
      }
      records := records[(project, env.pathKey(r.path)) := r];
      result := Ok(());
    }

    /** The copy goes to a temporary file, and takes the blob's name only when it checks out. */
    method PersistSourceBlob(project: string, source: seq<byte>, copied: seq<byte>, expected: string, io: Io)
      returns (result: Result<nat, AudioError>)
      modifies this`blobs
      ensures forall key | key in old(blobs) :: key in blobs && blobs[key] == old(blobs)[key]
      ensures forall key | key in blobs && key !in old(blobs) :: key == (project, expected) && result.Ok?
      ensures result.Ok? ==>
                && (project, expected) in blobs && env.sha(blobs[(project, expected)]) == expected
                && |blobs[(project, expected)]| == |source| == result.value <= MAX_AUDIO_BYTES
      ensures result.Ok? <==>
                && IsDigest(project) && IsDigest(expected) && IsFileSize(|source|)
                && ((project, expected) !in old(blobs) ==> io.copies && io.renames)
                && var stored := if (project, expected) in old(blobs) then old(blobs)[(project, expected)] else copied;
                   |stored| == |source| && env.sha(stored) == expected
      ensures (result, Files()) == PersistBlob(env, old(Files()), project, source, copied, expected, io)
    {
      if !IsDigest(project) || !IsDigest(expected) {
        return Err(BadPath);
      }
      if !IsFileSize(|source|) {
        return Err(SizeChanged);
      }
      var key := (project, expected);
      if key in blobs {
        if |blobs[key]| != |source| || !IsFileSize(|blobs[key]|) || env.sha(blobs[key]) != expected {
          return Err(ChecksumChanged);
        }
        return Ok(|blobs[key]|);
      }
      if !io.copies {
        return Err(IoFailed);
      }
      var temporary := copied;
      if |temporary| != |source| || env.sha(temporary) != expected {
        return Err(CopyChanged);
      }
      if !io.renames {
        return Err(IoFailed);
      }
      blobs := blobs[key := temporary];
      result := Ok(|source|);
    }

    /** The first import of a path counts; a later one returns its record and changes nothing. */
    method RememberImport(project: string, path: string, b: Binding, copied: seq<byte>, io: Io)
      returns (result: Result<Record, AudioError>)
      modifies this`records, this`blobs
      ensures Key(env, project, path) in old(records) ==>
                && records == old(records) && blobs == old(blobs)
                && (result.Ok? ==> result.value == old(records)[Key(env, project, path)])
      ensures Key(env, project, path) !in old(records) && result.Ok? ==>
                && records == old(records)[Key(env, project, path) := result.value]
                && result.value.path == path && result.value.effects == DEFAULT_EFFECTS
                && result.value.source == b.source.(bytes := |b.content|)
                && HasBlob(Files(), project, result.value)
                && env.sha(blobs[(project, b.source.sha)]) == b.source.sha == env.sha(b.content)
      ensures result.Err? ==> records == old(records)
      ensures forall key | key in old(blobs) :: key in blobs && blobs[key] == old(blobs)[key]
      ensures (result, Files()) == Import(env, old(Files()), project, path, b, copied, io)
    {
      var existing := SourceRecord(env, Files(), project, path);
      if existing.Err? {
        return Err(existing.error);
      }
      if existing.value.Some? {
        return Ok(existing.value.value);
      }
      var refusal := BoundSourceRefusal(env, b);
      if refusal.Some? {
        return Err(refusal.value);
      }
      var bytes := PersistSourceBlob(project, b.content, copied, b.source.sha, io);
      if bytes.Err? {
        return Err(bytes.error);
      }
      var r := Imported(path, b, bytes.value);
      var written := WriteSourceRecord(project, r, io);
      if written.Err? {
        return Err(written.error);
      }
      result := Ok(r);
    }

    /** The edited sound keeps the identity of its original under its new path. */
    method RememberEdit(project: string, path: string, e: Edited, io: Io) returns (result: Result<Record, AudioError>)
      modifies this`records
      ensures result.Ok? ==>
                && result.value.source == e.source.source && result.value.effects == e.effects && result.value.path == path
                && records == old(records)[Key(env, project, path) := result.value]
                && (Key(env, project, path) in old(records) ==> records == old(records))
      ensures result.Err? ==> records == old(records)
      ensures (result, Files()) == Remember(env, old(Files()), project, path, e, io)
    {
      var r := EditedRecord(path, e);
      var written := WriteSourceRecord(project, r, io);
      if written.Err? {
        return Err(written.error);
      }
      result := Ok(r);
    }
  }

  // ---------- what every run keeps ----------

  datatype Action =
    | ImportOp(project: string, path: string, binding: Binding, copied: seq<byte>, io: Io)
    | RenderOp(project: string, path: string, patch: Patch, tools: Tools)
    | RememberOp(project: string, path: string, edit: nat, io: Io)

  /** An edit with the project it was rendered for and the duration probed then. */
  datatype Rendered = Rendered(project: string, edit: Edited, probed: nat)

  /** The disk, the edits rendered so far, and the originals imported so far. */
  datatype State = State(disk: Disk, edits: seq<Rendered>, originals: set<(string, Identity)>)

  /** Only an edit rendered for the same project can be remembered. */
  predicate Enabled(s: State, a: Action) {
    a.RememberOp? ==> a.edit < |s.edits| && s.edits[a.edit].project == a.project
  }

  function Apply(env: Env, s: State, a: Action): State
    requires Enabled(s, a)
  {
    match a
    case ImportOp(project, path, b, copied, io) =>
      var (r, d) := Import(env, s.disk, project, path, b, copied, io);
      State(d, s.edits, if r.Ok? then s.originals + {(project, r.value.source)} else s.originals)
    case RenderOp(project, path, patch, tools) =>
      (match Render(env, s.disk, project, path, patch, tools)
       case Err(_) => s
       case Ok(e) => s.(edits := s.edits + [Rendered(project, e, tools.probed.value)]))
    case RememberOp(project, path, edit, io) =>
      s.(disk := Remember(env, s.disk, project, path, s.edits[edit].edit, io).1)
  }

  predicate IsRun(env: Env, s: State, run: seq<Action>)
    decreases |run|
  {
    run == [] || (Enabled(s, run[0]) && IsRun(env, Apply(env, s, run[0]), run[1..]))
  }

  function Run(env: Env, s: State, run: seq<Action>): State
    requires IsRun(env, s, run)
    decreases |run|
  {
    if run == [] then s else Run(env, Apply(env, s, run[0]), run[1..])
  }

  ghost predicate GoodBlob(env: Env, d: Disk, key: (string, string)) {
    key in d.blobs && env.sha(d.blobs[key]) == key.1 && IsFileSize(|d.blobs[key]|)
  }

  ghost predicate GoodRecord(env: Env, d: Disk, originals: set<(string, Identity)>, project: string, r: Record) {
    && IsValidRecord(r, r.path)
    && GoodBlob(env, d, (project, r.source.sha))
    && |d.blobs[(project, r.source.sha)]| == r.source.bytes
    && (project, r.source) in originals
  }

  ghost predicate GoodEdit(env: Env, d: Disk, originals: set<(string, Identity)>, project: string, e: Edited) {
    GoodRecord(env, d, originals, project, e.source) && EffectsRefusal(e.effects, e.source.source.duration) == None
  }

  /** Files only ever appear: no record and no blob is replaced or removed. */
  ghost predicate Grows(d: Disk, e: Disk) {
    && (forall key | key in d.records :: key in e.records && e.records[key] == d.records[key])
    && (forall key | key in d.blobs :: key in e.blobs && e.blobs[key] == d.blobs[key])
  }

  lemma GrowsKeepsGood(env: Env, d: Disk, e: Disk, o: set<(string, Identity)>, p: set<(string, Identity)>, project: string, r: Record)
    requires Grows(d, e) && o <= p && GoodRecord(env, d, o, project, r)
    ensures GoodRecord(env, e, p, project, r)
  {
  }

  lemma WriteGrows(env: Env, d: Disk, project: string, r: Record, io: Io)
    ensures Grows(d, WriteRecord(env, d, project, r, io).1)
    ensures var (written, e) := WriteRecord(env, d, project, r, io);
            && e.blobs == d.blobs
            && (e.records == d.records || (IsValidRecord(r, r.path) && e.records == d.records[(project, env.pathKey(r.path)) := r]))
            && (written.Ok? ==> IsValidRecord(r, r.path))
            && (written.Err? ==> e == d)
  {
    hide IsValidRecord;
  }

  ghost predicate AllGood(env: Env, d: Disk) {
    forall key | key in d.blobs :: GoodBlob(env, d, key)
  }

  lemma PersistEffect(
      env: Env, d: Disk, project: string, source: seq<byte>, copied: seq<byte>, expected: string, io: Io)
    requires AllGood(env, d)
    ensures var (r, e) := PersistBlob(env, d, project, source, copied, expected, io);
            && Grows(d, e) && AllGood(env, e) && e.records == d.records
            && (r.Ok? ==> GoodBlob(env, e, (project, expected)) && |e.blobs[(project, expected)]| == r.value)
  {
  }

  /** The record an import adds is valid and backed by a blob with its digest and size. */
  ghost predicate AddsRecord(env: Env, d: Disk, e: Disk, project: string, r: Record) {
    && IsValidRecord(r, r.path)
    && GoodBlob(env, e, (project, r.source.sha))
    && |e.blobs[(project, r.source.sha)]| == r.source.bytes
    && e.records == d.records[(project, env.pathKey(r.path)) := r]
  }

  lemma ImportEffect(env: Env, d: Disk, project: string, path: string, b: Binding, copied: seq<byte>, io: Io)
    requires AllGood(env, d)
    ensures var (r, e) := Import(env, d, project, path, b, copied, io);
            && Grows(d, e) && AllGood(env, e)
            && (e.records == d.records || (r.Ok? && AddsRecord(env, d, e, project, r.value)))
  {
    hide IsValidRecord, SourceRecord, PersistBlob, WriteRecord, GoodBlob;
    PersistEffect(env, d, project, b.content, copied, b.source.sha, io);
    var (persisted, d1) := PersistBlob(env, d, project, b.content, copied, b.source.sha, io);
    if persisted.Ok? {
      var r := Imported(path, b, persisted.value);
      WriteGrows(env, d1, project, r, io);
      var d2 := WriteRecord(env, d1, project, r, io).1;
      SameBlobsGood(env, d1, d2, (project, b.source.sha));
    }
  }

  lemma SameBlobsGood(env: Env, d: Disk, e: Disk, key: (string, string))
    requires e.blobs == d.blobs
    ensures AllGood(env, e) == AllGood(env, d)
    ensures GoodBlob(env, e, key) == GoodBlob(env, d, key)
  {
  }

  ghost predicate GoodKeyed(env: Env, s: State, key: (string, string)) {
    && key in s.disk.records
    && GoodRecord(env, s.disk, s.originals, key.0, s.disk.records[key])
    && key.1 == env.pathKey(s.disk.records[key].path)
  }

  ghost predicate GoodEditAt(env: Env, s: State, i: nat)
    requires i < |s.edits|
  {
    GoodEdit(env, s.disk, s.originals, s.edits[i].project, s.edits[i].edit)
    && EffectsRefusal(s.edits[i].edit.effects, s.edits[i].probed) == None
  }

  ghost predicate Inv(env: Env, s: State) {
    && AllGood(env, s.disk)
    && (forall key | key in s.disk.records :: GoodKeyed(env, s, key))
    && (forall i | 0 <= i < |s.edits| :: GoodEditAt(env, s, i))
  }

  /** Good things stay good while files are only added. */
  lemma GrowthKeepsInv(env: Env, s: State, t: State)
    requires Inv(env, s) && Grows(s.disk, t.disk) && s.originals <= t.originals
    ensures forall key | key in s.disk.records :: GoodKeyed(env, t, key)
    ensures forall i | 0 <= i < |s.edits| && i < |t.edits| && t.edits[i] == s.edits[i] :: GoodEditAt(env, t, i)
  {
    hide IsValidRecord, GoodRecord;
    forall key | key in s.disk.records ensures GoodKeyed(env, t, key) {
      assert GoodKeyed(env, s, key);
      GrowsKeepsGood(env, s.disk, t.disk, s.originals, t.originals, key.0, s.disk.records[key]);
    }
    forall i | 0 <= i < |s.edits| && i < |t.edits| && t.edits[i] == s.edits[i] ensures GoodEditAt(env, t, i) {
      assert GoodEditAt(env, s, i);
      GrowsKeepsGood(env, s.disk, t.disk, s.originals, t.originals, s.edits[i].project, s.edits[i].edit.source);
    }
  }

  lemma ImportKeepsInv(env: Env, s: State, a: Action)
    requires Inv(env, s) && a.ImportOp?
    ensures Inv(env, Apply(env, s, a)) && Grows(s.disk, Apply(env, s, a).disk)
  {
    hide IsValidRecord, Import;
    var t := Apply(env, s, a);
    ImportEffect(env, s.disk, a.project, a.path, a.binding, a.copied, a.io);
    GrowthKeepsInv(env, s, t);
    var r := Import(env, s.disk, a.project, a.path, a.binding, a.copied, a.io).0;
    forall key | key in t.disk.records ensures GoodKeyed(env, t, key) {
      if t.disk.records != s.disk.records && key == (a.project, env.pathKey(r.value.path)) {
        assert GoodRecord(env, t.disk, t.originals, a.project, r.value);
      }
    }
  }

  lemma RenderKeepsInv(env: Env, s: State, a: Action)
    requires Inv(env, s) && a.RenderOp?
    ensures Inv(env, Apply(env, s, a)) && Grows(s.disk, Apply(env, s, a).disk)
  {
    hide IsValidRecord;
    var t := Apply(env, s, a);
    GrowthKeepsInv(env, s, t);
    hide GoodRecord, AllGood;
    if t != s {
      var key := (a.project, env.pathKey(a.path));
      assert GoodKeyed(env, s, key);
      GrowsKeepsGood(env, s.disk, t.disk, s.originals, t.originals, a.project, s.disk.records[key]);
      assert GoodEditAt(env, t, |s.edits|);
    }
  }

  lemma RememberKeepsInv(env: Env, s: State, a: Action)
    requires Inv(env, s) && a.RememberOp? && Enabled(s, a)
    ensures Inv(env, Apply(env, s, a)) && Grows(s.disk, Apply(env, s, a).disk)
  {
    hide IsValidRecord, WriteRecord;
    var t := Apply(env, s, a);
    var e := s.edits[a.edit].edit;
    var r := EditedRecord(a.path, e);
    WriteGrows(env, s.disk, a.project, r, a.io);
    GrowthKeepsInv(env, s, t);
    assert GoodEditAt(env, s, a.edit);
    SameBlobsGood(env, s.disk, t.disk, (a.project, r.source.sha));
    hide AllGood, GoodBlob;
    forall key | key in t.disk.records ensures GoodKeyed(env, t, key) {
      if t.disk.records != s.disk.records && key == (a.project, env.pathKey(r.path)) {
        assert GoodRecord(env, t.disk, t.originals, a.project, r);
      }
    }
  }

  lemma {:induction false} RunKeepsInv(env: Env, s: State, run: seq<Action>)
    requires Inv(env, s) && IsRun(env, s, run)
    ensures Inv(env, Run(env, s, run)) && Grows(s.disk, Run(env, s, run).disk)
    decreases |run|
  {
    hide Inv, Apply, Enabled;
    if run != [] {
      var t := Apply(env, s, run[0]);
      match run[0] {
        case ImportOp(_, _, _, _, _) => ImportKeepsInv(env, s, run[0]);
        case RenderOp(_, _, _, _) => RenderKeepsInv(env, s, run[0]);
        case RememberOp(_, _, _, _) => RememberKeepsInv(env, s, run[0]);
      }
      RunKeepsInv(env, t, run[1..]);
    }
  }

  const EMPTY := State(Disk(map[], map[]), [], {})

  /** Once written, a record and a blob are the same after every later run. */
  lemma {:induction false} RecordsNeverChange(env: Env, run: seq<Action>, more: seq<Action>)
    requires IsRun(env, EMPTY, run) && IsRun(env, Run(env, EMPTY, run), more)
    ensures Grows(Run(env, EMPTY, run).disk, Run(env, Run(env, EMPTY, run), more).disk)
  {
    RunKeepsInv(env, EMPTY, run);
    RunKeepsInv(env, Run(env, EMPTY, run), more);
  }

  /**
  Every record ever stored is backed by a blob of its digest and size, keeps the identity of an
  original imported into the same project, and has fades that fit its duration.
  */
  lemma {:induction false} RecordsAreBacked(env: Env, run: seq<Action>, key: (string, string))
    requires IsRun(env, EMPTY, run) && key in Run(env, EMPTY, run).disk.records
    ensures var s := Run(env, EMPTY, run);
            var r := s.disk.records[key];
            && (key.0, r.source.sha) in s.disk.blobs
            && env.sha(s.disk.blobs[(key.0, r.source.sha)]) == r.source.sha
            && |s.disk.blobs[(key.0, r.source.sha)]| == r.source.bytes
            && (key.0, r.source) in s.originals
            && r.effects.fadeIn + r.effects.fadeOut <= r.source.duration
            && key.1 == env.pathKey(r.path)
  {
    RunKeepsInv(env, EMPTY, run);
    hide Run, IsRun;
    var s := Run(env, EMPTY, run);
    assert GoodKeyed(env, s, key);
    EffectsFitIff(s.disk.records[key].effects, s.disk.records[key].source.duration);
  }

  /**
  Over every run the filter can be built and keeps the fades inside the sound: for every stored
  record at its recorded duration, and for every rendered edit at the duration it was probed with.
  */
  lemma FiltersAlwaysFit(env: Env, run: seq<Action>)
    requires IsRun(env, EMPTY, run)
    ensures var s := Run(env, EMPTY, run);
            && (forall key | key in s.disk.records ::
                  HasFittingFilter(s.disk.records[key].effects, s.disk.records[key].source.duration))
            && (forall i | 0 <= i < |s.edits| :: HasFittingFilter(s.edits[i].edit.effects, s.edits[i].probed))
  {
    RunKeepsInv(env, EMPTY, run);
    hide Run, IsRun, HasFittingFilter;
    var s := Run(env, EMPTY, run);
    forall key | key in s.disk.records
      ensures HasFittingFilter(s.disk.records[key].effects, s.disk.records[key].source.duration)
    {
      assert GoodKeyed(env, s, key);
      ValidatedHasFilter(s.disk.records[key].effects, s.disk.records[key].source.duration);
    }
    forall i | 0 <= i < |s.edits| ensures HasFittingFilter(s.edits[i].edit.effects, s.edits[i].probed) {
      assert GoodEditAt(env, s, i);
      ValidatedHasFilter(s.edits[i].edit.effects, s.edits[i].probed);
    }
  }
}
