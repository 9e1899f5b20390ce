/**
The session-owned attachment store: an attachment is staged as a draft, bound to one chat session
when it is sent, and leaves the store as a discarded or stale draft or with its session. The disk
is a map from object directories to a metadata file and a content file.
*/
module AttachmentStore {
  import opened Bytes
  import opened Wrappers
  import Utf8

  const MAX_ATTACHMENTS_PER_TURN: nat := 5
  const MAX_IMAGE_BYTES: nat := 10 * 1024 * 1024
  const MAX_TEXT_BYTES: nat := 512 * 1024
  const MAX_AUDIO_BYTES: nat := 64 * 1024 * 1024
  const MAX_AUDIO_BYTES_PER_TURN: nat := 128 * 1024 * 1024
  const DRAFT_MAX_AGE_SECS: nat := 24 * 60 * 60

  datatype Kind = Image | Text | Audio

  datatype Descriptor = Descriptor(id: string, name: string, mime: string, kind: Kind, size: nat)

  datatype Meta = Meta(descriptor: Descriptor, storedName: string, createdAt: nat, session: Option<string>)

  /** A directory of the store; `meta` is none when the metadata file is absent or unreadable. */
  datatype Object = Object(meta: Option<Meta>, files: map<string, seq<byte>>)

  type Objects = map<string, Object>

  /** What image and audio detection find in the leading bytes. */
  datatype Sniffed = IsImage(mime: string, extension: string) | IsAudio(mime: string, extension: string) | Neither

  /** `dirOf` is the directory an id names: file systems may fold case, so two spellings can share one. */
  datatype Env = Env(isUuid: string -> bool, dirOf: string -> string, sniff: seq<byte> -> Sniffed, sha: seq<byte> -> string)

  datatype StoreError =
    | EmptyName | EmptyFile | TooLarge(kind: Kind) | Binary | TooMany | BadId | Duplicate | NotFound
    | OtherSession | TextTotal | AudioTotal | AlreadySent | IoFailed

  function Cap(kind: Kind): nat {
    match kind
    case Image => MAX_IMAGE_BYTES
    case Text => MAX_TEXT_BYTES
    case Audio => MAX_AUDIO_BYTES
  }

  function SniffedKind(s: Sniffed): Kind {
    if s.IsImage? then Image else if s.IsAudio? then Audio else Text
  }

  // ---------- staging ----------

  function StageRefusal(env: Env, name: string, bytes: seq<byte>): Option<StoreError> {
    var kind := SniffedKind(env.sniff(bytes));
    if name == "" then Some(EmptyName)
    else if bytes == [] then Some(EmptyFile)
    else if |bytes| > Cap(kind) then Some(TooLarge(kind))
    else if kind.Text? && (!Utf8.Valid(bytes) || 0 in bytes) then Some(Binary)
    else None
  }

  function Staged(env: Env, id: string, name: string, textMime: string, bytes: seq<byte>, now: nat): Object {
    var found := env.sniff(bytes);
    var storedName := "content." + if found.Neither? then "txt" else found.extension;
    var mime := if found.Neither? then textMime else found.mime;
    Object(Some(Meta(Descriptor(id, name, mime, SniffedKind(found), |bytes|), storedName, now, None)),
           map[storedName := bytes])
  }

  /** Content that may be staged: some bytes, not too many for what they are, and text without NUL. */
  predicate IsStageable(env: Env, name: string, bytes: seq<byte>) {
    && name != "" && 0 < |bytes|
    && match env.sniff(bytes)
       case IsImage(_, _) => |bytes| <= 10 * 1024 * 1024
       case IsAudio(_, _) => |bytes| <= 64 * 1024 * 1024
       case Neither => |bytes| <= 512 * 1024 && Utf8.Valid(bytes) && forall i | 0 <= i < |bytes| :: bytes[i] != 0
  }

  /** What staging leaves behind: a draft of this moment that no session owns, with the bytes as its only file. */
  predicate IsNewDraft(env: Env, o: Object, id: string, name: string, textMime: string, bytes: seq<byte>, now: nat) {
    && o.meta.Some?
    && var m := o.meta.value;
    && m.session == None && m.createdAt == now
    && m.descriptor.id == id && m.descriptor.name == name && m.descriptor.size == |bytes|
    && o.files.Keys == {m.storedName} && o.files[m.storedName] == bytes
    && match env.sniff(bytes)
       case IsImage(mime, extension) =>
         m.descriptor.kind == Image && m.descriptor.mime == mime && m.storedName == "content." + extension
       case IsAudio(mime, extension) =>
         m.descriptor.kind == Audio && m.descriptor.mime == mime && m.storedName == "content." + extension
       case Neither =>
         m.descriptor.kind == Text && m.descriptor.mime == textMime && m.storedName == "content.txt"
  }

  // ---------- binding ----------

  function MetaOf(env: Env, objects: Objects, id: string): Option<Meta> {
    if env.dirOf(id) in objects then objects[env.dirOf(id)].meta else None
  }

  predicate HasContent(env: Env, objects: Objects, id: string, m: Meta) {
    env.dirOf(id) in objects && m.storedName in objects[env.dirOf(id)].files
  }

  function ContentOf(env: Env, objects: Objects, id: string, m: Meta): seq<byte> {
    if HasContent(env, objects, id, m) then objects[env.dirOf(id)].files[m.storedName] else []
  }

  /** The id may be sent in `session`: it names a complete attachment that no other session owns. */
  predicate Sendable(env: Env, objects: Objects, id: string, session: string) {
    && env.isUuid(id)
    && MetaOf(env, objects, id).Some?
    && var m := MetaOf(env, objects, id).value;
    && (m.session.Some? ==> m.session.value == session)
    && HasContent(env, objects, id, m)
  }

  /** The recorded sizes of the attachments of one kind, summed. */
  function Total(env: Env, objects: Objects, ids: seq<string>, kind: Kind): nat {
    if ids == [] then 0
    else
      var m := MetaOf(env, objects, ids[|ids| - 1]);
      Total(env, objects, ids[..|ids| - 1], kind) +
      if m.Some? && m.value.descriptor.kind == kind then m.value.descriptor.size else 0
  }

  predicate Distinct(ids: seq<string>) {
    forall i, j | 0 <= i < j < |ids| :: ids[i] != ids[j]
  }

  /** Everything `bind_and_resolve` checks before it changes anything. */
  predicate Bindable(env: Env, objects: Objects, ids: seq<string>, session: string) {
    && |ids| <= MAX_ATTACHMENTS_PER_TURN
    && Distinct(ids)
    && (forall i | 0 <= i < |ids| :: Sendable(env, objects, ids[i], session))
    && Total(env, objects, ids, Text) <= MAX_TEXT_BYTES
    && Total(env, objects, ids, Audio) <= MAX_AUDIO_BYTES_PER_TURN
  }

  /** `write_meta`: the directory is the one of the id recorded in the metadata. */
  function WriteMeta(env: Env, objects: Objects, m: Meta): Objects {
    var dir := env.dirOf(m.descriptor.id);
    objects[dir := if dir in objects then objects[dir].(meta := Some(m)) else Object(Some(m), map[])]
  }

  function BindOne(env: Env, objects: Objects, id: string, session: string): Objects {
    match MetaOf(env, objects, id)
    case None => objects
    case Some(m) => WriteMeta(env, objects, m.(session := Some(session)))
  }

  function BindAll(env: Env, objects: Objects, ids: seq<string>, session: string): Objects {
    if ids == [] then objects
    else BindOne(env, BindAll(env, objects, ids[..|ids| - 1], session), ids[|ids| - 1], session)
  }

  /** Where binding a turn fails, if it does: at rewriting an item's metadata, or at reading its content afterwards. */
  datatype Fault = NoFault | MetaFault(at: nat) | ContentFault(at: nat)

  predicate Strikes(fault: Fault, n: nat) {
    !fault.NoFault? && fault.at < n
  }

  /** The ids whose metadata has been rewritten when the turn ends. */
  function BoundIds(ids: seq<string>, fault: Fault): seq<string> {
    if !Strikes(fault, |ids|) then ids else ids[..if fault.MetaFault? then fault.at else fault.at + 1]
  }

  /** One resolved attachment: its descriptor, its content, and the digest taken of the content. */
  datatype Item = Item(descriptor: Descriptor, content: seq<byte>, sha256: string)

  datatype Context = Context(images: seq<Item>, texts: seq<Item>, audio: seq<Item>)

  function ItemOf(env: Env, objects: Objects, id: string): Option<Item> {
    match MetaOf(env, objects, id)
    case None => None
    case Some(m) =>
      var content := ContentOf(env, objects, id, m);
      Some(Item(m.descriptor, content, env.sha(content)))
  }

  /** The items of one kind, in the order of the ids. */
  function Items(env: Env, objects: Objects, ids: seq<string>, kind: Kind): seq<Item> {
    if ids == [] then []
    else
      var item := ItemOf(env, objects, ids[|ids| - 1]);
      Items(env, objects, ids[..|ids| - 1], kind) +
      if item.Some? && item.value.descriptor.kind == kind then [item.value] else []
  }

  function Resolved(env: Env, objects: Objects, ids: seq<string>): Context {
    Context(Items(env, objects, ids, Image), Items(env, objects, ids, Text), Items(env, objects, ids, Audio))
  }

  // ---------- the invariant of the disk ----------

  ghost predicate ValidObject(env: Env, dir: string, o: Object) {
    && o.meta.Some?
    && var m := o.meta.value;
    && env.dirOf(m.descriptor.id) == dir
    && m.storedName in o.files
    && 0 < |o.files[m.storedName]| == m.descriptor.size <= Cap(m.descriptor.kind)
    && (m.descriptor.kind.Text? ==> Utf8.Valid(o.files[m.storedName]) && 0 !in o.files[m.storedName])
  }

  ghost predicate ValidObjects(env: Env, objects: Objects) {
    forall dir | dir in objects :: ValidObject(env, dir, objects[dir])
  }

  lemma StagedIsValid(env: Env, id: string, name: string, textMime: string, bytes: seq<byte>, now: nat)
    requires StageRefusal(env, name, bytes) == None
    ensures ValidObject(env, env.dirOf(id), Staged(env, id, name, textMime, bytes, now))
  {
  }

  lemma StageableIff(env: Env, name: string, bytes: seq<byte>)
    ensures StageRefusal(env, name, bytes) == None <==> IsStageable(env, name, bytes)
  {
    hide Utf8.Valid;
  }

  lemma StagedIsNewDraft(env: Env, id: string, name: string, textMime: string, bytes: seq<byte>, now: nat)
    ensures IsNewDraft(env, Staged(env, id, name, textMime, bytes, now), id, name, textMime, bytes, now)
  {
  }

  /** What binding may do to an object: nothing, or give a draft its session. */
  ghost predicate BoundOrSame(o: Object, p: Object, session: string) {
    p == o || (o.meta.Some? && o.meta.value.session == None
               && p == o.(meta := Some(o.meta.value.(session := Some(session)))))
  }

  ghost predicate OnlyBinds(before: Objects, after: Objects, session: string) {
    before.Keys == after.Keys && forall dir | dir in before :: BoundOrSame(before[dir], after[dir], session)
  }

  ghost predicate IsBound(env: Env, objects: Objects, id: string, session: string) {
    MetaOf(env, objects, id).Some? && MetaOf(env, objects, id).value.session == Some(session)
  }

  lemma BindOneEffect(env: Env, objects: Objects, id: string, session: string)
    requires ValidObjects(env, objects) && Sendable(env, objects, id, session)
    ensures var after := BindOne(env, objects, id, session);
            && ValidObjects(env, after) && OnlyBinds(objects, after, session)
            && IsBound(env, after, id, session)
  {
    hide Utf8.Valid;
    assert ValidObject(env, env.dirOf(id), objects[env.dirOf(id)]);
  }

  lemma OnlyBindsKeeps(env: Env, before: Objects, after: Objects, id: string, session: string)
    requires OnlyBinds(before, after, session)
    ensures Sendable(env, before, id, session) ==> Sendable(env, after, id, session)
    ensures ItemOf(env, after, id) == ItemOf(env, before, id)
  {
  }

  lemma OnlyBindsComposes(a: Objects, b: Objects, c: Objects, session: string)
    requires OnlyBinds(a, b, session) && OnlyBinds(b, c, session)
    ensures OnlyBinds(a, c, session)
    ensures forall dir | dir in b && b[dir].meta.Some? && b[dir].meta.value.session == Some(session) :: c[dir] == b[dir]
  {
  }

  /** Binding the ids gives each its session and touches nothing else. */
  lemma {:induction false} BindAllEffect(env: Env, objects: Objects, ids: seq<string>, session: string)
    requires ValidObjects(env, objects)
    requires forall i | 0 <= i < |ids| :: Sendable(env, objects, ids[i], session)
    ensures var after := BindAll(env, objects, ids, session);
            && ValidObjects(env, after) && OnlyBinds(objects, after, session)
            && (forall i | 0 <= i < |ids| :: IsBound(env, after, ids[i], session))
  {
    hide BindOne, Sendable, ValidObjects, OnlyBinds, IsBound, MetaOf;
    if ids == [] {
      NothingBound(env, objects, session);
    } else {
      var prev, id := ids[..|ids| - 1], ids[|ids| - 1];
      BindAllEffect(env, objects, prev, session);
      var mid := BindAll(env, objects, prev, session);
      OnlyBindsKeeps(env, objects, mid, id, session);
      BindOneEffect(env, mid, id, session);
      var after := BindOne(env, mid, id, session);
      OnlyBindsComposes(objects, mid, after, session);
      forall i | 0 <= i < |ids| ensures IsBound(env, after, ids[i], session) {
        if i < |prev| {
          assert IsBound(env, mid, prev[i], session);
          BoundStaysBound(env, mid, after, ids[i], session);
        }
      }
    }
  }

  lemma NothingBound(env: Env, objects: Objects, session: string)
    ensures OnlyBinds(objects, objects, session)
  {
  }

  lemma BoundStaysBound(env: Env, before: Objects, after: Objects, id: string, session: string)
    requires OnlyBinds(before, after, session) && IsBound(env, before, id, session)
    ensures IsBound(env, after, id, session)
  {
  }

  /** Exactly one item per id comes back. */
  lemma {:induction false} OneItemPerId(env: Env, objects: Objects, ids: seq<string>)
    requires forall i | 0 <= i < |ids| :: MetaOf(env, objects, ids[i]).Some?
    ensures var c := Resolved(env, objects, ids); |c.images| + |c.texts| + |c.audio| == |ids|
  {
    if ids != [] {
      OneItemPerId(env, objects, ids[..|ids| - 1]);
    }
  }

  /** What is wrong with one id: its spelling, what it names, or whose it is. */
  predicate IsAtFault(env: Env, objects: Objects, id: string, session: string, e: StoreError) {
    match e
    case BadId => !env.isUuid(id)
    case NotFound => MetaOf(env, objects, id).None? || !HasContent(env, objects, id, MetaOf(env, objects, id).value)
    case OtherSession =>
      MetaOf(env, objects, id).Some? && MetaOf(env, objects, id).value.session !in {None, Some(session)}
    case _ => false
  }

  /** What a refused turn is told is true of its ids. */
  predicate IsJustified(env: Env, objects: Objects, ids: seq<string>, session: string, e: StoreError) {
    match e
    case TooMany => |ids| > 5
    case Duplicate => exists i, j | 0 <= i < j < |ids| :: ids[i] == ids[j]
    case TextTotal => Total(env, objects, ids, Text) > 512 * 1024
    case AudioTotal => Total(env, objects, ids, Audio) > 128 * 1024 * 1024
    case _ => exists i | 0 <= i < |ids| :: IsAtFault(env, objects, ids[i], session, e)
  }

  lemma TooManyIds(env: Env, objects: Objects, ids: seq<string>, session: string)
    requires |ids| > MAX_ATTACHMENTS_PER_TURN
    ensures !Bindable(env, objects, ids, session) && IsJustified(env, objects, ids, session, TooMany)
  {
  }

  // ---------- leaving the store ----------

  predicate OwnedBy(o: Object, session: string) {
    o.meta.Some? && o.meta.value.session == Some(session)
  }

  predicate IsDraft(o: Object) {
    o.meta.Some? && o.meta.value.session == None
  }

  predicate IsStale(o: Object, now: nat) {
    IsDraft(o) && now >= o.meta.value.createdAt + DRAFT_MAX_AGE_SECS
  }

  function WithoutSession(objects: Objects, session: string): Objects {
    map dir | dir in objects && !OwnedBy(objects[dir], session) :: objects[dir]
  }

  function WithoutStale(objects: Objects, now: nat): Objects {
    map dir | dir in objects && !IsStale(objects[dir], now) :: objects[dir]
  }

  function DiscardRefusal(env: Env, objects: Objects, id: string): Option<StoreError> {
    if !env.isUuid(id) then Some(BadId)
    else if MetaOf(env, objects, id).None? then Some(NotFound)
    else if MetaOf(env, objects, id).value.session.Some? then Some(AlreadySent)
    else None
  }

  // ---------- after staging ----------

  /** A new draft may be sent in every session, also on its own, and may be discarded. */
  lemma NewDraftIsUsable(env: Env, objects: Objects, id: string, name: string, textMime: string, bytes: seq<byte>, now: nat)
    requires env.isUuid(id) && IsStageable(env, name, bytes)
    requires env.dirOf(id) in objects && IsNewDraft(env, objects[env.dirOf(id)], id, name, textMime, bytes, now)
    ensures forall session :: Sendable(env, objects, id, session) && Bindable(env, objects, [id], session)
    ensures DiscardRefusal(env, objects, id) == None
  {
    hide Utf8.Valid;
    var m := objects[env.dirOf(id)].meta.value;
    assert forall kind :: Total(env, objects, [id], kind) == if kind == m.descriptor.kind then |bytes| else 0;
  }

  // ---------- the store ----------

  class Store {
    const env: Env
    var objects: Objects

    constructor (env: Env)
      ensures this.env == env && objects == map[]
    {
      this.env := env;
      objects := map[];
    }

    /** `stage`; `fault` is the number of file operations that succeed before one fails, if one does. */
    method Stage(id: string, name: string, textMime: string, bytes: seq<byte>, now: nat, fault: Option<nat>)
      returns (r: Result<Descriptor, StoreError>)
      requires env.dirOf(id) !in objects
      modifies this`objects
      ensures match StageRefusal(env, name, bytes)
              case Some(e) => r == Err(e) && objects == old(objects)
              case None =>
                if fault.Some? && fault.value < 3 then r == Err(IoFailed) && objects == old(objects)
                else
                  && objects == old(objects)[env.dirOf(id) := Staged(env, id, name, textMime, bytes, now)]
                  && r == Ok(objects[env.dirOf(id)].meta.value.descriptor)
      ensures r.Ok? <==> IsStageable(env, name, bytes) && (fault.None? || fault.value >= 3)
      ensures r.Ok? ==>
                && env.dirOf(id) in objects && objects - {env.dirOf(id)} == old(objects)
                && IsNewDraft(env, objects[env.dirOf(id)], id, name, textMime, bytes, now)
      ensures r.Ok? && env.isUuid(id) ==>
                && DiscardRefusal(env, objects, id) == None
                && forall session :: Sendable(env, objects, id, session) && Bindable(env, objects, [id], session)
    {
      StageableIff(env, name, bytes);
      hide Utf8.Valid, Sendable, Bindable, DiscardRefusal, StageRefusal, IsStageable;
      var refusal := StageRefusal(env, name, bytes);
      if refusal.Some? {
        return Err(refusal.value);
      }
      var dir := env.dirOf(id);
      if fault == Some(0) {
        return Err(IoFailed);
      }
      objects := objects[dir := Object(None, map[])];
      var staged := Staged(env, id, name, textMime, bytes, now);
      if fault == Some(1) {
        objects := objects - {dir};
        return Err(IoFailed);
      }
      objects := objects[dir := Object(None, staged.files)];
      if fault == Some(2) {
        objects := objects - {dir};
        return Err(IoFailed);
      }
      objects := objects[dir := staged];
      r := Ok(staged.meta.value.descriptor);
      StagedIsNewDraft(env, id, name, textMime, bytes, now);
      hide Staged, IsNewDraft;
      if env.isUuid(id) {
        NewDraftIsUsable(env, objects, id, name, textMime, bytes, now);
      }
    }

    /** One turn of the checking loop, up to the size totals. */
    method LoadOne(id: string, session: string, unique: set<string>) returns (r: Result<Meta, StoreError>)
      ensures r.Ok? <==> Sendable(env, objects, id, session) && id !in unique
      ensures r.Ok? ==> MetaOf(env, objects, id) == Some(r.value)
      ensures r.Err? ==> (r.error == Duplicate && id in unique) || IsAtFault(env, objects, id, session, r.error)
    {
      if !env.isUuid(id) {
        return Err(BadId);
      }
      if id in unique {
        return Err(Duplicate);
      }
      var meta := MetaOf(env, objects, id);
      if meta.None? {
        return Err(NotFound);
      }
      var m := meta.value;
      if m.session.Some? && m.session.value != session {
        return Err(OtherSession);
      }
      if !HasContent(env, objects, id, m) {
        return Err(NotFound);
      }
      r := Ok(m);
    }

    static method AddSize(d: Descriptor, text: nat, audio: nat)
      returns (over: Option<StoreError>, newText: nat, newAudio: nat)
      ensures newText == text + if d.kind.Text? then d.size else 0
      ensures newAudio == audio + if d.kind.Audio? then d.size else 0
      ensures over.Some? ==> over.value == if d.kind.Text? then TextTotal else AudioTotal
      ensures over.None? <==> (d.kind.Text? ==> newText <= MAX_TEXT_BYTES)
                              && (d.kind.Audio? ==> newAudio <= MAX_AUDIO_BYTES_PER_TURN)
    {
      newText, newAudio, over := text, audio, None;
      if d.kind.Text? {
        newText := text + d.size;
        if newText > MAX_TEXT_BYTES {
          over := Some(TextTotal);
        }
      }
      if d.kind.Audio? {
        newAudio := audio + d.size;
        if newAudio > MAX_AUDIO_BYTES_PER_TURN {
          over := Some(AudioTotal);
        }
      }
    }

    /** `loaded` is the metadata of the first ids, all different and sendable; `unique` is those ids. */
    ghost predicate LoadedSoFar(ids: seq<string>, session: string, loaded: seq<Meta>, unique: set<string>)
      reads this
    {
      && |loaded| <= |ids|
      && (forall id :: id in unique <==> id in ids[..|loaded|])
      && Distinct(ids[..|loaded|])
      && (forall i | 0 <= i < |loaded| :: Sendable(env, objects, ids[i], session))
      && (forall i | 0 <= i < |loaded| :: MetaOf(env, objects, ids[i]) == Some(loaded[i]))
    }

    method LoadNext(ids: seq<string>, session: string, ghost loaded: seq<Meta>, unique: set<string>, n: nat)
      returns (r: Result<Meta, StoreError>)
      requires LoadedSoFar(ids, session, loaded, unique) && n == |loaded| < |ids|
      ensures r.Ok? ==> LoadedSoFar(ids, session, loaded + [r.value], unique + {ids[n]})
      ensures r.Err? ==> !Bindable(env, objects, ids, session) && IsJustified(env, objects, ids, session, r.error)
    {
      r := LoadOne(ids[n], session, unique);
      hide Sendable, MetaOf, Total;
      if r.Ok? {
        assert ids[..n + 1] == ids[..n] + [ids[n]];
        assert (loaded + [r.value])[..n] == loaded;
      } else if ids[n] in unique {
        var i :| 0 <= i < n && ids[..n][i] == ids[n];
      }
    }

    /** The checking loop of `bind_and_resolve`. */
    method LoadAll(ids: seq<string>, session: string) returns (r: Result<seq<Meta>, StoreError>)
      ensures r.Ok? <==> Bindable(env, objects, ids, session)
      ensures r.Err? ==> IsJustified(env, objects, ids, session, r.error)
      ensures r.Ok? ==> |r.value| == |ids| && forall i | 0 <= i < |ids| :: MetaOf(env, objects, ids[i]) == Some(r.value[i])
    {
      hide Bindable, IsJustified, Sendable, IsAtFault, Total;
      if |ids| > MAX_ATTACHMENTS_PER_TURN {
        TooManyIds(env, objects, ids, session);
        return Err(TooMany);
      }
      var unique: set<string> := {};
      var loaded: seq<Meta> := [];
      var totalText, totalAudio := 0, 0;
      while |loaded| < |ids|
        invariant LoadedSoFar(ids, session, loaded, unique)
        invariant totalText == TotalOf(loaded, Text) <= MAX_TEXT_BYTES
        invariant totalAudio == TotalOf(loaded, Audio) <= MAX_AUDIO_BYTES_PER_TURN
      {
        var n := |loaded|;
        var meta := LoadNext(ids, session, loaded, unique, n);
        if meta.Err? {
          return Err(meta.error);
        }
        TotalOfSnoc(loaded, meta.value);
        hide TotalOf, LoadedSoFar, MetaOf;
        var over;
        over, totalText, totalAudio := AddSize(meta.value.descriptor, totalText, totalAudio);
        if over.Some? {
          TotalExceeded(ids, session, loaded + [meta.value], unique + {ids[n]}, over.value);
          return Err(over.value);
        }
        unique := unique + {ids[n]};
        loaded := loaded + [meta.value];
      }
      AllLoaded(ids, session, loaded, unique);
      r := Ok(loaded);
    }

    lemma TotalExceeded(ids: seq<string>, session: string, loaded: seq<Meta>, unique: set<string>, e: StoreError)
      requires LoadedSoFar(ids, session, loaded, unique)
      requires || (e == TextTotal && TotalOf(loaded, Text) > MAX_TEXT_BYTES)
               || (e == AudioTotal && TotalOf(loaded, Audio) > MAX_AUDIO_BYTES_PER_TURN)
      ensures !Bindable(env, objects, ids, session) && IsJustified(env, objects, ids, session, e)
    {
      hide Sendable, MetaOf, TotalOf, Total;
      TotalsOver(env, objects, ids, loaded);
    }

    lemma AllLoaded(ids: seq<string>, session: string, loaded: seq<Meta>, unique: set<string>)
      requires LoadedSoFar(ids, session, loaded, unique) && |loaded| == |ids| <= MAX_ATTACHMENTS_PER_TURN
      requires TotalOf(loaded, Text) <= MAX_TEXT_BYTES && TotalOf(loaded, Audio) <= MAX_AUDIO_BYTES_PER_TURN
      ensures Bindable(env, objects, ids, session)
      ensures forall i | 0 <= i < |ids| :: MetaOf(env, objects, ids[i]) == Some(loaded[i])
    {
      hide Sendable, MetaOf, TotalOf, Total;
      TotalsOver(env, objects, ids, loaded);
      assert ids[..|loaded|] == ids;
    }

    /**
    `bind_and_resolve`. The checks come first, so a refusal changes nothing; a fault leaves the items
    before it bound, and the item itself when only its content could not be read.
    */
    method BindAndResolve(ids: seq<string>, session: string, fault: Fault) returns (r: Result<Context, StoreError>)
      requires ValidObjects(env, objects)
      modifies this`objects
      ensures ValidObjects(env, objects)
      ensures !Bindable(env, old(objects), ids, session) ==>
                r.Err? && IsJustified(env, old(objects), ids, session, r.error) && objects == old(objects)
      ensures Bindable(env, old(objects), ids, session) ==>
                && r == (if Strikes(fault, |ids|) then Err(IoFailed) else Ok(Resolved(env, old(objects), ids)))
                && objects == BindAll(env, old(objects), BoundIds(ids, fault), session)
    {
      var loaded := LoadAll(ids, session);
      if loaded.Err? {
        return Err(loaded.error);
      }
      r := BindLoaded(ids, session, fault, loaded.value);
    }

    /** The binding loop. */
    method BindLoaded(ids: seq<string>, session: string, fault: Fault, loaded: seq<Meta>)
      returns (r: Result<Context, StoreError>)
      requires ValidObjects(env, objects) && Bindable(env, objects, ids, session) && |loaded| == |ids|
      requires forall i | 0 <= i < |ids| :: MetaOf(env, objects, ids[i]) == Some(loaded[i])
      modifies this`objects
      ensures ValidObjects(env, objects)
      ensures r == if Strikes(fault, |ids|) then Err(IoFailed) else Ok(Resolved(env, old(objects), ids))
      ensures objects == BindAll(env, old(objects), BoundIds(ids, fault), session)
    {
      hide ValidObjects, Bindable, BoundSoFar, BindAll, MetaOf, Items;
      ghost var before := objects;
      var context := Context([], [], []);
      var k := 0;
      BoundNone(env, before, ids, session);
      while k < |ids|
        invariant k <= |ids| && BoundSoFar(env, before, ids, k, session, objects, context)
        invariant Strikes(fault, |ids|) ==> k <= fault.at
      {
        if fault == MetaFault(k) {
          BoundSome(env, before, ids, k, session, objects, context);
          return Err(IoFailed);
        }
        context := BindNext(before, ids, k, session, loaded[k], context);
        k := k + 1;
        if fault == ContentFault(k - 1) {
          BoundSome(env, before, ids, k, session, objects, context);
          return Err(IoFailed);
        }
      }
      BoundSome(env, before, ids, k, session, objects, context);
      assert ids[..k] == ids;
      r := Ok(context);
    }

    /** One turn of the binding loop. */
    method BindNext(ghost before: Objects, ids: seq<string>, k: nat, session: string, loaded: Meta, context: Context)
      returns (next: Context)
      requires ValidObjects(env, before) && k < |ids| && Bindable(env, before, ids, session)
      requires MetaOf(env, before, ids[k]) == Some(loaded)
      requires BoundSoFar(env, before, ids, k, session, objects, context)
      modifies this`objects
      ensures BoundSoFar(env, before, ids, k + 1, session, objects, next)
    {
      BindStep(env, before, ids, k, session, loaded);
      hide WriteMeta, BindAll, Items, ItemOf, ContentOf, ValidObjects, Bindable, MetaOf;
      var m := loaded.(session := Some(session));
      objects := WriteMeta(env, objects, m);
      var content := ContentOf(env, objects, ids[k], loaded);
      var item := Item(m.descriptor, content, env.sha(content));
      match m.descriptor.kind {
        case Image => next := context.(images := context.images + [item]);
        case Text => next := context.(texts := context.texts + [item]);
        case Audio => next := context.(audio := context.audio + [item]);
      }
    }

    /** `discard_draft`: a sent attachment is never discarded. */
    method DiscardDraft(id: string) returns (r: Result<(), StoreError>)
      modifies this`objects
      ensures r.Ok? <==> env.isUuid(id) && env.dirOf(id) in old(objects)
                         && old(objects)[env.dirOf(id)].meta.Some? && old(objects)[env.dirOf(id)].meta.value.session == None
      ensures objects == if r.Ok? then old(objects) - {env.dirOf(id)} else old(objects)
      ensures match DiscardRefusal(env, old(objects), id)
              case Some(e) => r == Err(e) && objects == old(objects)
              case None => r == Ok(()) && objects == old(objects) - {env.dirOf(id)}
    {
      if !env.isUuid(id) {
        return Err(BadId);
      }
      var meta := MetaOf(env, objects, id);
      if meta.None? {
        return Err(NotFound);
      }
      if meta.value.session.Some? {
        return Err(AlreadySent);
      }
      objects := objects - {env.dirOf(id)};
      r := Ok(());
    }

    /** `delete_session`, over the directories in whatever order they are listed. */
    method DeleteSession(session: string)
      modifies this`objects
      ensures objects == WithoutSession(old(objects), session)
      ensures forall dir :: dir in objects <==>
                            dir in old(objects)
                            && !(old(objects)[dir].meta.Some? && old(objects)[dir].meta.value.session == Some(session))
      ensures forall dir | dir in objects :: objects[dir] == old(objects)[dir]
    {
      var todo := objects.Keys;
      while todo != {}
        invariant todo <= objects.Keys <= old(objects).Keys
        invariant forall dir | dir in objects :: objects[dir] == old(objects)[dir]
        invariant forall dir | dir in old(objects) && dir !in todo :: dir in objects <==> !OwnedBy(old(objects)[dir], session)
        decreases todo
      {
        var dir :| dir in todo;
        if OwnedBy(objects[dir], session) {
          objects := objects - {dir};
        }
        todo := todo - {dir};
      }
    }

    /** `cleanup_stale_drafts`. */
    method CleanupStaleDrafts(now: nat)
      modifies this`objects
      ensures objects == WithoutStale(old(objects), now)
      ensures forall dir :: dir in objects <==>
                            dir in old(objects)
                            && !(old(objects)[dir].meta.Some? && old(objects)[dir].meta.value.session == None
                                 && now - old(objects)[dir].meta.value.createdAt >= 86_400)
      ensures forall dir | dir in objects :: objects[dir] == old(objects)[dir]
    {
      var todo := objects.Keys;
      while todo != {}
        invariant todo <= objects.Keys <= old(objects).Keys
        invariant forall dir | dir in objects :: objects[dir] == old(objects)[dir]
        invariant forall dir | dir in old(objects) && dir !in todo :: dir in objects <==> !IsStale(old(objects)[dir], now)
        decreases todo
      {
        var dir :| dir in todo;
        if IsStale(objects[dir], now) {
          objects := objects - {dir};
        }
        todo := todo - {dir};
      }
    }
  }

  /** The first `k` ids are bound and resolved. */
  ghost predicate BoundSoFar(env: Env, before: Objects, ids: seq<string>, k: nat, session: string, now: Objects, c: Context)
    requires k <= |ids|
  {
    now == BindAll(env, before, ids[..k], session) && c == Resolved(env, before, ids[..k])
  }

  lemma BoundNone(env: Env, before: Objects, ids: seq<string>, session: string)
    ensures BoundSoFar(env, before, ids, 0, session, before, Context([], [], []))
  {
  }

  lemma BoundSome(env: Env, before: Objects, ids: seq<string>, k: nat, session: string, now: Objects, c: Context)
    requires k <= |ids| && ValidObjects(env, before) && Bindable(env, before, ids, session)
    requires BoundSoFar(env, before, ids, k, session, now, c)
    ensures now == BindAll(env, before, ids[..k], session) && c == Resolved(env, before, ids[..k])
    ensures ValidObjects(env, now)
  {
    hide Sendable;
    BindAllEffect(env, before, ids[..k], session);
  }

  /** Rewriting the metadata loaded before the loop is binding the id in the current state. */
  lemma BindStep(env: Env, before: Objects, ids: seq<string>, k: nat, session: string, m: Meta)
    requires ValidObjects(env, before) && k < |ids| && Bindable(env, before, ids, session)
    requires MetaOf(env, before, ids[k]) == Some(m)
    ensures var mid := BindAll(env, before, ids[..k], session);
            var after := WriteMeta(env, mid, m.(session := Some(session)));
            var content := ContentOf(env, after, ids[k], m);
            && after == BindAll(env, before, ids[..k + 1], session)
            && (m.descriptor.kind.Text? ==> Utf8.Valid(content))
            && forall kind :: Items(env, before, ids[..k + 1], kind)
                 == Items(env, before, ids[..k], kind)
                    + if m.descriptor.kind == kind then [Item(m.descriptor, content, env.sha(content))] else []
  {
    hide Utf8.Valid, Total;
    var mid := BindAll(env, before, ids[..k], session);
    BindAllEffect(env, before, ids[..k], session);
    assert ids[..k + 1][..k] == ids[..k];
    var dir := env.dirOf(ids[k]);
    assert Sendable(env, before, ids[k], session);
    assert ValidObject(env, dir, before[dir]);
    assert BoundOrSame(before[dir], mid[dir], session);
  }

  function TotalOf(metas: seq<Meta>, kind: Kind): nat {
    if metas == [] then 0
    else
      var m := metas[|metas| - 1];
      TotalOf(metas[..|metas| - 1], kind) + if m.descriptor.kind == kind then m.descriptor.size else 0
  }

  lemma TotalOfSnoc(metas: seq<Meta>, m: Meta)
    ensures forall kind :: TotalOf(metas + [m], kind) ==
              TotalOf(metas, kind) + if m.descriptor.kind == kind then m.descriptor.size else 0
  {
  }

  /** The running totals are the totals of a prefix; later ids only add to them. */
  lemma TotalsOver(env: Env, objects: Objects, ids: seq<string>, loaded: seq<Meta>)
    requires |loaded| <= |ids|
    requires forall i | 0 <= i < |loaded| :: MetaOf(env, objects, ids[i]) == Some(loaded[i])
    ensures forall kind :: TotalOf(loaded, kind) <= Total(env, objects, ids, kind)
    ensures |loaded| == |ids| ==> forall kind :: TotalOf(loaded, kind) == Total(env, objects, ids, kind)
    decreases |ids|
  {
    if |loaded| < |ids| {
      TotalsOver(env, objects, ids[..|ids| - 1], loaded);
    } else if ids != [] {
      TotalsOver(env, objects, ids[..|ids| - 1], loaded[..|ids| - 1]);
    }
  }
}
