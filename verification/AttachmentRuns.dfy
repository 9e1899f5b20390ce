/** What every sequence of store operations keeps: ownership, content, sizes. */
module AttachmentRuns {
  import opened AttachmentStore
  import opened Bytes
  import opened Rearranged
  import opened Wrappers
  import Utf8

  datatype Action =
    | StageOp(id: string, name: string, textMime: string, bytes: seq<byte>, now: nat, fault: Option<nat>)
    | BindOp(ids: seq<string>, session: string, stop: Fault)
    | DiscardOp(id: string)
    | DeleteSessionOp(session: string)
    | CleanupOp(now: nat)

  /** The disk, and the directories ever used: a fresh UUID never names an earlier one. */
  datatype State = State(objects: Objects, used: set<string>)

  predicate Enabled(env: Env, s: State, a: Action) {
    a.StageOp? ==> env.dirOf(a.id) !in s.used
  }

  /** The effects the methods of `Store` are proved to have. */
  function Apply(env: Env, s: State, a: Action): State {
    match a
    case StageOp(id, name, mime, bytes, now, fault) =>
      if StageRefusal(env, name, bytes).Some? || (fault.Some? && fault.value < 3) then s
      else State(s.objects[env.dirOf(id) := Staged(env, id, name, mime, bytes, now)], s.used + {env.dirOf(id)})
    case BindOp(ids, session, fault) =>
      if !Bindable(env, s.objects, ids, session) then s
      else s.(objects := BindAll(env, s.objects, BoundIds(ids, fault), session))
    case DiscardOp(id) =>
      if DiscardRefusal(env, s.objects, id).Some? then s else s.(objects := s.objects - {env.dirOf(id)})
    case DeleteSessionOp(session) => s.(objects := WithoutSession(s.objects, session))
    case CleanupOp(now) => s.(objects := WithoutStale(s.objects, now))
  }

  /** Performing an action on the store has the effect that `Apply` says. */
  method Perform(store: Store, ghost s: State, a: Action) returns (ghost t: State)
    requires store.objects == s.objects && Valid(store.env, s) && Enabled(store.env, s, a)
    modifies store`objects
    ensures t == Apply(store.env, s, a) && store.objects == t.objects
  {
    t := Apply(store.env, s, a);
    hide Bindable, Staged, StageRefusal, DiscardRefusal, BindAll;
    match a {
      case StageOp(id, name, mime, bytes, now, fault) =>
        var _ := store.Stage(id, name, mime, bytes, now, fault);
      case BindOp(ids, session, fault) =>
        var _ := store.BindAndResolve(ids, session, fault);
      case DiscardOp(id) =>
        var _ := store.DiscardDraft(id);
      case DeleteSessionOp(session) =>
        store.DeleteSession(session);
      case CleanupOp(now) =>
        store.CleanupStaleDrafts(now);
    }
  }

  /** So performing a run takes an empty store to the state the run leads to. */
  method PerformAll(env: Env, run: seq<Action>) returns (store: Store)
    requires IsRun(env, State(map[], {}), run)
    ensures fresh(store) && store.objects == Run(env, State(map[], {}), run).objects
  {
    hide Apply, Enabled, Valid;
    store := new Store(env);
    ghost var s := State(map[], {});
    EmptyIsValid(env);
    for i := 0 to |run|
      invariant fresh(store) && store.env == env && store.objects == s.objects && Valid(env, s)
      invariant IsRun(env, s, run[i..]) && Run(env, s, run[i..]) == Run(env, State(map[], {}), run)
    {
      assert run[i..][0] == run[i] && run[i..][1..] == run[i + 1..];
      StepKeepsValid(env, s, run[i]);
      s := Perform(store, s, run[i]);
    }
  }

  lemma EmptyIsValid(env: Env)
    ensures Valid(env, State(map[], {}))
  {
  }

  predicate IsRun(env: Env, s: State, run: seq<Action>)
    decreases |run|
  {
    run == [] || (Enabled(env, s, run[0]) && IsRun(env, Apply(env, s, run[0]), run[1..]))
  }

  function Run(env: Env, s: State, run: seq<Action>): State
    decreases |run|
  {
    if run == [] then s else Run(env, Apply(env, s, run[0]), run[1..])
  }

  ghost predicate Valid(env: Env, s: State) {
    ValidObjects(env, s.objects) && s.objects.Keys <= s.used
  }

  /** What one step may do to an object that survives it. */
  ghost predicate Evolves(o: Object, p: Object, a: Action) {
    p == o || (a.BindOp? && BoundOrSame(o, p, a.session))
  }

  /** Why an object may disappear in a step. */
  ghost predicate MayVanish(o: Object, a: Action) {
    (IsDraft(o) && (a.DiscardOp? || a.CleanupOp?)) || (a.DeleteSessionOp? && OwnedBy(o, a.session))
  }

  lemma BindEffect(env: Env, s: State, a: Action)
    requires Valid(env, s) && a.BindOp? && Bindable(env, s.objects, a.ids, a.session)
    ensures var after := BindAll(env, s.objects, BoundIds(a.ids, a.stop), a.session);
            ValidObjects(env, after) && OnlyBinds(s.objects, after, a.session)
  {
    hide Sendable, ValidObjects;
    BindAllEffect(env, s.objects, BoundIds(a.ids, a.stop), a.session);
  }

  lemma StepKeepsValid(env: Env, s: State, a: Action)
    requires Valid(env, s) && Enabled(env, s, a)
    ensures Valid(env, Apply(env, s, a)) && s.used <= Apply(env, s, a).used
  {
    hide Utf8.Valid;
    match a {
      case StageOp(id, name, mime, bytes, now, fault) =>
        if StageRefusal(env, name, bytes).None? {
          StagedIsValid(env, id, name, mime, bytes, now);
        }
      case BindOp(ids, session, fault) =>
        if Bindable(env, s.objects, ids, session) {
          BindEffect(env, s, a);
        }
      case _ =>
    }
  }

  lemma StepEvolves(env: Env, s: State, a: Action, dir: string)
    requires Valid(env, s) && Enabled(env, s, a) && dir in s.objects
    ensures var after := Apply(env, s, a).objects;
            if dir in after then Evolves(s.objects[dir], after[dir], a) else MayVanish(s.objects[dir], a)
  {
    assert ValidObject(env, dir, s.objects[dir]);
    hide Utf8.Valid, Staged, StageRefusal, ValidObject;
    if a.BindOp? && Bindable(env, s.objects, a.ids, a.session) {
      BindEffect(env, s, a);
    }
  }

  lemma {:induction false} RunKeepsValid(env: Env, s: State, run: seq<Action>)
    requires Valid(env, s) && IsRun(env, s, run)
    ensures Valid(env, Run(env, s, run)) && s.used <= Run(env, s, run).used
    decreases |run|
  {
    hide Valid, Apply, Enabled;
    if run != [] {
      StepKeepsValid(env, s, run[0]);
      RunKeepsValid(env, Apply(env, s, run[0]), run[1..]);
    }
  }

  /** Over every run from an empty disk, recorded sizes are content lengths within the cap of the kind. */
  lemma SizesAlwaysWithinCaps(env: Env, run: seq<Action>, dir: string)
    requires IsRun(env, State(map[], {}), run) && dir in Run(env, State(map[], {}), run).objects
    ensures var o := Run(env, State(map[], {}), run).objects[dir];
            && o.meta.Some? && o.meta.value.storedName in o.files
            && o.meta.value.descriptor.size == |o.files[o.meta.value.storedName]|
            && 0 < o.meta.value.descriptor.size <= Cap(o.meta.value.descriptor.kind)
  {
    RunKeepsValid(env, State(map[], {}), run);
    hide Run, IsRun, Apply;
    assert ValidObject(env, dir, Run(env, State(map[], {}), run).objects[dir]);
  }

  /** A bound attachment is untouched by every run that does not delete its own session. */
  lemma {:induction false} BoundStays(env: Env, s: State, run: seq<Action>, dir: string, session: string)
    requires Valid(env, s) && IsRun(env, s, run)
    requires dir in s.objects && OwnedBy(s.objects[dir], session)
    requires DeleteSessionOp(session) !in run
    ensures dir in Run(env, s, run).objects && Run(env, s, run).objects[dir] == s.objects[dir]
    decreases |run|
  {
    if run != [] {
      StepEvolves(env, s, run[0], dir);
      StepKeepsValid(env, s, run[0]);
      assert run[0] in run;
      hide Apply, Enabled, Valid;
      BoundStays(env, Apply(env, s, run[0]), run[1..], dir, session);
    }
  }

  /** The same attachment later: same descriptor, same content, and a session it had is the session it has. */
  ghost predicate SameAttachment(o: Object, p: Object) {
    && o.files == p.files && o.meta.Some? && p.meta.Some?
    && p.meta.value.(session := o.meta.value.session) == o.meta.value
    && (o.meta.value.session.Some? ==> p.meta.value.session == o.meta.value.session)
  }

  ghost predicate Absent(s: State, dir: string) {
    dir in s.used && dir !in s.objects
  }

  lemma {:induction false} GoneForGood(env: Env, s: State, run: seq<Action>, dir: string)
    requires Valid(env, s) && IsRun(env, s, run) && Absent(s, dir)
    ensures dir !in Run(env, s, run).objects
    decreases |run|
  {
    if run != [] {
      StepKeepsValid(env, s, run[0]);
      if run[0].BindOp? && Bindable(env, s.objects, run[0].ids, run[0].session) {
        BindEffect(env, s, run[0]);
      }
      hide Bindable, BindAll, Valid, Staged, StageRefusal, DiscardRefusal;
      assert Absent(Apply(env, s, run[0]), dir);
      hide Apply, Enabled;
      GoneForGood(env, Apply(env, s, run[0]), run[1..], dir);
    }
  }

  /** Whatever happens, an attachment still present has its content, and its session was set at most once. */
  lemma {:induction false} SessionSetOnce(env: Env, s: State, run: seq<Action>, dir: string)
    requires Valid(env, s) && IsRun(env, s, run) && dir in s.objects
    ensures dir in Run(env, s, run).objects ==> SameAttachment(s.objects[dir], Run(env, s, run).objects[dir])
    decreases |run|
  {
    assert ValidObject(env, dir, s.objects[dir]);
    hide Utf8.Valid;
    if run != [] {
      var t := Apply(env, s, run[0]);
      StepKeepsValid(env, s, run[0]);
      StepEvolves(env, s, run[0], dir);
      hide Apply, Enabled, Valid, ValidObject;
      if dir in t.objects {
        SessionSetOnce(env, t, run[1..], dir);
      } else {
        Vanished(env, s, run[0], dir);
        GoneForGood(env, t, run[1..], dir);
      }
    }
  }

  lemma Vanished(env: Env, s: State, a: Action, dir: string)
    requires Valid(env, s) && Enabled(env, s, a) && dir in s.objects && dir !in Apply(env, s, a).objects
    ensures Absent(Apply(env, s, a), dir)
  {
    StepKeepsValid(env, s, a);
  }

  // ---------- an accepted turn ----------

  function ContentTotal(items: seq<Item>): nat {
    if items == [] then 0 else ContentTotal(items[..|items| - 1]) + |items[|items| - 1].content|
  }

  /** A listed item has its recorded size. */
  lemma LastSize(env: Env, objects: Objects, id: string)
    requires ValidObjects(env, objects)
    ensures ItemOf(env, objects, id).Some? <==> MetaOf(env, objects, id).Some?
    ensures ItemOf(env, objects, id).Some? ==>
              var item := ItemOf(env, objects, id).value;
              && item.descriptor == MetaOf(env, objects, id).value.descriptor
              && |item.content| == item.descriptor.size
  {
    hide Utf8.Valid;
    if env.dirOf(id) in objects {
      assert ValidObject(env, env.dirOf(id), objects[env.dirOf(id)]);
    }
  }

  lemma ContentTotalSnoc(items: seq<Item>, item: Item)
    ensures ContentTotal(items + [item]) == ContentTotal(items) + |item.content|
  {
    assert (items + [item])[..|items|] == items;
  }

  lemma {:induction false} ContentTotals(env: Env, objects: Objects, ids: seq<string>, kind: Kind)
    requires ValidObjects(env, objects)
    ensures ContentTotal(Items(env, objects, ids, kind)) == Total(env, objects, ids, kind)
  {
    hide ItemOf, MetaOf, ValidObjects, ContentTotal;
    if ids == [] {
      assert ContentTotal([]) == 0 by {
        NoContent();
      }
    } else {
      var prev, id := ids[..|ids| - 1], ids[|ids| - 1];
      ContentTotals(env, objects, prev, kind);
      LastSize(env, objects, id);
      var before, item := Items(env, objects, prev, kind), ItemOf(env, objects, id);
      if item.Some? && item.value.descriptor.kind == kind {
        assert Items(env, objects, ids, kind) == before + [item.value];
        ContentTotalSnoc(before, item.value);
      } else {
        assert Items(env, objects, ids, kind) == before;
      }
    }
  }

  lemma NoContent()
    ensures ContentTotal([]) == 0
  {
  }

  /** An accepted turn carries one item per id, at most 512 KiB of text and at most 128 MiB of audio. */
  lemma {:induction false} AcceptedTurn(env: Env, objects: Objects, ids: seq<string>, session: string)
    requires ValidObjects(env, objects) && Bindable(env, objects, ids, session)
    ensures var c := Resolved(env, objects, ids);
            && |c.images| + |c.texts| + |c.audio| == |ids| <= MAX_ATTACHMENTS_PER_TURN
            && ContentTotal(c.texts) <= MAX_TEXT_BYTES
            && ContentTotal(c.audio) <= MAX_AUDIO_BYTES_PER_TURN
            && (forall i | 0 <= i < |ids| :: IsBound(env, BindAll(env, objects, ids, session), ids[i], session))
  {
    ContentTotals(env, objects, ids, Text);
    ContentTotals(env, objects, ids, Audio);
    forall i | 0 <= i < |ids| ensures MetaOf(env, objects, ids[i]).Some? {
      assert Sendable(env, objects, ids[i], session);
    }
    OneItemPerId(env, objects, ids);
    BindAllEffect(env, objects, ids, session);
  }

  // ---------- sending an attachment twice ----------

  /** Everything a turn sends. */
  function SentItems(c: Context): seq<Item> {
    c.images + c.texts + c.audio
  }

  predicate DescriptorsDiffer(items: seq<Item>) {
    forall p, q | 0 <= p < q < |items| :: items[p].descriptor.id != items[q].descriptor.id
  }

  /** The items of the ids in the order of the ids, whatever their kind. */
  function InOrder(env: Env, objects: Objects, ids: seq<string>): (items: seq<Item>)
    requires forall i | 0 <= i < |ids| :: ItemOf(env, objects, ids[i]).Some?
    ensures |items| == |ids|
  {
    seq(|ids|, i requires 0 <= i < |ids| => ItemOf(env, objects, ids[i]).value)
  }

  lemma OneMoreItem(env: Env, objects: Objects, ids: seq<string>)
    requires ids != [] && forall i | 0 <= i < |ids| :: ItemOf(env, objects, ids[i]).Some?
    ensures var prev, item := ids[..|ids| - 1], ItemOf(env, objects, ids[|ids| - 1]).value;
            && InOrder(env, objects, ids) == InOrder(env, objects, prev) + [item]
            && forall kind :: Items(env, objects, ids, kind) ==
                 Items(env, objects, prev, kind) + if item.descriptor.kind == kind then [item] else []
  {
    hide ItemOf;
  }

  /** The three lists of a turn hold the items of its ids, rearranged. */
  lemma {:induction false} SentIsInOrder(env: Env, objects: Objects, ids: seq<string>)
    requires forall i | 0 <= i < |ids| :: ItemOf(env, objects, ids[i]).Some?
    ensures multiset(SentItems(Resolved(env, objects, ids))) == multiset(InOrder(env, objects, ids))
  {
    if ids != [] {
      hide ItemOf, Items, InOrder;
      var prev, item := ids[..|ids| - 1], ItemOf(env, objects, ids[|ids| - 1]).value;
      SentIsInOrder(env, objects, prev);
      OneMoreItem(env, objects, ids);
      var before, after := Resolved(env, objects, prev), Resolved(env, objects, ids);
      hide Resolved;
      assert multiset(SentItems(after)) == multiset(SentItems(before)) + multiset{item};
    }
  }

  function IfOfKind(item: Item, kind: Kind): seq<Item> {
    if item.descriptor.kind == kind then [item] else []
  }

  /** The items of one kind, from the first on. */
  function OfKind(items: seq<Item>, kind: Kind): seq<Item> {
    if items == [] then [] else IfOfKind(items[0], kind) + OfKind(items[1..], kind)
  }

  lemma {:induction false} OfKindSnoc(items: seq<Item>, item: Item, kind: Kind)
    ensures OfKind(items + [item], kind) == OfKind(items, kind) + IfOfKind(item, kind)
  {
    hide IfOfKind;
    if items == [] {
      assert (items + [item])[1..] == [];
    } else {
      var rest := items[1..];
      OfKindSnoc(rest, item, kind);
      assert (items + [item])[1..] == rest + [item];
      assert OfKind(items + [item], kind) == IfOfKind(items[0], kind) + OfKind(rest + [item], kind);
      assert OfKind(items, kind) == IfOfKind(items[0], kind) + OfKind(rest, kind);
    }
  }

  /** Each of the three lists keeps the order in which the ids were given. */
  lemma {:induction false} ListsKeepOrder(env: Env, objects: Objects, ids: seq<string>, kind: Kind)
    requires forall i | 0 <= i < |ids| :: ItemOf(env, objects, ids[i]).Some?
    ensures Items(env, objects, ids, kind) == OfKind(InOrder(env, objects, ids), kind)
  {
    if ids == [] {
      assert InOrder(env, objects, ids) == [];
    } else {
      hide ItemOf, OfKind, InOrder;
      var prev, item := ids[..|ids| - 1], ItemOf(env, objects, ids[|ids| - 1]).value;
      ListsKeepOrder(env, objects, prev, kind);
      OneMoreItem(env, objects, ids);
      OfKindSnoc(InOrder(env, objects, prev), item, kind);
    }
  }

  /** The item is what was staged: its name, its detected type, its bytes and their digest. */
  predicate IsStagedItem(env: Env, item: Item, id: string, name: string, textMime: string, bytes: seq<byte>) {
    && item.content == bytes && item.sha256 == env.sha(bytes)
    && item.descriptor.id == id && item.descriptor.name == name && item.descriptor.size == |bytes|
    && match env.sniff(bytes)
       case IsImage(mime, _) => item.descriptor.kind == Image && item.descriptor.mime == mime
       case IsAudio(mime, _) => item.descriptor.kind == Audio && item.descriptor.mime == mime
       case Neither => item.descriptor.kind == Text && item.descriptor.mime == textMime
  }

  lemma DraftIsItem(env: Env, o: Object, objects: Objects, id: string, name: string, textMime: string, bytes: seq<byte>, now: nat)
    requires IsNewDraft(env, o, id, name, textMime, bytes, now)
    requires env.dirOf(id) in objects && SameAttachment(o, objects[env.dirOf(id)])
    ensures ItemOf(env, objects, id).Some?
    ensures IsStagedItem(env, ItemOf(env, objects, id).value, id, name, textMime, bytes)
  {
  }

  /**
  What is sent is what was staged, whatever happens in between: every turn that accepts the id
  carries its name, its bytes and their digest, each list in the order of the ids.
  */
  lemma StagedIsSent(env: Env, s: State, stage: Action, run: seq<Action>, ids: seq<string>, session: string, k: nat)
    requires Valid(env, s) && stage.StageOp? && stage.fault == None && IsRun(env, s, [stage] + run)
    requires IsStageable(env, stage.name, stage.bytes)
    requires Bindable(env, Run(env, s, [stage] + run).objects, ids, session) && k < |ids| && ids[k] == stage.id
    ensures var objects := Run(env, s, [stage] + run).objects;
            && (forall i | 0 <= i < |ids| :: ItemOf(env, objects, ids[i]).Some?)
            && var all := InOrder(env, objects, ids);
               && IsStagedItem(env, all[k], stage.id, stage.name, stage.textMime, stage.bytes)
               && Resolved(env, objects, ids) == Context(OfKind(all, Image), OfKind(all, Text), OfKind(all, Audio))
  {
    var t, dir := Apply(env, s, stage), env.dirOf(stage.id);
    assert ([stage] + run)[0] == stage && ([stage] + run)[1..] == run;
    var objects := Run(env, t, run).objects;
    StageableIff(env, stage.name, stage.bytes);
    StagedIsNewDraft(env, stage.id, stage.name, stage.textMime, stage.bytes, stage.now);
    StepKeepsValid(env, s, stage);
    SessionSetOnce(env, t, run, dir);
    forall i | 0 <= i < |ids| ensures ItemOf(env, objects, ids[i]).Some? && env.dirOf(ids[i]) in objects {
      assert Sendable(env, objects, ids[i], session);
    }
    hide Apply, Enabled, Bindable, IsNewDraft, IsStageable, StageRefusal, Staged, SameAttachment, ItemOf, Valid, OfKind;
    assert ids[k] == stage.id;
    DraftIsItem(env, t.objects[dir], objects, stage.id, stage.name, stage.textMime, stage.bytes, stage.now);
    forall kind ensures Items(env, objects, ids, kind) == OfKind(InOrder(env, objects, ids), kind) {
      ListsKeepOrder(env, objects, ids, kind);
    }
  }

  /** Whether descriptors differ does not depend on the order. */
  lemma RearrangedDiffer(a: seq<Item>, b: seq<Item>)
    requires multiset(a) == multiset(b) && DescriptorsDiffer(a)
    ensures DescriptorsDiffer(b)
  {
    forall p, q | 0 <= p < q < |b| ensures b[p].descriptor.id != b[q].descriptor.id {
      SubmultisetOfTwo(b, p, q);
      var i, j := TwoPositions(a, b[p], b[q]);
    }
  }

  /** An accepted turn sends no attachment twice exactly when no two of its ids name the same directory. */
  lemma SentOnceIff(env: Env, objects: Objects, ids: seq<string>, session: string)
    requires ValidObjects(env, objects) && Bindable(env, objects, ids, session)
    ensures DescriptorsDiffer(SentItems(Resolved(env, objects, ids)))
        <==> (forall i, j | 0 <= i < j < |ids| :: env.dirOf(ids[i]) != env.dirOf(ids[j]))
  {
    hide Utf8.Valid, Total, Items;
    forall i | 0 <= i < |ids|
      ensures ItemOf(env, objects, ids[i]).Some?
      ensures env.dirOf(ItemOf(env, objects, ids[i]).value.descriptor.id) == env.dirOf(ids[i])
    {
      assert Sendable(env, objects, ids[i], session);
      assert ValidObject(env, env.dirOf(ids[i]), objects[env.dirOf(ids[i])]);
    }
    var sent, items := SentItems(Resolved(env, objects, ids)), InOrder(env, objects, ids);
    SentIsInOrder(env, objects, ids);
    hide Resolved, SentItems, Bindable, ValidObjects;
    if DescriptorsDiffer(sent) {
      RearrangedDiffer(sent, items);
    }
    if DescriptorsDiffer(items) {
      RearrangedDiffer(items, sent);
    }
    SameDirectoryIff(env, objects, ids, items);
  }

  lemma SameDirectoryIff(env: Env, objects: Objects, ids: seq<string>, items: seq<Item>)
    requires forall i | 0 <= i < |ids| :: ItemOf(env, objects, ids[i]).Some?
                                         && env.dirOf(ItemOf(env, objects, ids[i]).value.descriptor.id) == env.dirOf(ids[i])
    requires items == InOrder(env, objects, ids)
    ensures DescriptorsDiffer(items) <==> (forall i, j | 0 <= i < j < |ids| :: env.dirOf(ids[i]) != env.dirOf(ids[j]))
  {
    if i, j :| 0 <= i < j < |ids| && env.dirOf(ids[i]) == env.dirOf(ids[j]) {
      assert ItemOf(env, objects, ids[i]) == ItemOf(env, objects, ids[j]);
      assert items[i].descriptor.id == items[j].descriptor.id;
    } else {
      forall i, j | 0 <= i < j < |ids| ensures items[i].descriptor.id != items[j].descriptor.id {
        assert env.dirOf(items[i].descriptor.id) == env.dirOf(ids[i]);
        assert env.dirOf(items[j].descriptor.id) == env.dirOf(ids[j]);
      }
    }
  }

  /** Two spellings of one id pass the duplicate check where the file system folds case. */
  lemma SpellingsSentTwice(env: Env, objects: Objects, a: string, b: string, session: string)
    requires ValidObjects(env, objects) && a != b && env.dirOf(a) == env.dirOf(b)
    requires Sendable(env, objects, a, session) && env.isUuid(b)
    requires MetaOf(env, objects, a).value.descriptor.kind.Image?
    ensures Bindable(env, objects, [a, b], session)
    ensures |Resolved(env, objects, [a, b]).images| == 2
    ensures Resolved(env, objects, [a, b]).images[0] == Resolved(env, objects, [a, b]).images[1]
  {
    var ids, item := [a, b], ItemOf(env, objects, a).value;
    assert ids[..1] == [a] && [a][..0] == [];
    assert Sendable(env, objects, b, session);
    forall kind | kind != Image ensures Total(env, objects, ids, kind) == 0 {
      assert Total(env, objects, [a], kind) == 0;
    }
    assert Items(env, objects, [a], Image) == [item];
    assert Items(env, objects, ids, Image) == [item] + [item];
  }
}
