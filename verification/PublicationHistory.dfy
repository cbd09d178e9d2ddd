/** The append-only histories: what each owner keeps, what its validators check,
    and how one publication is staged and committed or leaves no trace. */
module PublicationHistory {
  import opened Basics

  datatype Entry<C> = Entry(
    executionId: string, namespace: string, sequence: int,
    started: Instant, completed: Instant, available: Instant, content: C)

  /** The pair that is replaced as a whole by a commit. */
  datatype State<C> = State(next: int, entries: seq<Entry<C>>)

  predicate DistinctIds<C>(entries: seq<Entry<C>>) {
    forall i, j :: 0 <= i < j < |entries| ==> entries[i].executionId != entries[j].executionId
  }

  predicate AvailabilityOrdered<C>(entries: seq<Entry<C>>) {
    forall i, j :: 0 <= i < j < |entries| ==> entries[i].available <= entries[j].available
  }

  predicate Numbered<C>(namespace: string, st: State<C>) {
    && st.next == |st.entries| + 1
    && (forall i :: 0 <= i < |st.entries| ==> st.entries[i].sequence == i + 1 && st.entries[i].namespace == namespace)
  }

  /** The invariant of a history that nobody has corrupted. */
  predicate Sound<C>(namespace: string, st: State<C>) {
    Numbered(namespace, st) && DistinctIds(st.entries) && AvailabilityOrdered(st.entries)
  }

  /** What `_validate_retained_entries` accepts: sequence gaps are allowed here. */
  predicate Retained<C>(namespace: string, entries: seq<Entry<C>>) {
    && (forall i :: 0 <= i < |entries| ==> entries[i].namespace == namespace && entries[i].sequence > 0)
    && (forall i, j :: 0 <= i < j < |entries| ==> entries[i].sequence < entries[j].sequence)
    && DistinctIds(entries)
    && AvailabilityOrdered(entries)
  }

  /** No record identity stands for two contents. */
  predicate RecordsAgree<C, R(==)>(entries: seq<Entry<C>>, key: C -> string, record: C -> R) {
    forall i, j :: 0 <= i < j < |entries| && key(entries[i].content) == key(entries[j].content)
      ==> record(entries[i].content) == record(entries[j].content)
  }

  /** What `_require_complete_sequence` accepts. */
  predicate Complete<C>(st: State<C>) {
    && st.next == |st.entries| + 1
    && forall i :: 0 <= i < |st.entries| ==> st.entries[i].sequence == i + 1
  }

  /** The occurrence validator of bridge, technical, interpretation, assessment,
      strategy and qualification: one pass with a running id set and instant. */
  method ValidateOccurrences<C>(namespace: string, st: State<C>) returns (ok: bool)
    ensures ok <==> Sound(namespace, st)
  {
    if st.next != |st.entries| + 1 { return false; }
    var ids: set<string> := {};
    var previous: Option<Instant> := None;
    for index := 0 to |st.entries|
      invariant ids == set i | 0 <= i < index :: st.entries[i].executionId
      invariant previous == if index == 0 then None else Some(st.entries[index - 1].available)
      invariant Sound(namespace, State(index + 1, st.entries[..index]))
    {
      var item := st.entries[index];
      if item.namespace != namespace || item.sequence != index + 1 || item.executionId in ids
         || (previous.Some? && item.available < previous.value)
      {
        if item.executionId in ids {
          ghost var k :| 0 <= k < index && st.entries[k].executionId == item.executionId;
        }
        return false;
      }
      ids := ids + {item.executionId};
      previous := Some(item.available);
    }
    assert st.entries[..|st.entries|] == st.entries;
    return true;
  }

  predicate RetainedUpTo<C>(namespace: string, entries: seq<Entry<C>>, n: nat)
    requires n <= |entries|
  {
    && (forall i :: 0 <= i < n ==> entries[i].namespace == namespace && entries[i].sequence > 0)
    && (forall i, j :: 0 <= i < j < n ==>
          && entries[i].sequence < entries[j].sequence
          && entries[i].executionId != entries[j].executionId
          && entries[i].available <= entries[j].available)
  }

  lemma {:induction false} ExtendRetained<C>(namespace: string, entries: seq<Entry<C>>, n: nat)
    requires n < |entries| && RetainedUpTo(namespace, entries, n)
    requires entries[n].namespace == namespace && entries[n].sequence > 0
    requires forall i :: 0 <= i < n ==> entries[i].executionId != entries[n].executionId
    requires n > 0 ==> entries[n - 1].sequence < entries[n].sequence && entries[n - 1].available <= entries[n].available
    ensures RetainedUpTo(namespace, entries, n + 1)
  {
    forall i | 0 <= i < n
      ensures entries[i].sequence < entries[n].sequence && entries[i].available <= entries[n].available
    {
      assert i < n - 1 ==> entries[i].sequence < entries[n - 1].sequence;
    }
  }

  lemma {:induction false} ClashIsNotRetained<C>(namespace: string, entries: seq<Entry<C>>, k: nat, index: nat)
    requires k < index < |entries|
    requires entries[k].executionId == entries[index].executionId || entries[k].sequence >= entries[index].sequence
      || entries[k].available > entries[index].available
    ensures !Retained(namespace, entries)
  {
  }

  /** The validator of the construction, validation, freshness and admission
      histories, with its running sets. */
  method ValidateRetained<C>(namespace: string, entries: seq<Entry<C>>) returns (ok: bool)
    ensures ok <==> Retained(namespace, entries)
  {
    var ids: set<string> := {};
    var sequences: set<int> := {};
    var priorSequence := 0;
    var priorAvailable: Option<Instant> := None;
    for index := 0 to |entries|
      invariant ids == set i | 0 <= i < index :: entries[i].executionId
      invariant sequences == set i | 0 <= i < index :: entries[i].sequence
      invariant priorSequence == if index == 0 then 0 else entries[index - 1].sequence
      invariant priorAvailable == if index == 0 then None else Some(entries[index - 1].available)
      invariant RetainedUpTo(namespace, entries, index)
    {
      var item := entries[index];
      if item.namespace != namespace || item.executionId in ids || item.sequence in sequences
         || item.sequence <= priorSequence || (priorAvailable.Some? && item.available < priorAvailable.value)
      {
        if item.executionId in ids {
          ghost var k :| 0 <= k < index && entries[k].executionId == item.executionId;
          ClashIsNotRetained(namespace, entries, k, index);
        } else if item.sequence in sequences {
          ghost var k :| 0 <= k < index && entries[k].sequence == item.sequence;
          ClashIsNotRetained(namespace, entries, k, index);
        } else if item.namespace == namespace && index > 0 {
          ClashIsNotRetained(namespace, entries, index - 1, index);
        }
        return false;
      }
      ExtendRetained(namespace, entries, index);
      ids := ids + {item.executionId};
      sequences := sequences + {item.sequence};
      priorSequence := item.sequence;
      priorAvailable := Some(item.available);
    }
    return true;
  }

  /** The part of the validation, freshness and admission validators that keeps a dictionary
      of records by identity. */
  method ValidateRecords<C, R(==)>(entries: seq<Entry<C>>, key: C -> string, record: C -> R) returns (ok: bool)
    ensures ok <==> RecordsAgree(entries, key, record)
  {
    var records: map<string, R> := map[];
    for index := 0 to |entries|
      invariant forall i :: 0 <= i < index ==>
        key(entries[i].content) in records && records[key(entries[i].content)] == record(entries[i].content)
      invariant forall k :: k in records ==> exists i :: 0 <= i < index && key(entries[i].content) == k
      invariant RecordsAgree(entries[..index], key, record)
    {
      var item := entries[index].content;
      if key(item) in records && records[key(item)] != record(item) {
        ghost var k :| 0 <= k < index && key(entries[k].content) == key(item);
        return false;
      }
      records := records[key(item) := record(item)];
    }
    assert entries[..|entries|] == entries;
    ok := true;
  }

  /** The two validator families agree once the numbering is complete. */
  lemma {:induction false} ValidatorsAgree<C>(namespace: string, st: State<C>)
    ensures Sound(namespace, st) <==> Complete(st) && Retained(namespace, st.entries)
  {
  }

  // ---- One publication ----

  /** Where a publication can raise besides its clock: while staging, and in the
      checks after the availability sample. */
  datatype Seams = Seams(stagingRaises: bool, finalChecksRaise: bool)

  /** One attempt: `available` is the last clock sample, absent when the clock raised. */
  datatype Attempt<C> = Attempt(
    executionId: string, content: C, started: Instant, completed: Instant,
    available: Option<Instant>, seams: Seams)

  /** Three families of owners. `Retaining` (construction, validation, freshness,
      admission, validity) and `Checking` (qualification, bridge) validate and
      append; `Pinned` (technical, interpretation, assessment, strategy) also
      refuses a retained execution id and pins its own commitment. */
  datatype Family = Retaining | Checking | Pinned

  function LastAvailable<C>(st: State<C>, default: Instant): Instant {
    if st.entries == [] then default else st.entries[|st.entries| - 1].available
  }

  predicate Publishes<C>(family: Family, namespace: string, st: State<C>, a: Attempt<C>) {
    && Sound(namespace, st)
    && a.started <= a.completed
    && !a.seams.stagingRaises && !a.seams.finalChecksRaise
    && a.available.Some? && a.completed <= a.available.value
    && LastAvailable(st, a.completed) <= a.available.value
    && (family.Pinned? ==> forall i :: 0 <= i < |st.entries| ==> st.entries[i].executionId != a.executionId)
  }

  function Published<C>(namespace: string, st: State<C>, a: Attempt<C>): Entry<C>
    requires a.available.Some?
  {
    Entry(a.executionId, namespace, st.next, a.started, a.completed, a.available.value, a.content)
  }

  function After<C>(family: Family, namespace: string, st: State<C>, a: Attempt<C>): State<C> {
    if Publishes(family, namespace, st, a)
    then State(st.next + 1, st.entries + [Published(namespace, st, a)])
    else st
  }

  /** Field by field: what one attempt must meet. */
  predicate MayAppend<C>(family: Family, namespace: string, st: State<C>, a: Attempt<C>) {
    && st.next == |st.entries| + 1
    && (forall i :: 0 <= i < |st.entries| ==> st.entries[i].sequence == i + 1 && st.entries[i].namespace == namespace)
    && (forall i, j :: 0 <= i < j < |st.entries| ==>
          st.entries[i].executionId != st.entries[j].executionId && st.entries[i].available <= st.entries[j].available)
    && a.available.Some? && a.started <= a.completed <= a.available.value
    && (forall i :: 0 <= i < |st.entries| ==> st.entries[i].available <= a.available.value)
    && a.seams == Seams(false, false)
    && (family == Pinned ==> forall i :: 0 <= i < |st.entries| ==> st.entries[i].executionId != a.executionId)
  }

  /** One attempt appends one entry with its own id, clocks and content under the next
      number, exactly when those conditions hold, and otherwise changes nothing. */
  lemma {:induction false} AppendsExactly<C>(family: Family, namespace: string, st: State<C>, a: Attempt<C>)
    ensures After(family, namespace, st, a) ==
      if MayAppend(family, namespace, st, a)
      then State(st.next + 1, st.entries
        + [Entry(a.executionId, namespace, st.next, a.started, a.completed, a.available.value, a.content)])
      else st
  {
    var n := |st.entries|;
    if n > 0 && Sound(namespace, st) && a.available.Some? && st.entries[n - 1].available <= a.available.value {
      forall i | 0 <= i < n ensures st.entries[i].available <= a.available.value {
        assert i < n - 1 ==> st.entries[i].available <= st.entries[n - 1].available;
      }
    }
  }

  /** What callbacks write into the owner while an entry is staged, if anything. */
  datatype Meddling<C> = Meddling(state: Option<State<C>>, committed: Option<State<C>>, pending: Option<Option<Entry<C>>>)

  predicate IsQuiet<C>(m: Meddling<C>) {
    m.state.None? && m.committed.None? && m.pending.None?
  }

  /** Nothing is staged before these checks have passed. */
  predicate Stages<C>(namespace: string, st: State<C>, a: Attempt<C>) {
    Sound(namespace, st) && a.started <= a.completed && !a.seams.stagingRaises
  }

  /** The entry shown to the staging callbacks: the retaining owners give it an availability
      that fits the history already, the others that of the completion. */
  function StagedEntry<C>(family: Family, namespace: string, st: State<C>, a: Attempt<C>): Entry<C> {
    var last := LastAvailable(st, a.completed);
    Entry(a.executionId, namespace, st.next, a.started, a.completed,
      if family.Retaining? && last > a.completed then last else a.completed, a.content)
  }

  /** The staged entry is the one to be published, but for its availability: that is the
      completion, and for the retaining owners the least instant not before the completion
      nor before any retained availability. */
  lemma {:induction false} StagedExactly<C>(family: Family, namespace: string, st: State<C>, a: Attempt<C>)
    requires Sound(namespace, st)
    ensures var staged := StagedEntry(family, namespace, st, a);
      && staged == Entry(a.executionId, namespace, st.next, a.started, a.completed, staged.available, a.content)
      && a.completed <= staged.available
      && (family == Retaining ==> forall i :: 0 <= i < |st.entries| ==> st.entries[i].available <= staged.available)
      && (a.completed == staged.available
          || (family == Retaining && exists i :: 0 <= i < |st.entries| && st.entries[i].available == staged.available))
  {
    var n := |st.entries|;
    forall i | 0 <= i < n ensures st.entries[i].available <= st.entries[n - 1].available {
      assert i < n - 1 ==> st.entries[i].available <= st.entries[n - 1].available;
    }
  }

  predicate Still<T(==)>(written: Option<T>, was: T) {
    written.None? || written.value == was
  }

  /** What the final checks compare: admission and validity their state, the pinned owners
      also the commitment and the staged entry. The others compare nothing. */
  predicate Unmeddled<C(==)>(family: Family, rechecks: bool, st: State<C>, staged: Entry<C>, m: Meddling<C>) {
    && (rechecks || family.Pinned? ==> Still(m.state, st))
    && (family.Pinned? ==> Still(m.committed, st) && Still(m.pending, Some(staged)))
  }

  /** The owner of one history and, for the pinned family, the publishing
      service's own commitment to it. `rechecks`: it compares its state again at the end. */
  class Publisher<C(==)> {
    const family: Family
    const rechecks: bool
    const namespace: string
    var state: State<C>
    var committed: State<C>
    var pending: Option<Entry<C>>

    ghost predicate Idle()
      reads this
    {
      committed == state && pending == None && Numbered(namespace, state)
    }

    constructor (family: Family, rechecks: bool, namespace: string)
      ensures Idle() && this.family == family && this.rechecks == rechecks && this.namespace == namespace
      ensures state == State(1, [])
    {
      this.family, this.rechecks, this.namespace := family, rechecks, namespace;
      state, committed, pending := State(1, []), State(1, []), None;
    }

    /** What a callback does while an entry is staged. Only a pinned owner has a commitment
        of its own. */
    method Meddle(m: Meddling<C>)
      modifies this
      ensures state == if m.state.Some? then m.state.value else old(state)
      ensures committed == if family.Pinned? && m.committed.Some? then m.committed.value else old(committed)
      ensures pending == if m.pending.Some? then m.pending.value else old(pending)
    {
      if m.state.Some? { state := m.state.value; }
      if family.Pinned? && m.committed.Some? { committed := m.committed.value; }
      if m.pending.Some? { pending := m.pending.value; }
    }

    /** The validator of the family, on a state whose numbering is complete. */
    method Validate() returns (valid: bool)
      requires Idle()
      ensures valid <==> Sound(namespace, state)
    {
      ValidatorsAgree(namespace, state);
      if family.Retaining? {
        valid := ValidateRetained(namespace, state.entries);
      } else {
        valid := ValidateOccurrences(namespace, state);
      }
    }

    /** Stage, sample availability, recheck, commit. Whatever callbacks write meanwhile, a
        commit appends the one entry to the state that was validated, and a refusal
        publishes nothing; what a callback wrote then stays as it left it. Without
        callbacks either the one entry is appended or nothing has changed. */
    method Publish(a: Attempt<C>, m: Meddling<C>) returns (result: Option<Entry<C>>)
      requires Idle()
      modifies this
      ensures pending == None
      ensures result.Some? <==>
        && Publishes(family, namespace, old(state), a)
        && Unmeddled(family, rechecks, old(state), StagedEntry(family, namespace, old(state), a), m)
      ensures result.Some? ==>
        state == committed == After(family, namespace, old(state), a) && result.value == state.entries[|state.entries| - 1]
      ensures result.None? ==>
        && state == (if Stages(namespace, old(state), a) && m.state.Some? then m.state.value else old(state))
        && committed == (if Stages(namespace, old(state), a) && family.Pinned? && m.committed.Some? then m.committed.value else old(state))
      ensures IsQuiet(m) ==> Idle() && state == After(family, namespace, old(state), a)
      ensures result.Some? ==> MayAppend(family, namespace, old(state), a)
      ensures result.Some? ==>
        result.value == Entry(a.executionId, namespace, old(state).next, a.started, a.completed, a.available.value, a.content)
    {
      result := None;
      AppendsExactly(family, namespace, state, a);
      var root := committed;
      var valid := Validate();
      if state != root || !valid || a.completed < a.started || a.seams.stagingRaises { return; }
      var staged := StagedEntry(family, namespace, root, a);
      pending := Some(staged);
      Meddle(m);
      if a.available.None? || a.available.value < a.completed || a.available.value < LastAvailable(root, a.completed) {
        pending := None;
        return;
      }
      var published := staged.(available := a.available.value);
      if family.Pinned? && exists i :: 0 <= i < |root.entries| && root.entries[i].executionId == a.executionId {
        pending := None;
        return;
      }
      if a.seams.finalChecksRaise
         || ((rechecks || family.Pinned?) && state != root)
         || (family.Pinned? && (committed != root || pending != Some(staged))) {
        pending := None;
        return;
      }
      var next := State(root.next + 1, root.entries + [published]);
      committed := next;
      state := next;
      pending := None;
      result := Some(published);
    }
  }

  // ---- Whole runs ----

  function AfterAll<C>(family: Family, namespace: string, st: State<C>, attempts: seq<Attempt<C>>): State<C>
    decreases |attempts|
  {
    if attempts == [] then st
    else AfterAll(family, namespace, After(family, namespace, st, attempts[0]), attempts[1..])
  }

  /** What was retained stays retained: a later state extends an earlier one. */
  predicate Extends<C(==)>(st: State<C>, later: State<C>) {
    st.entries <= later.entries
  }

  lemma {:induction false} AppendKeepsSound<C>(family: Family, namespace: string, st: State<C>, a: Attempt<C>)
    requires Publishes(family, namespace, st, a)
    ensures Numbered(namespace, After(family, namespace, st, a))
    ensures AvailabilityOrdered(After(family, namespace, st, a).entries)
    ensures DistinctIds(After(family, namespace, st, a).entries)
       <==> forall i :: 0 <= i < |st.entries| ==> st.entries[i].executionId != a.executionId
  {
    var n, after := |st.entries|, After(family, namespace, st, a).entries;
    assert after[n].executionId == a.executionId;
    if DistinctIds(after) {
      forall i | 0 <= i < n ensures st.entries[i].executionId != a.executionId {
        assert after[i] == st.entries[i];
      }
    }
    forall i, j | 0 <= i < j < |after| ensures after[i].available <= after[j].available {
      if j == n { assert st.entries[i].available <= st.entries[n - 1].available; }
    }
  }

  predicate NewId<C>(st: State<C>, executionId: string) {
    forall i :: 0 <= i < |st.entries| ==> st.entries[i].executionId != executionId
  }

  lemma {:induction false} AppendKeepsIds<C>(namespace: string, st: State<C>, a: Attempt<C>)
    requires Publishes(Retaining, namespace, st, a)
    ensures Sound(namespace, After(Retaining, namespace, st, a)) <==> NewId(st, a.executionId)
  {
    AppendKeepsSound(Retaining, namespace, st, a);
  }

  /** The record identity of `content` stands for no other retained content. */
  predicate NewRecord<C, R(==)>(entries: seq<Entry<C>>, key: C -> string, record: C -> R, content: C) {
    forall i :: 0 <= i < |entries| && key(entries[i].content) == key(content) ==> record(entries[i].content) == record(content)
  }

  lemma {:induction false} AppendKeepsRecords<C, R>(namespace: string, st: State<C>, a: Attempt<C>, key: C -> string, record: C -> R)
    requires Publishes(Retaining, namespace, st, a) && RecordsAgree(st.entries, key, record)
    ensures RecordsAgree(After(Retaining, namespace, st, a).entries, key, record)
      <==> NewRecord(st.entries, key, record, a.content)
  {
    var n, after := |st.entries|, After(Retaining, namespace, st, a).entries;
    assert after[n].content == a.content;
    if RecordsAgree(after, key, record) {
      forall i | 0 <= i < n && key(st.entries[i].content) == key(a.content)
        ensures record(st.entries[i].content) == record(a.content)
      {
        assert after[i] == st.entries[i];
      }
    }
  }

  /** Technical, interpretation, assessment and strategy: on every run, whatever the
      clocks read and wherever an attempt raises, the history is sound and only grows. */
  lemma {:induction false} PinnedRunStaysSound<C>(namespace: string, st: State<C>, attempts: seq<Attempt<C>>)
    requires Sound(namespace, st)
    ensures Sound(namespace, AfterAll(Pinned, namespace, st, attempts))
    ensures Extends(st, AfterAll(Pinned, namespace, st, attempts))
    decreases |attempts|
  {
    if attempts != [] {
      var a := attempts[0];
      if Publishes(Pinned, namespace, st, a) { AppendKeepsSound(Pinned, namespace, st, a); }
      PinnedRunStaysSound(namespace, After(Pinned, namespace, st, a), attempts[1..]);
    }
  }

  /** An owner that once retained a repeated execution id refuses every
      later attempt: its own validation runs first. */
  lemma {:induction false} CorruptHistoryIsFrozen<C>(family: Family, namespace: string, st: State<C>, attempts: seq<Attempt<C>>)
    requires !Sound(namespace, st)
    ensures AfterAll(family, namespace, st, attempts) == st
    decreases |attempts|
  {
    if attempts != [] { CorruptHistoryIsFrozen(family, namespace, st, attempts[1..]); }
  }

  /** All of soundness, except that the newest entry may repeat an id. */
  predicate SoundBeforeLast<C>(namespace: string, st: State<C>) {
    && Numbered(namespace, st) && AvailabilityOrdered(st.entries)
    && (st.entries != [] ==> DistinctIds(st.entries[..|st.entries| - 1]))
  }

  lemma {:induction false} StepIsSoundBeforeLast<C>(family: Family, namespace: string, st: State<C>, a: Attempt<C>)
    requires Sound(namespace, st)
    ensures SoundBeforeLast(namespace, After(family, namespace, st, a)) && Extends(st, After(family, namespace, st, a))
  {
    var mid := After(family, namespace, st, a);
    if Publishes(family, namespace, st, a) {
      AppendKeepsSound(family, namespace, st, a);
      assert mid.entries[..|mid.entries| - 1] == st.entries;
    }
  }

  /** Construction, freshness, admission, validity, qualification and bridge do not
      compare a new id with the retained ones. Their run is sound exactly when the
      retained ids are distinct; numbering and availability hold in any case, and a
      repeated id can only be the last entry ever retained. */
  lemma {:induction false} RunIsSoundIffIdsDistinct<C>(family: Family, namespace: string, st: State<C>, attempts: seq<Attempt<C>>)
    requires Sound(namespace, st) && !family.Pinned?
    ensures var end := AfterAll(family, namespace, st, attempts);
      && Extends(st, end) && SoundBeforeLast(namespace, end)
      && (Sound(namespace, end) <==> DistinctIds(end.entries))
    decreases |attempts|
  {
    if attempts != [] {
      var mid := After(family, namespace, st, attempts[0]);
      StepIsSoundBeforeLast(family, namespace, st, attempts[0]);
      if Sound(namespace, mid) {
        RunIsSoundIffIdsDistinct(family, namespace, mid, attempts[1..]);
      } else {
        CorruptHistoryIsFrozen(family, namespace, mid, attempts[1..]);
      }
    }
  }

  /** Whenever an attempt is about to publish, its id is none of those retained then. */
  predicate PublishesNewIds<C>(family: Family, namespace: string, st: State<C>, attempts: seq<Attempt<C>>)
    decreases |attempts|
  {
    attempts == [] ||
    ((Publishes(family, namespace, st, attempts[0]) ==> NewId(st, attempts[0].executionId))
     && PublishesNewIds(family, namespace, After(family, namespace, st, attempts[0]), attempts[1..]))
  }

  /** Seen from before each attempt: the run of any owner ends sound exactly when no
      attempt published an id that was retained at that moment. */
  lemma {:induction false} RunIsSoundIffIdsNew<C>(family: Family, namespace: string, st: State<C>, attempts: seq<Attempt<C>>)
    requires Sound(namespace, st)
    ensures Sound(namespace, AfterAll(family, namespace, st, attempts)) <==> PublishesNewIds(family, namespace, st, attempts)
    decreases |attempts|
  {
    if attempts != [] {
      var a := attempts[0];
      var mid := After(family, namespace, st, a);
      if Publishes(family, namespace, st, a) { AppendKeepsSound(family, namespace, st, a); }
      if Sound(namespace, mid) {
        RunIsSoundIffIdsNew(family, namespace, mid, attempts[1..]);
      } else {
        CorruptHistoryIsFrozen(family, namespace, mid, attempts[1..]);
      }
    }
  }

  /** Two attempts with one id: the owners that do not compare ids retain both, end
      unsound and refuse everything after. */
  lemma {:induction false} RepeatedIdEndsUnsound<C>(family: Family, namespace: string, a: Attempt<C>, b: Attempt<C>, later: seq<Attempt<C>>)
    requires !family.Pinned? && a.executionId == b.executionId
    requires Publishes(family, namespace, State(1, []), a)
    requires Publishes(family, namespace, After(family, namespace, State(1, []), a), b)
    ensures var end := AfterAll(family, namespace, State(1, []), [a, b] + later);
      !Sound(namespace, end) && |end.entries| == 2
  {
    var one := After(family, namespace, State(1, []), a);
    var two := After(family, namespace, one, b);
    var run := [a, b] + later;
    assert run[1..] == [b] + later && run[1..][1..] == later;
    assert AfterAll(family, namespace, State(1, []), run) == AfterAll(family, namespace, one, run[1..]);
    assert AfterAll(family, namespace, one, run[1..]) == AfterAll(family, namespace, two, later);
    assert two.entries[0].executionId == two.entries[1].executionId;
    CorruptHistoryIsFrozen(family, namespace, two, later);
  }

  /** Such attempts exist: an hour apart, published without a fault. */
  lemma {:induction false} RepeatedIdHappens(family: Family, namespace: string)
    requires !family.Pinned?
    ensures var a := Attempt("id", 0, 0, 0, Some(0), Seams(false, false));
      var b := Attempt("id", 1, 3600, 3600, Some(3600), Seams(false, false));
      !Sound(namespace, AfterAll(family, namespace, State(1, []), [a, b]))
  {
    var a := Attempt("id", 0, 0, 0, Some(0), Seams(false, false));
    var b := Attempt("id", 1, 3600, 3600, Some(3600), Seams(false, false));
    assert [a, b] + [] == [a, b];
    RepeatedIdEndsUnsound(family, namespace, a, b, []);
  }

  /** Fresh execution ids are all that the other owners need: then they behave as the
      pinned ones. */
  lemma {:induction false} FreshIdsKeepRunSound<C>(family: Family, namespace: string, st: State<C>, attempts: seq<Attempt<C>>)
    requires Sound(namespace, st)
    requires forall i, j :: 0 <= i < j < |attempts| ==> attempts[i].executionId != attempts[j].executionId
    requires forall i, k :: 0 <= i < |attempts| && 0 <= k < |st.entries| ==> attempts[i].executionId != st.entries[k].executionId
    ensures Sound(namespace, AfterAll(family, namespace, st, attempts))
    ensures AfterAll(family, namespace, st, attempts) == AfterAll(Pinned, namespace, st, attempts)
    decreases |attempts|
  {
    if attempts != [] {
      var a := attempts[0];
      var mid := After(family, namespace, st, a);
      if Publishes(family, namespace, st, a) { AppendKeepsSound(family, namespace, st, a); }
      forall i, k | 0 <= i < |attempts[1..]| && 0 <= k < |mid.entries|
        ensures attempts[1..][i].executionId != mid.entries[k].executionId
      {
        if k == |st.entries| { assert mid.entries[k].executionId == a.executionId; }
      }
      FreshIdsKeepRunSound(family, namespace, mid, attempts[1..]);
    }
  }
}
