/** Readability of the delivery inventory over interrupted runs: publications that respect
    the order source, acceptance, decision, pending keep it readable. */
module DeliveryRuns {
  import opened Basics
  import opened JsonText
  import opened DeliveryStore

  /** The record is published under its own name. */
  predicate Retained(c: Codec, files: Files, r: Record) {
    Read(c, files, Filename(r)) == Found(r)
  }

  predicate AllReadable(c: Codec, files: Files) {
    forall name :: name in Linked(files) ==> Read(c, files, name).Found?
  }

  /** No two instruments share a recovery identity. */
  ghost predicate OneSourcePerIdentity(c: Codec, files: Files) {
    forall r, q :: Retained(c, files, r) && Retained(c, files, q) && r.Prepared? && q.Prepared? && r.identity == q.identity ==> r == q
  }

  ghost predicate IsSource(c: Codec, files: Files, r: Record, identity: Digest) {
    Retained(c, files, r) && r.Prepared? && r.identity == identity
  }

  function DecisionAt(c: Codec, files: Files, source: Digest): Option<Record> {
    match ReadDecision(c, files, source)
    case Found(record) => Some(record)
    case _ => None
  }

  ghost predicate LinksUp(c: Codec, links: LinkCheck, files: Files, r: Record, source: Record) {
    && !r.Prepared? && IsSource(c, files, source, r.source)
    && ReadAccepted(c, files, r.source).Found?
    && links(source, ReadAccepted(c, files, r.source).record, DecisionAt(c, files, r.source), if r.Pending? then Some(r) else None)
  }

  ghost predicate AllLinkUp(c: Codec, links: LinkCheck, files: Files) {
    forall r :: Retained(c, files, r) && !r.Prepared? ==> exists source :: LinksUp(c, links, files, r, source)
  }

  // ---- The inventory as a property of the directory ----

  lemma {:induction false} ReadAllIsTotal(c: Codec, files: Files, names: seq<string>)
    ensures ReadAll(c, files, names).Some? <==> forall i :: 0 <= i < |names| ==> Read(c, files, names[i]).Found?
  {
    if names != [] {
      var front := names[..|names| - 1];
      ReadAllIsTotal(c, files, front);
      assert forall i :: 0 <= i < |front| ==> front[i] == names[i];
    }
  }

  predicate Indexes(records: seq<Record>, t: Tables) {
    && (forall s :: s in t.sources ==> t.sources[s] in records && t.sources[s].Prepared? && t.sources[s].identity == s)
    && (forall s :: s in t.accepted ==> t.accepted[s] in records && t.accepted[s].Accepted? && t.accepted[s].source == s)
    && (forall s :: s in t.decisions ==> t.decisions[s] in records && t.decisions[s].Decided? && t.decisions[s].source == s)
    && (forall r :: r in records && r.Prepared? ==> r.identity in t.sources)
    && (forall r :: r in records && r.Accepted? ==> r.source in t.accepted)
    && (forall r :: r in records && r.Decided? ==> r.source in t.decisions)
  }

  lemma {:induction false} TablesIndex(records: seq<Record>)
    ensures Indexes(records, TablesOf(records))
  {
    if records != [] {
      var front, last := records[..|records| - 1], records[|records| - 1];
      TablesIndex(front);
      IndexOneMore(front, last, TablesOf(front));
      assert records == front + [last];
    }
  }

  lemma {:induction false} IndexOneMore(records: seq<Record>, r: Record, t: Tables)
    requires Indexes(records, t)
    ensures Indexes(records + [r], AddToTables(t, r))
  {
    var more := records + [r];
    assert forall q :: q in more <==> q in records || q == r;
  }

  /** The records of a readable directory are those that are retained. */
  ghost predicate ListsRetained(c: Codec, files: Files, records: seq<Record>) {
    forall r :: r in records <==> Retained(c, files, r)
  }

  lemma {:induction false} ReadableDirectoryLists(c: Codec, files: Files)
    ensures ReadAll(c, files, SortedKeys(Linked(files).Keys)).Some? <==> AllReadable(c, files)
    ensures AllReadable(c, files) ==> ListsRetained(c, files, ReadAll(c, files, SortedKeys(Linked(files).Keys)).value)
  {
    var names := SortedKeys(Linked(files).Keys);
    ReadAllIsTotal(c, files, names);
    assert forall n :: n in names <==> n in Linked(files);
    if AllReadable(c, files) {
      forall i | 0 <= i < |names| ensures Read(c, files, names[i]).Found? {
        assert names[i] in names;
      }
      forall r ensures r in ReadAll(c, files, names).value <==> Retained(c, files, r) {
        RecordsAreFiles(c, files, names, r);
        NameIsNotTemporary(r);
      }
    } else {
      var name :| name in Linked(files) && !Read(c, files, name).Found?;
      assert name in names;
    }
  }

  lemma {:induction false} TablesAgree(c: Codec, files: Files, records: seq<Record>, s: Digest)
    requires OneSourcePerIdentity(c, files) && ListsRetained(c, files, records) && AllReadable(c, files)
    ensures forall r :: IsSource(c, files, r, s) <==> s in TablesOf(records).sources && TablesOf(records).sources[s] == r
    ensures s in TablesOf(records).accepted <==> ReadAccepted(c, files, s).Found?
    ensures s in TablesOf(records).accepted ==> ReadAccepted(c, files, s) == Found(TablesOf(records).accepted[s])
    ensures DecisionAt(c, files, s) == if s in TablesOf(records).decisions then Some(TablesOf(records).decisions[s]) else None
  {
    TablesIndex(records);
    var t := TablesOf(records);
    forall r ensures IsSource(c, files, r, s) <==> s in t.sources && t.sources[s] == r {
      if s in t.sources { assert Retained(c, files, t.sources[s]); }
    }
    AcceptedIsIndexed(c, files, records, s);
    DecisionIsIndexed(c, files, records, s);
  }

  lemma {:induction false} AcceptedIsIndexed(c: Codec, files: Files, records: seq<Record>, s: Digest)
    requires ListsRetained(c, files, records) && Indexes(records, TablesOf(records))
    ensures s in TablesOf(records).accepted <==> ReadAccepted(c, files, s).Found?
    ensures s in TablesOf(records).accepted ==> ReadAccepted(c, files, s) == Found(TablesOf(records).accepted[s])
  {
    var t, found := TablesOf(records), ReadAccepted(c, files, s);
    if s in t.accepted {
      assert Retained(c, files, t.accepted[s]);
      NamesAreSlots(t.accepted[s], Accepted(s, 0));
    }
    if found.Found? {
      NamesAreSlots(found.record, Accepted(s, 0));
      assert Retained(c, files, found.record);
    }
  }

  lemma {:induction false} DecisionIsIndexed(c: Codec, files: Files, records: seq<Record>, s: Digest)
    requires ListsRetained(c, files, records) && Indexes(records, TablesOf(records))
    ensures DecisionAt(c, files, s) == if s in TablesOf(records).decisions then Some(TablesOf(records).decisions[s]) else None
  {
    var t, found := TablesOf(records), ReadDecision(c, files, s);
    if s in t.decisions {
      assert Retained(c, files, t.decisions[s]);
      NamesAreSlots(t.decisions[s], Decided(s, None, 0));
    }
    if found.Found? {
      NamesAreSlots(found.record, Decided(s, None, 0));
      assert Retained(c, files, found.record);
    }
  }

  /** The inventory can be read exactly when every published name holds its record and every
      record but a source links up. */
  lemma {:induction false} InventoryReadableExactly(c: Codec, links: LinkCheck, files: Files)
    requires OneSourcePerIdentity(c, files)
    ensures InventoryOf(c, links, files).Some? <==> AllReadable(c, files) && AllLinkUp(c, links, files)
  {
    ReadableDirectoryLists(c, files);
    if AllReadable(c, files) {
      var records := ReadAll(c, files, SortedKeys(Linked(files).Keys)).value;
      var t := TablesOf(records);
      forall r | Retained(c, files, r) && !r.Prepared?
        ensures RecordLinked(links, t, r) <==> exists source :: LinksUp(c, links, files, r, source)
      {
        TablesAgree(c, files, records, r.source);
        if RecordLinked(links, t, r) { assert LinksUp(c, links, files, r, t.sources[r.source]); }
      }
      LinkedExactly(c, links, files, records);
    }
  }

  lemma {:induction false} LinkedExactly(c: Codec, links: LinkCheck, files: Files, records: seq<Record>)
    requires ListsRetained(c, files, records)
    requires forall r :: Retained(c, files, r) && !r.Prepared? ==>
      (RecordLinked(links, TablesOf(records), r) <==> exists source :: LinksUp(c, links, files, r, source))
    ensures AllLinked(links, TablesOf(records), records) <==> AllLinkUp(c, links, files)
  {
    if AllLinked(links, TablesOf(records), records) {
      forall r | Retained(c, files, r) && !r.Prepared? ensures exists source :: LinksUp(c, links, files, r, source) {
        var i :| 0 <= i < |records| && records[i] == r;
      }
    }
    if AllLinkUp(c, links, files) {
      forall i | 0 <= i < |records| ensures RecordLinked(links, TablesOf(records), records[i]) {
        assert records[i] in records;
      }
    }
  }

  // ---- Publishing in order ----

  /** A record may be added: a source of a new identity; an acceptance that links to its
      source; a decision that links to both, before any pending; a pending that links to all. */
  ghost predicate InOrder(c: Codec, links: LinkCheck, files: Files, r: Record) {
    match r
    case Prepared(_, identity, _) => forall q :: !IsSource(c, files, q, identity)
    case Accepted(s, _) => exists source :: IsSource(c, files, source, s) && links(source, r, None, None)
    case Decided(s, _, _) =>
      && ReadAccepted(c, files, s).Found?
      && (exists source :: IsSource(c, files, source, s) && links(source, ReadAccepted(c, files, s).record, Some(r), None))
      && forall q :: Retained(c, files, q) && q.Pending? ==> q.source != s
    case Pending(_, s, _) =>
      && ReadAccepted(c, files, s).Found? && DecisionAt(c, files, s).Some?
      && exists source :: IsSource(c, files, source, s)
           && links(source, ReadAccepted(c, files, s).record, DecisionAt(c, files, s), Some(r))
  }

  /** Each publication that is about to link a new record is in order at that moment. */
  ghost predicate RunInOrder(c: Codec, links: LinkCheck, files: Files, run: seq<Publication>)
    decreases |run|
  {
    run == [] ||
    ((Filename(run[0].record) !in files && Links(run[0].stop) ==> InOrder(c, links, files, run[0].record))
     && RunInOrder(c, links, FilesAfter(c, files, run[0]), run[1..]))
  }

  ghost predicate Good(c: Codec, links: LinkCheck, files: Files) {
    OneSourcePerIdentity(c, files) && AllReadable(c, files) && AllLinkUp(c, links, files)
  }

  lemma {:induction false} ReadLinked(c: Codec, files: Files, other: Files, name: string)
    requires !IsTemporary(name)
    requires name in Linked(files) <==> name in Linked(other)
    requires name in Linked(files) ==> Linked(files)[name] == Linked(other)[name]
    ensures Read(c, files, name) == Read(c, other, name)
  {
    assert name in files <==> name in other;
  }

  /** What a directory with one more linked record retains. */
  lemma {:induction false} OneMoreRetained(c: Codec, files: Files, after: Files, r: Record)
    requires SoundCodec(c) && Filename(r) !in files && Linked(after) == Linked(files)[Filename(r) := c.encode(r)]
    ensures forall q :: Retained(c, after, q) <==> Retained(c, files, q) || q == r
    ensures forall q :: Filename(q) != Filename(r) ==> Read(c, after, Filename(q)) == Read(c, files, Filename(q))
    ensures Read(c, after, Filename(r)) == Found(r)
    ensures AllReadable(c, files) ==> AllReadable(c, after)
  {
    NameIsNotTemporary(r);
    assert after[Filename(r)] == Linked(after)[Filename(r)];
    forall q | Filename(q) != Filename(r) ensures Read(c, after, Filename(q)) == Read(c, files, Filename(q)) {
      NameIsNotTemporary(q);
      ReadLinked(c, files, after, Filename(q));
    }
    if AllReadable(c, files) {
      forall name | name in Linked(after) ensures Read(c, after, name).Found? {
        if name != Filename(r) { ReadLinked(c, files, after, name); }
      }
    }
  }

  /** Every record that linked up before still does. */
  lemma {:induction false} OthersStillLink(c: Codec, links: LinkCheck, files: Files, after: Files, r: Record, q: Record)
    requires Good(c, links, files) && InOrder(c, links, files, r)
    requires SoundCodec(c) && Filename(r) !in files && Linked(after) == Linked(files)[Filename(r) := c.encode(r)]
    requires Retained(c, files, q) && !q.Prepared?
    ensures exists source :: LinksUp(c, links, after, q, source)
  {
    OneMoreRetained(c, files, after, r);
    var source :| LinksUp(c, links, files, q, source);
    NamesAreSlots(r, Accepted(q.source, 0));
    NamesAreSlots(r, Decided(q.source, None, 0));
    assert ReadAccepted(c, after, q.source) == ReadAccepted(c, files, q.source);
    if r.Decided? && r.source == q.source {
      DecisionLinks(c, links, files, after, r, q, source);
    }
    assert LinksUp(c, links, after, q, source);
  }

  /** A decision that arrives for the source of `q`: the links were checked with it before. */
  lemma {:induction false} DecisionLinks(c: Codec, links: LinkCheck, files: Files, after: Files, r: Record, q: Record, source: Record)
    requires OneSourcePerIdentity(c, files) && InOrder(c, links, files, r) && Retained(c, files, q)
    requires r.Decided? && !q.Prepared? && r.source == q.source && LinksUp(c, links, files, q, source)
    requires Read(c, files, Filename(r)) == Missing && Read(c, after, Filename(r)) == Found(r)
    ensures !q.Pending? && DecisionAt(c, after, q.source) == Some(r)
    ensures links(source, ReadAccepted(c, files, q.source).record, Some(r), None)
  {
    var other :| IsSource(c, files, other, q.source) && links(other, ReadAccepted(c, files, q.source).record, Some(r), None);
    assert other == source;
    NamesAreSlots(r, Decided(q.source, None, 0));
    DecidedHasDecision(c, files, q);
  }

  lemma {:induction false} DecidedHasDecision(c: Codec, files: Files, q: Record)
    requires Retained(c, files, q)
    ensures q.Decided? ==> DecisionAt(c, files, q.source) == Some(q)
    ensures q.Accepted? ==> ReadAccepted(c, files, q.source) == Found(q)
  {
    if q.Decided? { NamesAreSlots(q, Decided(q.source, None, 0)); }
    if q.Accepted? { NamesAreSlots(q, Accepted(q.source, 0)); }
  }

  /** The new record links up. */
  lemma {:induction false} NewRecordLinks(c: Codec, links: LinkCheck, files: Files, after: Files, r: Record)
    requires Good(c, links, files) && InOrder(c, links, files, r) && !r.Prepared?
    requires SoundCodec(c) && Filename(r) !in files && Linked(after) == Linked(files)[Filename(r) := c.encode(r)]
    ensures exists source :: LinksUp(c, links, after, r, source)
  {
    OneMoreRetained(c, files, after, r);
    NamesAreSlots(r, Accepted(r.source, 0));
    NamesAreSlots(r, Decided(r.source, None, 0));
    DecidedHasDecision(c, after, r);
    match r
    case Accepted(s, _) =>
      var source :| IsSource(c, files, source, s) && links(source, r, None, None);
      NoDecisionBeforeAcceptance(c, links, files, r);
      assert DecisionAt(c, after, s) == DecisionAt(c, files, s);
      assert LinksUp(c, links, after, r, source);
    case Decided(s, _, _) =>
      var source :| IsSource(c, files, source, s) && links(source, ReadAccepted(c, files, s).record, Some(r), None);
      assert LinksUp(c, links, after, r, source);
    case Pending(_, s, _) =>
      var source :| IsSource(c, files, source, s)
        && links(source, ReadAccepted(c, files, s).record, DecisionAt(c, files, s), Some(r));
      assert LinksUp(c, links, after, r, source);
  }

  lemma {:induction false} NoDecisionBeforeAcceptance(c: Codec, links: LinkCheck, files: Files, r: Record)
    requires Good(c, links, files) && r.Accepted? && Filename(r) !in files
    ensures DecisionAt(c, files, r.source).None?
  {
    var decision := ReadDecision(c, files, r.source);
    NamesAreSlots(r, Accepted(r.source, 0));
    assert !ReadAccepted(c, files, r.source).Found?;
    if decision.Found? {
      NamesAreSlots(decision.record, Decided(r.source, None, 0));
    }
  }

  lemma {:induction false} StepStaysGood(c: Codec, links: LinkCheck, files: Files, p: Publication)
    requires SoundCodec(c) && IsTemporary(p.temporary) && Good(c, links, files)
    requires Filename(p.record) !in files && Links(p.stop) ==> InOrder(c, links, files, p.record)
    ensures Good(c, links, FilesAfter(c, files, p))
  {
    var after := FilesAfter(c, files, p);
    PublicationLinksOnce(c, files, p);
    if Filename(p.record) !in files && Links(p.stop) {
      OneMoreRetained(c, files, after, p.record);
      forall q | Retained(c, after, q) && !q.Prepared? ensures exists source :: LinksUp(c, links, after, q, source) {
        if q == p.record {
          NewRecordLinks(c, links, files, after, q);
        } else {
          OthersStillLink(c, links, files, after, p.record, q);
        }
      }
      NewSourceIsAlone(c, links, files, after, p.record);
    } else {
      SameLinksSameGood(c, links, files, after);
    }
  }

  lemma {:induction false} NewSourceIsAlone(c: Codec, links: LinkCheck, files: Files, after: Files, r: Record)
    requires OneSourcePerIdentity(c, files) && InOrder(c, links, files, r)
    requires forall q :: Retained(c, after, q) <==> Retained(c, files, q) || q == r
    ensures OneSourcePerIdentity(c, after)
  {
    forall x, y | Retained(c, after, x) && Retained(c, after, y) && x.Prepared? && y.Prepared? && x.identity == y.identity
      ensures x == y
    {
      assert r.Prepared? ==> !IsSource(c, files, x, r.identity) && !IsSource(c, files, y, r.identity);
    }
  }

  lemma {:induction false} SameLinksSameGood(c: Codec, links: LinkCheck, files: Files, after: Files)
    requires Good(c, links, files) && Linked(after) == Linked(files)
    ensures Good(c, links, after)
  {
    forall r: Record ensures Read(c, after, Filename(r)) == Read(c, files, Filename(r)) {
      NameIsNotTemporary(r);
      ReadLinked(c, files, after, Filename(r));
    }
    forall name | name in Linked(after) ensures Read(c, after, name).Found? {
      ReadLinked(c, files, after, name);
    }
    forall r | Retained(c, after, r) && !r.Prepared? ensures exists source :: LinksUp(c, links, after, r, source) {
      var source :| LinksUp(c, links, files, r, source);
      assert LinksUp(c, links, after, r, source);
    }
  }

  lemma {:induction false} RunStaysGood(c: Codec, links: LinkCheck, files: Files, run: seq<Publication>)
    requires SoundCodec(c) && Runnable(c, files, run) && Good(c, links, files) && RunInOrder(c, links, files, run)
    ensures Good(c, links, FilesAfterAll(c, files, run))
    decreases |run|
  {
    if run != [] {
      StepStaysGood(c, links, files, run[0]);
      RunStaysGood(c, links, FilesAfter(c, files, run[0]), run[1..]);
    }
  }

  /** A readable inventory stays readable on every run of publications in order, wherever
      they are interrupted. */
  lemma {:induction false} InventoryStaysReadable(c: Codec, links: LinkCheck, files: Files, run: seq<Publication>)
    requires SoundCodec(c) && Runnable(c, files, run) && RunInOrder(c, links, files, run)
    requires OneSourcePerIdentity(c, files) && InventoryOf(c, links, files).Some?
    ensures InventoryOf(c, links, FilesAfterAll(c, files, run)).Some?
    ensures OneSourcePerIdentity(c, FilesAfterAll(c, files, run))
  {
    InventoryReadableExactly(c, links, files);
    RunStaysGood(c, links, files, run);
    InventoryReadableExactly(c, links, FilesAfterAll(c, files, run));
  }

  // ---- Recovery over such runs ----

  lemma {:induction false} StatusIsKnown(c: Codec, links: LinkCheck, files: Files, r: Record)
    requires InventoryOf(c, links, files).Some? && OneSourcePerIdentity(c, files) && r.Prepared? && Retained(c, files, r)
    ensures IsResolved(c, links, files, r).Some?
  {
    InventoryReadableExactly(c, links, files);
    var accepted, decided := Filename(Accepted(r.identity, 0)), Filename(Decided(r.identity, None, 0));
    NameIsNotTemporary(Accepted(r.identity, 0));
    NameIsNotTemporary(Decided(r.identity, None, 0));
    assert accepted in files ==> accepted in Linked(files);
    assert decided in files ==> decided in Linked(files);
    var decision := ReadDecision(c, files, r.identity);
    if decision.Found? { NamesAreSlots(decision.record, Decided(r.identity, None, 0)); }
  }

  lemma {:induction false} OpenIsKnown(status: Record -> Option<bool>, records: seq<Record>, n: nat, instrument: Digest)
    requires n <= |records|
    requires forall i :: 0 <= i < |records| && records[i].Prepared? ==> status(records[i]).Some?
    ensures OpenSources(status, records, n, instrument).Some?
  {
    if n > 0 { OpenIsKnown(status, records, n - 1, instrument); }
  }

  /** With a readable inventory recovery never raises: it reports, or finds two sources open. */
  lemma {:induction false} RecoveryAnswers(c: Codec, links: LinkCheck, files: Files, instrument: Digest)
    requires InventoryOf(c, links, files).Some? && OneSourcePerIdentity(c, files)
    ensures !RecoveryFor(c, links, files, instrument).Raised?
  {
    var records := InventoryOf(c, links, files).value;
    forall i | 0 <= i < |records| && records[i].Prepared? ensures Status(c, links, files)(records[i]).Some? {
      assert records[i] in records;
      InventoryIsFiles(c, links, files, records[i]);
      StatusIsKnown(c, links, files, records[i]);
    }
    OpenIsKnown(Status(c, links, files), records, |records|, instrument);
  }

  /** A source once resolved stays resolved and recovery keeps answering without it, on every
      interrupted run of publications in order. */
  lemma {:induction false} ResolvedStaysResolved(c: Codec, links: LinkCheck, files: Files, run: seq<Publication>, source: Record)
    requires SoundCodec(c) && Runnable(c, files, run) && RunInOrder(c, links, files, run) && OneSourcePerIdentity(c, files)
    requires source.Prepared? && IsResolved(c, links, files, source) == Some(true)
    ensures var later := FilesAfterAll(c, files, run);
      && IsResolved(c, links, later, source) == Some(true)
      && !RecoveryFor(c, links, later, source.instrument).Raised?
      && (RecoveryFor(c, links, later, source.instrument).Unresolved? ==>
            source !in RecoveryFor(c, links, later, source.instrument).sources)
  {
    var later := FilesAfterAll(c, files, run);
    InventoryStaysReadable(c, links, files, run);
    ResolvedForGood(c, links, files, run, source);
    RecoveryAnswers(c, links, later, source.instrument);
    if RecoveryFor(c, links, later, source.instrument).Unresolved? {
      RecoveryNeverRevives(c, links, files, run, source, RecoveryFor(c, links, later, source.instrument).sources);
    }
  }
  // ---- A delivery from beginning to end ----

  const TEMPORARY := ".delivery-a.tmp"

  function Whole(r: Record): Publication {
    Publication(r, TEMPORARY, Completes, false)
  }

  /** No record of the slot is among them. */
  predicate IsNew(records: set<Record>, r: Record) {
    forall q :: q in records ==> !SameSlot(r, q)
  }

  /** The directory is in order and retains just these records. */
  ghost predicate Holds(c: Codec, links: LinkCheck, files: Files, records: set<Record>) {
    && Good(c, links, files) && IsTemporary(TEMPORARY) && TEMPORARY !in files
    && (forall q :: Retained(c, files, q) <==> q in records)
    && (forall q :: IsNew(records, q) ==> Filename(q) !in files)
  }

  lemma {:induction false} WholeLinks(c: Codec, files: Files, r: Record)
    requires IsTemporary(TEMPORARY) && TEMPORARY !in files && Filename(r) !in files
    ensures var after := FilesAfter(c, files, Whole(r));
      && TEMPORARY !in after && Linked(after) == Linked(files)[Filename(r) := c.encode(r)]
      && forall name :: name in after ==> name in files || name == Filename(r)
  {
    PublicationLinksOnce(c, files, Whole(r));
    NameIsNotTemporary(r);
  }

  /** One whole publication in order. */
  ghost predicate IsStep(c: Codec, links: LinkCheck, files: Files, r: Record, after: Files) {
    IsTemporary(TEMPORARY) && TEMPORARY !in files && InOrder(c, links, files, r) && after == FilesAfter(c, files, Whole(r))
  }

  lemma {:induction false} StepHolds(c: Codec, links: LinkCheck, files: Files, records: set<Record>, r: Record) returns (after: Files)
    requires SoundCodec(c) && Holds(c, links, files, records) && InOrder(c, links, files, r) && IsNew(records, r)
    ensures IsStep(c, links, files, r, after) && Holds(c, links, after, records + {r})
  {
    after := FilesAfter(c, files, Whole(r));
    WholeLinks(c, files, r);
    StepStaysGood(c, links, files, Whole(r));
    OneMoreRetained(c, files, after, r);
    forall q | IsNew(records + {r}, q) ensures Filename(q) !in after {
      NamesAreSlots(q, r);
      assert r in records + {r} && IsNew(records, q);
    }
  }

  lemma {:induction false} SourceStep(c: Codec, links: LinkCheck, source: Record) returns (after: Files)
    requires SoundCodec(c) && source.Prepared?
    ensures IsStep(c, links, map[], source, after) && Holds(c, links, after, {source})
  {
    after := StepHolds(c, links, map[], {}, source);
    assert {} + {source} == {source};
  }

  lemma {:induction false} AcceptanceStep(c: Codec, links: LinkCheck, files: Files, source: Record) returns (after: Files)
    requires SoundCodec(c) && source.Prepared? && AllLink(links) && Holds(c, links, files, {source})
    ensures var accepted := Accepted(source.identity, 0);
      IsStep(c, links, files, accepted, after) && Holds(c, links, after, {source} + {accepted})
  {
    var accepted := Accepted(source.identity, 0);
    assert Retained(c, files, source);
    assert IsSource(c, files, source, source.identity) && links(source, accepted, None, None);
    after := StepHolds(c, links, files, {source}, accepted);
  }

  ghost predicate AllLink(links: LinkCheck) {
    forall s, a, d, p :: links(s, a, d, p)
  }

  lemma {:induction false} DecisionStep(c: Codec, links: LinkCheck, files: Files, source: Record, candidate: Digest) returns (after: Files)
    requires SoundCodec(c) && source.Prepared? && AllLink(links)
    requires Holds(c, links, files, {source} + {Accepted(source.identity, 0)})
    ensures var accepted, decision := Accepted(source.identity, 0), Decided(source.identity, Some(candidate), 0);
      IsStep(c, links, files, decision, after) && Holds(c, links, after, {source} + {accepted} + {decision})
  {
    var accepted, decision := Accepted(source.identity, 0), Decided(source.identity, Some(candidate), 0);
    assert Retained(c, files, source) && Retained(c, files, accepted);
    assert IsSource(c, files, source, source.identity)
      && links(source, ReadAccepted(c, files, source.identity).record, Some(decision), None);
    after := StepHolds(c, links, files, {source} + {accepted}, decision);
  }

  lemma {:induction false} PendingStep(c: Codec, links: LinkCheck, files: Files, source: Record, candidate: Digest) returns (after: Files)
    requires SoundCodec(c) && source.Prepared? && AllLink(links)
    requires Holds(c, links, files, {source} + {Accepted(source.identity, 0)} + {Decided(source.identity, Some(candidate), 0)})
    ensures IsStep(c, links, files, Pending(candidate, source.identity, 0), after)
    ensures IsResolved(c, links, after, source) == Some(true)
  {
    var s, accepted, decision := source.identity, Accepted(source.identity, 0), Decided(source.identity, Some(candidate), 0);
    var pending, records := Pending(candidate, s, 0), {source} + {accepted} + {decision};
    assert Retained(c, files, source) && Retained(c, files, accepted) && Retained(c, files, decision);
    DecidedHasDecision(c, files, decision);
    assert IsSource(c, files, source, s)
      && links(source, ReadAccepted(c, files, s).record, DecisionAt(c, files, s), Some(pending));
    after := StepHolds(c, links, files, records, pending);
    AllFourResolve(c, links, after, records + {pending}, source, candidate);
  }

  lemma {:induction false} AllFourResolve(c: Codec, links: LinkCheck, files: Files, records: set<Record>, source: Record, candidate: Digest)
    requires Holds(c, links, files, records) && source.Prepared? && source in records
    requires Accepted(source.identity, 0) in records && Decided(source.identity, Some(candidate), 0) in records
    requires Pending(candidate, source.identity, 0) in records
    ensures IsResolved(c, links, files, source) == Some(true)
  {
    InventoryReadableExactly(c, links, files);
    assert Retained(c, files, source) && Retained(c, files, Accepted(source.identity, 0));
    assert Retained(c, files, Decided(source.identity, Some(candidate), 0));
    assert Retained(c, files, Pending(candidate, source.identity, 0));
    ResolvedExactly(c, links, files, source);
    assert IsRetained(c, files, source) && IsRetained(c, files, Accepted(source.identity, 0));
    assert IsRetained(c, files, Decided(source.identity, Some(candidate), 0));
    assert IsRetained(c, files, Pending(candidate, source.identity, 0));
    assert Concludes(c, files, source.identity, Some(candidate));
  }

  lemma {:induction false} FourSteps(c: Codec, links: LinkCheck, f0: Files, f1: Files, f2: Files, f3: Files, f4: Files,
      p: Record, q: Record, r: Record, s: Record)
    requires IsStep(c, links, f0, p, f1) && IsStep(c, links, f1, q, f2) && IsStep(c, links, f2, r, f3) && IsStep(c, links, f3, s, f4)
    ensures var run := [Whole(p), Whole(q), Whole(r), Whole(s)];
      Runnable(c, f0, run) && RunInOrder(c, links, f0, run) && FilesAfterAll(c, f0, run) == f4
  {
    var a, b, d, e := Whole(p), Whole(q), Whole(r), Whole(s);
    assert [a, b, d, e][1..] == [b, d, e] && [b, d, e][1..] == [d, e] && [d, e][1..] == [e] && [e][1..] == [];
    assert FilesAfterAll(c, f3, [e]) == f4;
    assert FilesAfterAll(c, f2, [d, e]) == f4;
    assert FilesAfterAll(c, f1, [b, d, e]) == f4;
    assert Runnable(c, f3, [e]) && RunInOrder(c, links, f3, [e]);
    assert Runnable(c, f2, [d, e]) && RunInOrder(c, links, f2, [d, e]);
    assert Runnable(c, f1, [b, d, e]) && RunInOrder(c, links, f1, [b, d, e]);
  }

  /** Source, acceptance, decision and pending record of one delivery may be published in
      that order into an empty directory, and then the source is resolved. */
  lemma {:induction false} DeliveryResolves(c: Codec, links: LinkCheck, source: Record, candidate: Digest) returns (run: seq<Publication>)
    requires SoundCodec(c) && source.Prepared? && AllLink(links)
    ensures run == [Whole(source), Whole(Accepted(source.identity, 0)), Whole(Decided(source.identity, Some(candidate), 0)),
                    Whole(Pending(candidate, source.identity, 0))]
    ensures Runnable(c, map[], run) && RunInOrder(c, links, map[], run)
    ensures IsResolved(c, links, FilesAfterAll(c, map[], run), source) == Some(true)
  {
    var s := source.identity;
    var f1 := SourceStep(c, links, source);
    var f2 := AcceptanceStep(c, links, f1, source);
    var f3 := DecisionStep(c, links, f2, source, candidate);
    var f4 := PendingStep(c, links, f3, source, candidate);
    run := [Whole(source), Whole(Accepted(s, 0)), Whole(Decided(s, Some(candidate), 0)), Whole(Pending(candidate, s, 0))];
    FourSteps(c, links, map[], f1, f2, f3, f4, source, Accepted(s, 0), Decided(s, Some(candidate), 0), Pending(candidate, s, 0));
  }
}
