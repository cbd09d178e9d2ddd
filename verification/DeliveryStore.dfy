/** The immutable delivery store: no-clobber publication, step by step, with an
    interruption possible between any two steps (`radar_candidate_delivery_store.py`). */
module DeliveryStore {
  import opened Basics
  import opened JsonText

  type Digest = s: string | |s| == 64 witness seq(64, _ => '0')

  datatype Record =
    | Prepared(instrument: Digest, identity: Digest, payload: int)
    | Accepted(source: Digest, payload: int)
    | Decided(source: Digest, selected: Option<Digest>, payload: int)
    | Pending(candidate: Digest, source: Digest, payload: int)

  function Filename(r: Record): string {
    match r
    case Prepared(instrument, identity, _) => "prepared-" + instrument + "-" + identity + ".json"
    case Accepted(source, _) => "accepted-" + source + ".json"
    case Decided(source, _, _) => "decision-" + source + ".json"
    case Pending(candidate, _, _) => "pending-" + candidate + ".json"
  }

  predicate IsWordChar(c: char) {
    ('A' <= c <= 'Z') || ('a' <= c <= 'z') || ('0' <= c <= '9') || c == '_' || c == '-'
  }

  /** Full match of `\.delivery-[A-Za-z0-9_-]+\.tmp`. */
  predicate IsTemporary(name: string) {
    && |name| > 14 && name[..10] == ".delivery-" && name[|name| - 4..] == ".tmp"
    && forall i :: 10 <= i < |name| - 4 ==> IsWordChar(name[i])
  }

  /** One character of a word, by its code: a letter, a digit, `_` or `-`. */
  predicate InWord(c: char) {
    var code := c as int;
    code in {45, 95} || 48 <= code < 58 || 65 <= code < 91 || 97 <= code < 123
  }

  predicate IsWord(word: string) {
    word != "" && forall i :: 0 <= i < |word| ==> InWord(word[i])
  }

  /** A temporary name is a word between the fixed ends. */
  lemma {:induction false} TemporaryExactly(name: string)
    ensures IsTemporary(name) <==> exists word :: IsWord(word) && name == ".delivery-" + word + ".tmp"
  {
    if IsTemporary(name) {
      var word := name[10..|name| - 4];
      assert IsWord(word);
      assert name == name[..10] + word + name[|name| - 4..];
    }
    if word :| IsWord(word) && name == ".delivery-" + word + ".tmp" {
      assert name[..10] == ".delivery-" && name[|name| - 4..] == ".tmp";
      forall i | 10 <= i < |name| - 4 ensures IsWordChar(name[i]) {
        assert name[i] == word[i - 10];
      }
    }
  }

  /** Same kind and same naming keys. */
  predicate SameSlot(a: Record, b: Record) {
    match (a, b)
    case (Prepared(i, s, _), Prepared(j, t, _)) => i == j && s == t
    case (Accepted(s, _), Accepted(t, _)) => s == t
    case (Decided(s, _, _), Decided(t, _, _)) => s == t
    case (Pending(c, _, _), Pending(d, _, _)) => c == d
    case _ => false
  }

  lemma {:induction false} Affixed(p: string, a: string, b: string, suffix: string)
    requires |a| == |b|
    ensures p + a + suffix == p + b + suffix <==> a == b
  {
    assert (p + a + suffix)[|p|..|p| + |a|] == a;
    assert (p + b + suffix)[|p|..|p| + |b|] == b;
  }

  lemma {:induction false} PreparedNames(i: Digest, s: Digest, j: Digest, t: Digest)
    ensures "prepared-" + i + "-" + s + ".json" == "prepared-" + j + "-" + t + ".json" <==> i == j && s == t
  {
    var x, y := i + "-" + s, j + "-" + t;
    assert "prepared-" + i + "-" + s + ".json" == "prepared-" + x + ".json";
    assert "prepared-" + j + "-" + t + ".json" == "prepared-" + y + ".json";
    Affixed("prepared-", x, y, ".json");
    assert x[..64] == i && y[..64] == j && x[65..] == s && y[65..] == t;
  }

  lemma {:induction false} NameIsNotTemporary(a: Record)
    ensures !IsTemporary(Filename(a))
  {
    assert Filename(a)[0] != '.';
    assert Filename(a)[..10][0] == Filename(a)[0];
  }

  /** A name belongs to one slot. */
  lemma {:induction false} NamesAreSlots(a: Record, b: Record)
    ensures Filename(a) == Filename(b) <==> SameSlot(a, b)
  {
    match (a, b)
    case (Prepared(i, s, _), Prepared(j, t, _)) => PreparedNames(i, s, j, t);
    case (Accepted(s, _), Accepted(t, _)) => Affixed("accepted-", s, t, ".json");
    case (Decided(s, _, _), Decided(t, _, _)) => Affixed("decision-", s, t, ".json");
    case (Pending(s, _, _), Pending(t, _, _)) => Affixed("pending-", s, t, ".json");
    case _ => DifferentHeads(a, b);
  }

  lemma {:induction false} DifferentHeads(a: Record, b: Record)
    requires a.Prepared? != b.Prepared? || a.Accepted? != b.Accepted? || a.Decided? != b.Decided?
    ensures |Filename(a)| >= 4 && |Filename(b)| >= 4 && Filename(a)[..4] != Filename(b)[..4]
  {
    assert a.Prepared? ==> Filename(a)[1] == 'r';
    assert a.Accepted? ==> Filename(a)[1] == 'c';
    assert a.Decided? ==> Filename(a)[0] == 'd';
    assert a.Pending? ==> Filename(a)[0] == 'p' && Filename(a)[1] == 'e';
    assert b.Prepared? ==> Filename(b)[1] == 'r';
    assert b.Accepted? ==> Filename(b)[1] == 'c';
    assert b.Decided? ==> Filename(b)[0] == 'd';
    assert b.Pending? ==> Filename(b)[0] == 'p' && Filename(b)[1] == 'e';
    assert Filename(a)[..4][0] == Filename(a)[0] && Filename(b)[..4][0] == Filename(b)[0];
    assert Filename(a)[..4][1] == Filename(a)[1] && Filename(b)[..4][1] == Filename(b)[1];
  }

  // ---- Directory and codec ----

  type Files = map<string, string>

  /** Canonical bytes of a record, and the strict decoder. */
  datatype Codec = Codec(encode: Record -> string, decode: string -> Option<Record>)

  ghost predicate SoundCodec(c: Codec) {
    forall r: Record :: c.decode(c.encode(r)) == Some(r)
  }

  datatype Reading = Missing | Broken | Found(record: Record)

  /** `_read`: absent, or one record stored under its own name, or a broken invariant. */
  function Read(c: Codec, files: Files, name: string): Reading {
    if name !in files then Missing
    else match c.decode(files[name])
      case None => Broken
      case Some(record) => if Filename(record) == name then Found(record) else Broken
  }

  /** What has been published: everything but temporaries. */
  function Linked(files: Files): Files {
    map name | name in files && !IsTemporary(name) :: files[name]
  }

  // ---- Publication ----

  /** Where a publication stops: an interruption leaves the directory as it is, a raised
      error still removes the temporary. */
  datatype Stop =
    | BeforeTemporary | WhileWriting(written: nat) | WriteRaises(written: nat) | BeforeLink | AfterLink
    | BeforeRemoval | Completes

  datatype Publication = Publication(record: Record, temporary: string, stop: Stop, removalFails: bool)

  datatype Outcome = Published | Conflict | InvariantBroken | WriteFailed | Interrupted

  predicate Links(stop: Stop) {
    stop.AfterLink? || stop.BeforeRemoval? || stop.Completes?
  }

  function Prefix(bytes: string, written: nat): string {
    if written < |bytes| then bytes[..written] else bytes
  }

  /** The directory afterwards. */
  function FilesAfter(c: Codec, files: Files, p: Publication): Files {
    var name, bytes := Filename(p.record), c.encode(p.record);
    if name in files then files
    else match p.stop
      case BeforeTemporary => files
      case WhileWriting(written) => files[p.temporary := Prefix(bytes, written)]
      case WriteRaises(written) => if p.removalFails then files[p.temporary := Prefix(bytes, written)] else files
      case BeforeLink => files[p.temporary := bytes]
      case AfterLink => files[p.temporary := bytes][name := bytes]
      case BeforeRemoval => files[p.temporary := bytes][name := bytes]
      case Completes => if p.removalFails then files[p.temporary := bytes][name := bytes] else files[name := bytes]
  }

  function OutcomeOf(c: Codec, files: Files, p: Publication): Outcome {
    match Read(c, files, Filename(p.record))
    case Broken => InvariantBroken
    case Found(record) => if record == p.record then Published else Conflict
    case Missing =>
      if p.stop.Completes? then Published else if p.stop.WriteRaises? then WriteFailed else Interrupted
  }

  class FileStore {
    const codec: Codec
    var files: Files

    constructor (codec: Codec, files: Files)
      ensures this.codec == codec && this.files == files
    {
      this.codec, this.files := codec, files;
    }

    /** `_publish`, with the interruption or failure given by `p.stop`. The temporary
        name is fresh, as the operating system guarantees. */
    method Publish(p: Publication) returns (outcome: Outcome)
      requires SoundCodec(codec) && IsTemporary(p.temporary) && p.temporary !in files
      modifies this`files
      ensures files == FilesAfter(codec, old(files), p) && outcome == OutcomeOf(codec, old(files), p)
    {
      NameIsNotTemporary(p.record);
      var name := Filename(p.record);
      var existing := Read(codec, files, name);
      if existing.Broken? {
        return InvariantBroken;
      }
      if existing.Found? {
        return if existing.record == p.record then Published else Conflict;
      }
      if p.stop.BeforeTemporary? {
        return Interrupted;
      }
      ghost var before := files;
      files := files[p.temporary := ""];
      if p.stop.WhileWriting? {
        files := files[p.temporary := Prefix(codec.encode(p.record), p.stop.written)];
        return Interrupted;
      }
      if p.stop.WriteRaises? {
        files := files[p.temporary := Prefix(codec.encode(p.record), p.stop.written)];
        Remove(p);
        assert !p.removalFails ==> files == before;
        return WriteFailed;
      }
      files := files[p.temporary := codec.encode(p.record)];
      if p.stop.BeforeLink? {
        return Interrupted;
      }
      if name !in files {
        files := files[name := files[p.temporary]];
      }
      if p.stop.AfterLink? {
        return Interrupted;
      }
      var published := Read(codec, files, name);
      outcome := match published
        case Missing => InvariantBroken
        case Broken => InvariantBroken
        case Found(record) => if record == p.record then Published else Conflict;
      if p.stop.BeforeRemoval? {
        return Interrupted;
      }
      Remove(p);
      assert !p.removalFails ==> files == before[name := codec.encode(p.record)];
    }

    /** Removing the temporary; a failure to do so is suppressed. */
    method Remove(p: Publication)
      modifies this`files
      ensures files == if p.removalFails then old(files) else old(files) - {p.temporary}
    {
      if !p.removalFails {
        files := files - {p.temporary};
      }
    }

    /** Every published entry, in name order, with the tables by identity; `None` when one
        entry cannot be read under its own name. */
    method ReadEntries() returns (records: Option<seq<Record>>, tables: Tables)
      ensures records == ReadAll(codec, files, SortedKeys(Linked(files).Keys))
      ensures records.Some? ==> tables == TablesOf(records.value)
    {
      var names := SortedKeys(files.Keys);
      var read: seq<Record> := [];
      tables := NO_TABLES;
      SortedWithoutTemporaries(files.Keys);
      assert Linked(files).Keys == set n | n in files.Keys && !IsTemporary(n);
      for i := 0 to |names|
        invariant ReadAll(codec, files, WithoutTemporaries(names[..i])) == Some(read)
        invariant tables == TablesOf(read)
      {
        WithoutTemporariesStep(names, i);
        if IsTemporary(names[i]) {
          assert WithoutTemporaries(names[..i]) + [] == WithoutTemporaries(names[..i]);
        } else {
          var reading := Read(codec, files, names[i]);
          if !reading.Found? {
            ReadAllStops(codec, files, names, i + 1);
            return None, tables;
          }
          ReadAllStep(codec, files, WithoutTemporaries(names[..i]), names[i]);
          TablesStep(read, reading.record);
          tables := AddToTables(tables, reading.record);
          read := read + [reading.record];
        }
      }
      assert names[..|names|] == names;
      records := Some(read);
    }

    /** The whole inventory: entries that all link to their source and acceptance. */
    method Inventory(links: LinkCheck) returns (r: Option<seq<Record>>)
      ensures r == InventoryOf(codec, links, files)
    {
      var records, tables := ReadEntries();
      if records.None? {
        return None;
      }
      var linked := CheckLinks(links, tables, records.value);
      r := if linked then records else None;
    }
  }

  method CheckLinks(links: LinkCheck, tables: Tables, records: seq<Record>) returns (ok: bool)
    ensures ok <==> AllLinked(links, tables, records)
  {
    for i := 0 to |records|
      invariant forall j :: 0 <= j < i ==> RecordLinked(links, tables, records[j])
    {
      if !RecordLinked(links, tables, records[i]) {
        return false;
      }
    }
    ok := true;
  }

  // ---- The inventory ----

  /** The structural link check between a source, its acceptance, its decision and a
      pending record. */
  type LinkCheck = (Record, Record, Option<Record>, Option<Record>) -> bool

  function ReadAll(c: Codec, files: Files, names: seq<string>): Option<seq<Record>> {
    if names == [] then Some([])
    else match ReadAll(c, files, names[..|names| - 1])
      case None => None
      case Some(records) =>
        match Read(c, files, names[|names| - 1])
        case Found(record) => Some(records + [record])
        case _ => None
  }

  function WithoutTemporaries(names: seq<string>): seq<string> {
    if names == [] then []
    else WithoutTemporaries(names[..|names| - 1])
         + (if IsTemporary(names[|names| - 1]) then [] else [names[|names| - 1]])
  }

  /** Records by identity; a later record takes the place of an earlier one. */
  datatype Tables = Tables(sources: map<Digest, Record>, accepted: map<Digest, Record>, decisions: map<Digest, Record>)

  const NO_TABLES := Tables(map[], map[], map[])

  function AddToTables(t: Tables, r: Record): Tables {
    match r
    case Prepared(_, identity, _) => t.(sources := t.sources[identity := r])
    case Accepted(source, _) => t.(accepted := t.accepted[source := r])
    case Decided(source, _, _) => t.(decisions := t.decisions[source := r])
    case Pending(_, _, _) => t
  }

  function TablesOf(records: seq<Record>): Tables {
    if records == [] then NO_TABLES
    else AddToTables(TablesOf(records[..|records| - 1]), records[|records| - 1])
  }

  /** Every record but a prepared source has its source and acceptance, and links to them. */
  predicate RecordLinked(links: LinkCheck, t: Tables, r: Record) {
    r.Prepared? ||
    (&& r.source in t.sources && r.source in t.accepted
     && links(t.sources[r.source], t.accepted[r.source],
              if r.source in t.decisions then Some(t.decisions[r.source]) else None,
              if r.Pending? then Some(r) else None))
  }

  predicate AllLinked(links: LinkCheck, t: Tables, records: seq<Record>) {
    forall i :: 0 <= i < |records| ==> RecordLinked(links, t, records[i])
  }

  function InventoryOf(c: Codec, links: LinkCheck, files: Files): Option<seq<Record>> {
    match ReadAll(c, files, SortedKeys(Linked(files).Keys))
    case None => None
    case Some(records) =>
      if AllLinked(links, TablesOf(records), records) then Some(records) else None
  }

  lemma {:induction false} WithoutTemporariesStep(names: seq<string>, i: nat)
    requires i < |names|
    ensures WithoutTemporaries(names[..i + 1])
      == WithoutTemporaries(names[..i]) + (if IsTemporary(names[i]) then [] else [names[i]])
  {
    assert names[..i + 1][..i] == names[..i];
  }

  lemma {:induction false} ReadAllStep(c: Codec, files: Files, names: seq<string>, name: string)
    ensures ReadAll(c, files, names + [name]) ==
      if ReadAll(c, files, names).Some? && Read(c, files, name).Found?
      then Some(ReadAll(c, files, names).value + [Read(c, files, name).record]) else None
  {
    assert (names + [name])[..|names|] == names;
  }

  lemma {:induction false} TablesStep(records: seq<Record>, r: Record)
    ensures TablesOf(records + [r]) == AddToTables(TablesOf(records), r)
  {
    assert (records + [r])[..|records|] == records;
  }

  /** One unreadable entry makes the whole inventory fail. */
  lemma {:induction false} ReadAllStops(c: Codec, files: Files, names: seq<string>, n: nat)
    requires 0 < n <= |names| && !IsTemporary(names[n - 1]) && !Read(c, files, names[n - 1]).Found?
    ensures ReadAll(c, files, WithoutTemporaries(names)) == None
    decreases |names|
  {
    var front, last := names[..|names| - 1], names[|names| - 1];
    var kept := WithoutTemporaries(front);
    assert kept + [] == kept;
    ReadAllStep(c, files, kept, last);
    if n < |names| {
      ReadAllStops(c, files, front, n);
    }
  }

  /** Skipping temporaries while walking the sorted directory is sorting what is published. */
  lemma {:induction false} SortedWithoutTemporaries(names: set<string>)
    ensures WithoutTemporaries(SortedKeys(names)) == SortedKeys(set n | n in names && !IsTemporary(n))
    decreases |names|
  {
    var published := set n | n in names && !IsTemporary(n);
    if names == {} {
      assert published == {};
    } else {
      var k := Least(names);
      var rest := names - {k};
      SortedWithoutTemporaries(rest);
      var publishedRest := set n | n in rest && !IsTemporary(n);
      PrependName(k, SortedKeys(rest));
      if IsTemporary(k) {
        assert published == publishedRest;
      } else {
        assert IsLeast(k, published);
        LeastIsUnique(k, Least(published), published);
        assert published - {k} == publishedRest;
      }
    }
  }

  lemma {:induction false} PrependName(k: string, names: seq<string>)
    ensures WithoutTemporaries([k] + names) == (if IsTemporary(k) then [] else [k]) + WithoutTemporaries(names)
  {
    if names == [] {
      assert [k] + names == [k] && [k][..0] == [];
    } else {
      var front, last := names[..|names| - 1], names[|names| - 1];
      PrependName(k, front);
      assert ([k] + names)[..|names|] == [k] + front && ([k] + names)[|names|] == last;
      Regroup(if IsTemporary(k) then [] else [k], WithoutTemporaries(front), if IsTemporary(last) then [] else [last]);
    }
  }

  // ---- One publication, exactly ----

  /** The keys in the names of the four kinds, place by place. */
  lemma {:induction false} NamesShowKeys(instrument: Digest, identity: Digest, payload: int, selected: Option<Digest>)
    ensures Filename(Prepared(instrument, identity, payload))[..9] == "prepared-"
    ensures Filename(Prepared(instrument, identity, payload))[9..73] == instrument
    ensures Filename(Prepared(instrument, identity, payload))[74..138] == identity
    ensures Filename(Accepted(identity, payload))[..9] == "accepted-" && Filename(Accepted(identity, payload))[9..73] == identity
    ensures Filename(Decided(identity, selected, payload))[..9] == "decision-"
    ensures Filename(Decided(identity, selected, payload))[9..73] == identity
    ensures Filename(Pending(instrument, identity, payload))[..8] == "pending-"
    ensures Filename(Pending(instrument, identity, payload))[8..72] == instrument
  {
  }

  /** A name is free, or holds its own record, or is broken. */
  lemma {:induction false} ReadsExactly(c: Codec, files: Files, name: string, r: Record)
    ensures Read(c, files, name) == Missing <==> name !in files
    ensures Read(c, files, name) == Found(r) <==> name in files && c.decode(files[name]) == Some(r) && Filename(r) == name
  {
  }

  predicate IsCut(text: string, bytes: string, written: nat) {
    text <= bytes && |text| == if written < |bytes| then written else |bytes|
  }

  /** Wherever a publication stops, a free name then holds the whole encoding or stays free;
      the temporary holds what was written, unless it was removed; nothing else changes. */
  lemma {:induction false} PublishesExactly(c: Codec, files: Files, p: Publication)
    requires IsTemporary(p.temporary) && p.temporary !in files && Filename(p.record) !in files
    ensures var name, after := Filename(p.record), FilesAfter(c, files, p);
      && (forall other :: other != name && other != p.temporary ==>
            (other in after <==> other in files) && (other in files ==> after[other] == files[other]))
      && (name in after <==> p.stop.AfterLink? || p.stop.BeforeRemoval? || p.stop.Completes?)
      && (name in after ==> after[name] == c.encode(p.record))
      && (p.temporary in after <==>
            !p.stop.BeforeTemporary? && ((p.stop.WriteRaises? || p.stop.Completes?) ==> p.removalFails))
      && (p.temporary in after ==>
            IsCut(after[p.temporary], c.encode(p.record),
              match p.stop case WhileWriting(n) => n case WriteRaises(n) => n case _ => |c.encode(p.record)|))
    ensures OutcomeOf(c, files, p) ==
      match p.stop
      case Completes => Published
      case WriteRaises(_) => WriteFailed
      case _ => Interrupted
  {
    NameIsNotTemporary(p.record);
  }

  /** Runs go publication by publication. */
  lemma {:induction false} RunsInOrder(c: Codec, files: Files, p: Publication, rest: seq<Publication>)
    ensures FilesAfterAll(c, files, []) == files
    ensures FilesAfterAll(c, files, [p] + rest) == FilesAfterAll(c, FilesAfter(c, files, p), rest)
    ensures Runnable(c, files, [p] + rest) <==>
      IsTemporary(p.temporary) && p.temporary !in files && Runnable(c, FilesAfter(c, files, p), rest)
  {
    assert ([p] + rest)[1..] == rest;
  }

  // ---- Runs of one owner ----

  /** Each publication gets a temporary name that is not in use. */
  predicate Runnable(c: Codec, files: Files, run: seq<Publication>)
    decreases |run|
  {
    run == [] ||
    (IsTemporary(run[0].temporary) && run[0].temporary !in files && Runnable(c, FilesAfter(c, files, run[0]), run[1..]))
  }

  function FilesAfterAll(c: Codec, files: Files, run: seq<Publication>): Files
    decreases |run|
  {
    if run == [] then files else FilesAfterAll(c, FilesAfter(c, files, run[0]), run[1..])
  }

  /** One publication, wherever it stops, at most links its own record. */
  lemma {:induction false} PublicationLinksOnce(c: Codec, files: Files, p: Publication)
    requires IsTemporary(p.temporary)
    ensures var name := Filename(p.record);
      Linked(FilesAfter(c, files, p)) ==
        if name !in files && Links(p.stop) then Linked(files)[name := c.encode(p.record)] else Linked(files)
  {
    NameIsNotTemporary(p.record);
  }

  /** A linked name never changes content, on any run with any interruptions; what is
      linked later holds a record of the run under its own name. */
  lemma {:induction false} LinkedNamesAreImmutable(c: Codec, files: Files, run: seq<Publication>, name: string)
    requires Runnable(c, files, run)
    ensures name in Linked(files) ==>
      name in Linked(FilesAfterAll(c, files, run)) && Linked(FilesAfterAll(c, files, run))[name] == Linked(files)[name]
    ensures name in Linked(FilesAfterAll(c, files, run)) && name !in Linked(files) ==>
      exists i :: 0 <= i < |run| && Filename(run[i].record) == name
        && Linked(FilesAfterAll(c, files, run))[name] == c.encode(run[i].record)
    decreases |run|
  {
    if run != [] {
      var next := FilesAfter(c, files, run[0]);
      PublicationLinksOnce(c, files, run[0]);
      LinkedNamesAreImmutable(c, next, run[1..], name);
      if name in Linked(FilesAfterAll(c, files, run)) && name !in Linked(files) {
        if name in Linked(next) {
          assert Filename(run[0].record) == name;
        } else {
          var i :| 0 <= i < |run[1..]| && Filename(run[1..][i].record) == name
            && Linked(FilesAfterAll(c, next, run[1..]))[name] == c.encode(run[1..][i].record);
          assert run[1..][i] == run[i + 1];
        }
      }
    }
  }

  /** Leftover temporaries and interrupted writes never affect the inventory. */
  lemma {:induction false} TemporariesAreIgnored(c: Codec, links: LinkCheck, files: Files, other: Files)
    requires Linked(files) == Linked(other)
    ensures InventoryOf(c, links, files) == InventoryOf(c, links, other)
  {
    ReadAllLinked(c, files, other, SortedKeys(Linked(files).Keys));
  }

  lemma {:induction false} ReadAllLinked(c: Codec, files: Files, other: Files, names: seq<string>)
    requires Linked(files) == Linked(other)
    requires forall n :: n in names ==> n in Linked(files)
    ensures ReadAll(c, files, names) == ReadAll(c, other, names)
  {
    if names != [] {
      var last := names[|names| - 1];
      ReadAllLinked(c, files, other, names[..|names| - 1]);
      assert last in names && files[last] == Linked(files)[last] == other[last];
    }
  }

  /** An interrupted publication can be repeated: unless an earlier, different record holds
      the name, the repetition succeeds and the record is readable for good. */
  lemma {:induction false} RepetitionRecovers(c: Codec, files: Files, p: Publication, between: seq<Publication>, again: Publication)
    requires SoundCodec(c) && Runnable(c, files, [p] + between) && again.record == p.record && again.stop.Completes?
    requires Read(c, files, Filename(p.record)).Missing?
    requires forall i :: 0 <= i < |between| ==> SameSlot(between[i].record, p.record) ==> between[i].record == p.record
    requires IsTemporary(again.temporary)
    ensures var later := FilesAfterAll(c, files, [p] + between);
      && OutcomeOf(c, later, again) == Published
      && Read(c, FilesAfter(c, later, again), Filename(p.record)) == Found(p.record)
  {
    var run := [p] + between;
    var later, name := FilesAfterAll(c, files, run), Filename(p.record);
    NameIsNotTemporary(p.record);
    LinkedNamesAreImmutable(c, files, run, name);
    if name in later {
      assert name in Linked(later) && name !in Linked(files);
      var i :| 0 <= i < |run| && Filename(run[i].record) == name && Linked(later)[name] == c.encode(run[i].record);
      NamesAreSlots(run[i].record, p.record);
      assert i == 0 || run[i] == between[i - 1];
      assert run[i].record == p.record;
    }
  }

  /** Publishing a linked record again changes nothing; a different record in the same
      slot is a conflict and changes nothing either. */
  lemma {:induction false} LinkedRecordDecides(c: Codec, files: Files, held: Record, p: Publication)
    requires SoundCodec(c) && Filename(held) in files && files[Filename(held)] == c.encode(held)
    requires SameSlot(held, p.record)
    ensures FilesAfter(c, files, p) == files
    ensures OutcomeOf(c, files, p) == if held == p.record then Published else Conflict
  {
    NamesAreSlots(held, p.record);
  }

  // ---- Resolution of a prepared source ----

  predicate HasPending(records: seq<Record>, candidate: Digest, source: Digest) {
    exists i :: 0 <= i < |records|
      && records[i].Pending? && records[i].candidate == candidate && records[i].source == source
  }

  function ReadAccepted(c: Codec, files: Files, source: Digest): Reading {
    Read(c, files, Filename(Accepted(source, 0)))
  }

  function ReadDecision(c: Codec, files: Files, source: Digest): Reading {
    Read(c, files, Filename(Decided(source, None, 0)))
  }

  /** `is_resolved`: nothing when it raises. */
  function IsResolved(c: Codec, links: LinkCheck, files: Files, source: Record): Option<bool>
    requires source.Prepared?
  {
    var inventory := InventoryOf(c, links, files);
    var durable := Read(c, files, Filename(source));
    var accepted, decision := ReadAccepted(c, files, source.identity), ReadDecision(c, files, source.identity);
    if inventory.None? || durable != Found(source) || accepted.Broken? || decision.Broken? then None
    else if accepted.Missing? || decision.Missing? then Some(false)
    else if !decision.record.Decided? then None
    else match decision.record.selected
      case None => Some(true)
      case Some(candidate) => Some(HasPending(inventory.value, candidate, source.identity))
  }

  /** The records of an inventory are the published files. */
  lemma {:induction false} RecordsAreFiles(c: Codec, files: Files, names: seq<string>, r: Record)
    requires ReadAll(c, files, names).Some?
    ensures r in ReadAll(c, files, names).value <==> Filename(r) in names && Read(c, files, Filename(r)) == Found(r)
  {
    if names != [] {
      var front, last := names[..|names| - 1], names[|names| - 1];
      RecordsAreFiles(c, files, front, r);
      assert names == front + [last];
      assert ReadAll(c, files, names).value == ReadAll(c, files, front).value + [Read(c, files, last).record];
    }
  }

  lemma {:induction false} InventoryIsFiles(c: Codec, links: LinkCheck, files: Files, r: Record)
    requires InventoryOf(c, links, files).Some?
    ensures r in InventoryOf(c, links, files).value <==> Read(c, files, Filename(r)) == Found(r)
  {
    var published := Linked(files).Keys;
    RecordsAreFiles(c, files, SortedKeys(published), r);
    NameIsNotTemporary(r);
    assert Filename(r) in SortedKeys(published) <==> Filename(r) in published;
  }

  lemma {:induction false} ReadingIsStable(c: Codec, files: Files, run: seq<Publication>, r: Record)
    requires Runnable(c, files, run) && !Read(c, files, Filename(r)).Missing?
    ensures Read(c, FilesAfterAll(c, files, run), Filename(r)) == Read(c, files, Filename(r))
  {
    NameIsNotTemporary(r);
    LinkedNamesAreImmutable(c, files, run, Filename(r));
    assert Filename(r) in Linked(files);
  }

  /** A source once resolved stays resolved, whatever is published or interrupted later,
      for as long as the inventory can be read. */
  lemma {:induction false} ResolvedForGood(c: Codec, links: LinkCheck, files: Files, run: seq<Publication>, source: Record)
    requires source.Prepared? && Runnable(c, files, run)
    requires IsResolved(c, links, files, source) == Some(true)
    requires InventoryOf(c, links, FilesAfterAll(c, files, run)).Some?
    ensures IsResolved(c, links, FilesAfterAll(c, files, run), source) == Some(true)
  {
    var later := FilesAfterAll(c, files, run);
    ReadingIsStable(c, files, run, source);
    ReadingIsStable(c, files, run, Accepted(source.identity, 0));
    ReadingIsStable(c, files, run, Decided(source.identity, None, 0));
    var decision := ReadDecision(c, files, source.identity).record;
    if decision.selected.Some? {
      var records := InventoryOf(c, links, files).value;
      var i :| 0 <= i < |records| && records[i].Pending?
        && records[i].candidate == decision.selected.value && records[i].source == source.identity;
      assert records[i] in records;
      PendingStays(c, links, files, run, records[i]);
    }
  }

  lemma {:induction false} PendingStays(c: Codec, links: LinkCheck, files: Files, run: seq<Publication>, r: Record)
    requires Runnable(c, files, run)
    requires InventoryOf(c, links, files).Some? && InventoryOf(c, links, FilesAfterAll(c, files, run)).Some?
    requires r in InventoryOf(c, links, files).value
    ensures r in InventoryOf(c, links, FilesAfterAll(c, files, run)).value
  {
    InventoryIsFiles(c, links, files, r);
    ReadingIsStable(c, files, run, r);
    InventoryIsFiles(c, links, FilesAfterAll(c, files, run), r);
  }

  /** A record is retained under its own name. */
  predicate IsRetained(c: Codec, files: Files, r: Record) {
    Filename(r) in files && c.decode(files[Filename(r)]) == Some(r)
  }

  lemma {:induction false} HasPendingExactly(c: Codec, links: LinkCheck, files: Files, candidate: Digest, source: Digest)
    requires InventoryOf(c, links, files).Some?
    ensures HasPending(InventoryOf(c, links, files).value, candidate, source)
      <==> exists payload :: IsRetained(c, files, Pending(candidate, source, payload))
  {
    var records := InventoryOf(c, links, files).value;
    if i :| 0 <= i < |records| && records[i].Pending? && records[i].candidate == candidate && records[i].source == source {
      assert records[i] in records;
      InventoryIsFiles(c, links, files, records[i]);
      assert IsRetained(c, files, Pending(candidate, source, records[i].payload));
    }
    if payload :| IsRetained(c, files, Pending(candidate, source, payload)) {
      InventoryIsFiles(c, links, files, Pending(candidate, source, payload));
      var i :| 0 <= i < |records| && records[i] == Pending(candidate, source, payload);
    }
  }

  /** A decision that selects nothing, or whose selection is pending. */
  ghost predicate Concludes(c: Codec, files: Files, source: Digest, selected: Option<Digest>) {
    match selected
    case None => true
    case Some(candidate) => exists payload :: IsRetained(c, files, Pending(candidate, source, payload))
  }

  ghost predicate IsConcluded(c: Codec, files: Files, source: Digest) {
    exists selected, payload ::
      IsRetained(c, files, Decided(source, selected, payload)) && Concludes(c, files, source, selected)
  }

  /** With a readable inventory a retained source is resolved exactly when it has been
      accepted and decided, and what the decision selected, if anything, is pending. */
  lemma {:induction false} ResolvedExactly(c: Codec, links: LinkCheck, files: Files, source: Record)
    requires source.Prepared? && InventoryOf(c, links, files).Some?
    ensures IsResolved(c, links, files, source) == Some(true) <==>
      && IsRetained(c, files, source)
      && (exists payload :: IsRetained(c, files, Accepted(source.identity, payload)))
      && IsConcluded(c, files, source.identity)
    ensures IsResolved(c, links, files, source) == None <==> !IsRetained(c, files, source)
  {
    AcceptedExactly(c, links, files, source.identity);
    ConcludedExactly(c, links, files, source.identity);
  }

  lemma {:induction false} AcceptedExactly(c: Codec, links: LinkCheck, files: Files, source: Digest)
    requires InventoryOf(c, links, files).Some?
    ensures !ReadAccepted(c, files, source).Broken?
    ensures ReadAccepted(c, files, source).Found? <==> exists payload :: IsRetained(c, files, Accepted(source, payload))
  {
    EntryIsRead(c, links, files, Accepted(source, 0));
    var accepted := ReadAccepted(c, files, source);
    if accepted.Found? { assert IsRetained(c, files, Accepted(source, accepted.record.payload)); }
  }

  lemma {:induction false} DecidedExactly(c: Codec, links: LinkCheck, files: Files, source: Digest)
    requires InventoryOf(c, links, files).Some?
    ensures !ReadDecision(c, files, source).Broken?
    ensures ReadDecision(c, files, source).Found? ==> ReadDecision(c, files, source).record.Decided?
    ensures ReadDecision(c, files, source).Found? ==> ReadDecision(c, files, source).record.source == source
  {
    EntryIsRead(c, links, files, Decided(source, None, 0));
  }

  /** The decision read, if any, is the only one retained. */
  lemma {:induction false} ConcludedExactly(c: Codec, links: LinkCheck, files: Files, source: Digest)
    requires InventoryOf(c, links, files).Some?
    ensures !ReadDecision(c, files, source).Broken?
    ensures ReadDecision(c, files, source).Found? ==> ReadDecision(c, files, source).record.Decided?
    ensures IsConcluded(c, files, source) <==>
      && ReadDecision(c, files, source).Found?
      && match ReadDecision(c, files, source).record.selected
         case None => true
         case Some(candidate) => HasPending(InventoryOf(c, links, files).value, candidate, source)
  {
    DecidedExactly(c, links, files, source);
    var decision := ReadDecision(c, files, source);
    if decision.Found? {
      assert IsRetained(c, files, Decided(source, decision.record.selected, decision.record.payload));
      if decision.record.selected.Some? { HasPendingExactly(c, links, files, decision.record.selected.value, source); }
    }
    if selected, payload :| IsRetained(c, files, Decided(source, selected, payload)) && Concludes(c, files, source, selected) {
      assert decision == Found(Decided(source, selected, payload));
    }
  }

  /** A published name of a readable inventory holds a record of its slot. */
  lemma {:induction false} EntryIsRead(c: Codec, links: LinkCheck, files: Files, r: Record)
    requires InventoryOf(c, links, files).Some?
    ensures !Read(c, files, Filename(r)).Broken?
    ensures Read(c, files, Filename(r)).Found? ==> SameSlot(Read(c, files, Filename(r)).record, r)
  {
    var published := Linked(files).Keys;
    NameIsNotTemporary(r);
    if Filename(r) in files {
      assert Filename(r) in SortedKeys(published);
      AllFound(c, files, SortedKeys(published), Filename(r));
    }
    if Read(c, files, Filename(r)).Found? { NamesAreSlots(Read(c, files, Filename(r)).record, r); }
  }

  lemma {:induction false} AllFound(c: Codec, files: Files, names: seq<string>, name: string)
    requires ReadAll(c, files, names).Some? && name in names
    ensures Read(c, files, name).Found?
  {
    if name != names[|names| - 1] { AllFound(c, files, names[..|names| - 1], name); }
  }

  // ---- Recovery ----

  predicate IsSourceOf(r: Record, instrument: Digest) {
    r.Prepared? && r.instrument == instrument
  }

  /** `is_resolved` of one store as a function of the source. */
  function Status(c: Codec, links: LinkCheck, files: Files): Record -> Option<bool> {
    (r: Record) => if r.Prepared? then IsResolved(c, links, files, r) else None
  }

  /** Among the first `n` records, the prepared sources of an instrument that are not
      resolved; nothing when one of the resolutions raises. */
  function OpenSources(status: Record -> Option<bool>, records: seq<Record>, n: nat, instrument: Digest): Option<seq<Record>>
    requires n <= |records|
  {
    if n == 0 then Some([])
    else match OpenSources(status, records, n - 1, instrument)
      case None => None
      case Some(before) =>
        if !IsSourceOf(records[n - 1], instrument) then Some(before)
        else match status(records[n - 1])
          case None => None
          case Some(resolved) => Some(if resolved then before else before + [records[n - 1]])
  }

  datatype Recovery = Raised | Ambiguous | Unresolved(sources: seq<Record>)

  /** What `unresolved` answers for an inventory. */
  function RecoveryOf(open: Option<seq<Record>>): Recovery {
    match open
    case None => Raised
    case Some(sources) => if |sources| > 1 then Ambiguous else Unresolved(sources)
  }

  function RecoveryFor(c: Codec, links: LinkCheck, files: Files, instrument: Digest): Recovery {
    match InventoryOf(c, links, files)
    case None => Raised
    case Some(records) => RecoveryOf(OpenSources(Status(c, links, files), records, |records|, instrument))
  }

  /** `unresolved`: at most one source may be left open. */
  method FindUnresolved(c: Codec, links: LinkCheck, files: Files, instrument: Digest) returns (r: Recovery)
    ensures r == RecoveryFor(c, links, files, instrument)
  {
    var inventory := InventoryOf(c, links, files);
    if inventory.None? {
      return Raised;
    }
    var records, status := inventory.value, Status(c, links, files);
    var sources: seq<Record> := [];
    for i := 0 to |records|
      invariant OpenSources(status, records, i, instrument) == Some(sources)
    {
      if IsSourceOf(records[i], instrument) {
        var resolved := status(records[i]);
        if resolved.None? {
          OpenStops(status, records, i + 1, instrument);
          return Raised;
        }
        if !resolved.value {
          sources := sources + [records[i]];
        }
      }
    }
    r := if |sources| > 1 then Ambiguous else Unresolved(sources);
  }

  lemma {:induction false} OpenStops(status: Record -> Option<bool>, records: seq<Record>, n: nat, instrument: Digest)
    requires n <= |records| && OpenSources(status, records, n, instrument).None?
    ensures OpenSources(status, records, |records|, instrument).None?
    decreases |records| - n
  {
    if n < |records| { OpenStops(status, records, n + 1, instrument); }
  }

  predicate StillOpen(status: Record -> Option<bool>, r: Record, instrument: Digest) {
    IsSourceOf(r, instrument) && status(r) == Some(false)
  }

  predicate ReportsAll(status: Record -> Option<bool>, records: seq<Record>, instrument: Digest, reported: seq<Record>) {
    forall i :: 0 <= i < |records| && StillOpen(status, records[i], instrument) ==> records[i] in reported
  }

  /** Every open source is a retained source of the instrument whose resolution says no,
      and every such source is open. */
  lemma {:induction false} OpenSourcesHold(status: Record -> Option<bool>, records: seq<Record>, n: nat, instrument: Digest)
    requires n <= |records| && OpenSources(status, records, n, instrument).Some?
    ensures forall k :: 0 <= k < |OpenSources(status, records, n, instrument).value| ==>
      StillOpen(status, OpenSources(status, records, n, instrument).value[k], instrument)
    ensures forall i :: 0 <= i < n && StillOpen(status, records[i], instrument) ==>
      records[i] in OpenSources(status, records, n, instrument).value
  {
    if n > 0 { OpenSourcesHold(status, records, n - 1, instrument); }
  }

  /** Recovery reports only sources of the instrument that are still open, and misses none. */
  lemma {:induction false} RecoveryReportsOpenSources(c: Codec, links: LinkCheck, files: Files, instrument: Digest, reported: seq<Record>)
    requires RecoveryFor(c, links, files, instrument) == Unresolved(reported)
    ensures |reported| <= 1
    ensures forall k :: 0 <= k < |reported| ==> StillOpen(Status(c, links, files), reported[k], instrument)
    ensures ReportsAll(Status(c, links, files), InventoryOf(c, links, files).value, instrument, reported)
  {
    var records := InventoryOf(c, links, files).value;
    OpenSourcesHold(Status(c, links, files), records, |records|, instrument);
  }

  predicate NoneTwice(records: seq<Record>) {
    forall i, j :: 0 <= i < j < |records| ==> records[i] != records[j]
  }

  predicate AreNamed(records: seq<Record>, names: seq<string>) {
    |records| == |names| && forall i :: 0 <= i < |names| ==> Filename(records[i]) == names[i]
  }

  lemma {:induction false} NameOneMore(records: seq<Record>, names: seq<string>, r: Record)
    requires AreNamed(records, names)
    ensures AreNamed(records + [r], names + [Filename(r)])
  {
  }

  lemma {:induction false} RecordsFollowNames(c: Codec, files: Files, names: seq<string>)
    requires ReadAll(c, files, names).Some?
    ensures AreNamed(ReadAll(c, files, names).value, names)
  {
    if names != [] {
      var front, last := names[..|names| - 1], names[|names| - 1];
      RecordsFollowNames(c, files, front);
      NameOneMore(ReadAll(c, files, front).value, front, Read(c, files, last).record);
      assert names == front + [last];
    }
  }

  lemma {:induction false} InventoryListsOnce(c: Codec, links: LinkCheck, files: Files)
    requires InventoryOf(c, links, files).Some?
    ensures NoneTwice(InventoryOf(c, links, files).value)
  {
    var names := SortedKeys(Linked(files).Keys);
    RecordsFollowNames(c, files, names);
    SortedKeysAscend(Linked(files).Keys);
  }

  lemma {:induction false} OpenListsOnce(status: Record -> Option<bool>, records: seq<Record>, n: nat, instrument: Digest)
    requires n <= |records| && NoneTwice(records) && OpenSources(status, records, n, instrument).Some?
    ensures NoneTwice(OpenSources(status, records, n, instrument).value)
    ensures forall r :: r in OpenSources(status, records, n, instrument).value ==> r in records[..n]
  {
    if n > 0 {
      OpenListsOnce(status, records, n - 1, instrument);
      assert records[..n] == records[..n - 1] + [records[n - 1]];
      assert records[n - 1] !in records[..n - 1];
    }
  }

  /** A retained source of the instrument whose resolution says no. */
  predicate IsOpen(c: Codec, links: LinkCheck, files: Files, instrument: Digest, r: Record) {
    r.Prepared? && r.instrument == instrument && IsRetained(c, files, r) && IsResolved(c, links, files, r) == Some(false)
  }

  lemma {:induction false} AllStatusesKnown(c: Codec, links: LinkCheck, files: Files, instrument: Digest)
    requires InventoryOf(c, links, files).Some?
    ensures var records := InventoryOf(c, links, files).value;
      OpenSources(Status(c, links, files), records, |records|, instrument).Some?
  {
    var records, status := InventoryOf(c, links, files).value, Status(c, links, files);
    forall i | 0 <= i < |records| && records[i].Prepared? ensures status(records[i]).Some? {
      assert records[i] in records;
      InventoryIsFiles(c, links, files, records[i]);
      ResolvedExactly(c, links, files, records[i]);
    }
    OpenIsTotal(status, records, |records|, instrument);
  }

  lemma {:induction false} OpenExactly(c: Codec, links: LinkCheck, files: Files, instrument: Digest, r: Record)
    requires InventoryOf(c, links, files).Some?
    ensures IsOpen(c, links, files, instrument, r)
      <==> r in InventoryOf(c, links, files).value && StillOpen(Status(c, links, files), r, instrument)
  {
    InventoryIsFiles(c, links, files, r);
  }

  lemma {:induction false} OpenSourcesExactly(c: Codec, links: LinkCheck, files: Files, instrument: Digest)
    requires InventoryOf(c, links, files).Some?
    ensures var records := InventoryOf(c, links, files).value;
      var open := OpenSources(Status(c, links, files), records, |records|, instrument);
      open.Some? && NoneTwice(open.value) && forall r :: r in open.value <==> IsOpen(c, links, files, instrument, r)
  {
    var records, status := InventoryOf(c, links, files).value, Status(c, links, files);
    AllStatusesKnown(c, links, files, instrument);
    OpenSourcesHold(status, records, |records|, instrument);
    InventoryListsOnce(c, links, files);
    OpenListsOnce(status, records, |records|, instrument);
    assert records[..|records|] == records;
    forall r ensures r in OpenSources(status, records, |records|, instrument).value <==> IsOpen(c, links, files, instrument, r) {
      OpenExactly(c, links, files, instrument, r);
      if r in records { var i :| 0 <= i < |records| && records[i] == r; }
    }
  }

  lemma {:induction false} OpenIsTotal(status: Record -> Option<bool>, records: seq<Record>, n: nat, instrument: Digest)
    requires n <= |records|
    requires forall i :: 0 <= i < |records| && records[i].Prepared? ==> status(records[i]).Some?
    ensures OpenSources(status, records, n, instrument).Some?
  {
    if n > 0 { OpenIsTotal(status, records, n - 1, instrument); }
  }

  lemma {:induction false} TwoListed(records: seq<Record>) returns (r: Record, q: Record)
    requires |records| > 1 && NoneTwice(records)
    ensures r in records && q in records && r != q
  {
    r, q := records[0], records[1];
  }

  lemma {:induction false} ManyListed(records: seq<Record>, r: Record, q: Record)
    requires r in records && q in records && r != q
    ensures |records| > 1
  {
    var i :| 0 <= i < |records| && records[i] == r;
  }

  /** Recovery raises exactly when the inventory cannot be read; otherwise it reports the one
      open source of the instrument, or none when there is none, and is ambiguous when there
      are two. */
  lemma {:induction false} RecoversExactly(c: Codec, links: LinkCheck, files: Files, instrument: Digest)
    ensures RecoveryFor(c, links, files, instrument) == Raised <==> InventoryOf(c, links, files) == None
    ensures InventoryOf(c, links, files).Some? ==>
      (RecoveryFor(c, links, files, instrument) == Ambiguous <==>
        exists r, q :: r != q && IsOpen(c, links, files, instrument, r) && IsOpen(c, links, files, instrument, q))
    ensures RecoveryFor(c, links, files, instrument).Unresolved? ==>
      var reported := RecoveryFor(c, links, files, instrument).sources;
      |reported| <= 1 && forall r :: r in reported <==> IsOpen(c, links, files, instrument, r)
  {
    if InventoryOf(c, links, files).Some? {
      OpenSourcesExactly(c, links, files, instrument);
      var records := InventoryOf(c, links, files).value;
      var open := OpenSources(Status(c, links, files), records, |records|, instrument).value;
      if |open| > 1 {
        var r, q := TwoListed(open);
      }
      if r, q :| r != q && IsOpen(c, links, files, instrument, r) && IsOpen(c, links, files, instrument, q) {
        ManyListed(open, r, q);
      }
    }
  }

  /** A source once resolved is never reported again, whatever is published or interrupted later. */
  lemma {:induction false} RecoveryNeverRevives(c: Codec, links: LinkCheck, files: Files, run: seq<Publication>, source: Record,
      reported: seq<Record>)
    requires source.Prepared? && Runnable(c, files, run) && IsResolved(c, links, files, source) == Some(true)
    requires RecoveryFor(c, links, FilesAfterAll(c, files, run), source.instrument) == Unresolved(reported)
    ensures source !in reported
  {
    var later := FilesAfterAll(c, files, run);
    ResolvedForGood(c, links, files, run, source);
    RecoveryReportsOpenSources(c, links, later, source.instrument, reported);
  }
}
