/** Freezing and thawing of request configurations, and the inline source codec
    (`historical_replay_research.py`, `historical_replay_research_codec.py`). */
module RequestCodec {
  import opened Basics
  import opened JsonText
  import opened PassiveJson

  /** What a configuration is frozen to; the order of a mapping carries no meaning. */
  datatype Frozen =
    | FNull | FBool(b: bool) | FInt(i: int) | FFloat(text: string) | FText(s: string)
    | FTuple(items: seq<Frozen>)
    | FMapping(members: map<string, Frozen>)

  // ---- Freezing ----

  function Freeze(v: Raw): Option<Frozen>
    decreases v, 1, 0
  {
    match v
    case RNull => Some(FNull)
    case RBool(b) => Some(FBool(b))
    case RInt(i) => Some(FInt(i))
    case RFloat(f) => if f.Finite? then Some(FFloat(f.text)) else None
    case RText(s) => Some(FText(s))
    case RSequence(items, _) =>
      (match FreezeItems(v, |items|)
       case None => None
       case Some(frozen) => Some(FTuple(frozen)))
    case RMapping(entries) =>
      (match FreezeEntries(v, |entries|)
       case None => None
       case Some(members) => Some(FMapping(members)))
    case ROther(_) => None
  }

  function FreezeItems(v: Raw, n: nat): (r: Option<seq<Frozen>>)
    requires v.RSequence? && n <= |v.items|
    ensures r.Some? ==> |r.value| == n
    decreases v, 0, n
  {
    if n == 0 then Some([])
    else match FreezeItems(v, n - 1)
      case None => None
      case Some(before) =>
        match Freeze(v.items[n - 1])
        case None => None
        case Some(item) => Some(before + [item])
  }

  function FreezeEntries(v: Raw, n: nat): Option<map<string, Frozen>>
    requires v.RMapping? && n <= |v.entries|
    decreases v, 0, n
  {
    if n == 0 then Some(map[])
    else match FreezeEntries(v, n - 1)
      case None => None
      case Some(before) =>
        var entry := v.entries[n - 1];
        if !entry.key.TextKey? || Strip(entry.key.text) == "" || Strip(entry.key.text) in before then None
        else match Freeze(entry.value)
          case None => None
          case Some(item) => Some(before[Strip(entry.key.text) := item])
  }

  /** `_freeze_passive_json_value` and `_freeze_passive_json_mapping`: the loop fills a
      dictionary entry by entry. */
  method FreezeValue(v: Raw) returns (r: Option<Frozen>)
    ensures r == Freeze(v)
    decreases v
  {
    match v {
      case RNull => r := Some(FNull);
      case RBool(b) => r := Some(FBool(b));
      case RInt(i) => r := Some(FInt(i));
      case RText(s) => r := Some(FText(s));
      case ROther(_) => r := None;
      case RFloat(f) => r := if f.Finite? then Some(FFloat(f.text)) else None;
      case RSequence(items, _) =>
        var frozen: seq<Frozen> := [];
        for i := 0 to |items|
          invariant FreezeItems(v, i) == Some(frozen)
        {
          var item := FreezeValue(items[i]);
          if item.None? {
            ItemsStop(v, i + 1);
            return None;
          }
          frozen := frozen + [item.value];
        }
        r := Some(FTuple(frozen));
      case RMapping(entries) =>
        var frozen: map<string, Frozen> := map[];
        for i := 0 to |entries|
          invariant FreezeEntries(v, i) == Some(frozen)
        {
          if !entries[i].key.TextKey? || Strip(entries[i].key.text) == "" || Strip(entries[i].key.text) in frozen {
            EntriesStop(v, i + 1);
            return None;
          }
          var item := FreezeValue(entries[i].value);
          if item.None? {
            EntriesStop(v, i + 1);
            return None;
          }
          frozen := frozen[Strip(entries[i].key.text) := item.value];
        }
        r := Some(FMapping(frozen));
    }
  }

  lemma {:induction false} ItemsStop(v: Raw, n: nat)
    requires v.RSequence? && n <= |v.items| && FreezeItems(v, n).None?
    ensures FreezeItems(v, |v.items|).None?
    decreases |v.items| - n
  {
    if n < |v.items| { ItemsStop(v, n + 1); }
  }

  lemma {:induction false} EntriesStop(v: Raw, n: nat)
    requires v.RMapping? && n <= |v.entries| && FreezeEntries(v, n).None?
    ensures FreezeEntries(v, |v.entries|).None?
    decreases |v.entries| - n
  {
    if n < |v.entries| { EntriesStop(v, n + 1); }
  }

  // ---- What is accepted ----

  predicate NamedMember(e: Member) {
    e.key.TextKey? && Strip(e.key.text) != ""
  }

  /** Two entries whose keys are equal after trimming. */
  predicate KeysClash(entries: seq<Member>) {
    exists i, j :: 0 <= i < j < |entries| && NamedMember(entries[i]) && NamedMember(entries[j])
      && Strip(entries[i].key.text) == Strip(entries[j].key.text)
  }

  predicate Acceptable(v: Raw) {
    match v
    case RFloat(f) => f.Finite?
    case ROther(_) => false
    case RSequence(items, _) => forall i :: 0 <= i < |items| ==> Acceptable(items[i])
    case RMapping(entries) =>
      && !KeysClash(entries)
      && forall i :: 0 <= i < |entries| ==> NamedMember(entries[i]) && Acceptable(entries[i].value)
    case _ => true
  }

  /** Freezing succeeds exactly on acceptable values. */
  lemma {:induction false} FreezesExactly(v: Raw)
    ensures Freeze(v).Some? <==> Acceptable(v)
    decreases v, 1, 0
  {
    match v {
      case RSequence(items, _) => ItemsFreezeExactly(v, |items|);
      case RMapping(entries) =>
        EntriesFreezeExactly(v, |entries|);
        assert entries[..|entries|] == entries;
        assert Acceptable(v) <==> EntriesAcceptable(v, |entries|);
      case _ =>
    }
  }

  lemma {:induction false} ItemsFreezeExactly(v: Raw, n: nat)
    requires v.RSequence? && n <= |v.items|
    ensures FreezeItems(v, n).Some? <==> forall i :: 0 <= i < n ==> Acceptable(v.items[i])
    ensures FreezeItems(v, n).Some? ==> forall i :: 0 <= i < n ==> Freeze(v.items[i]) == Some(FreezeItems(v, n).value[i])
    decreases v, 0, n
  {
    if n > 0 {
      ItemsFreezeExactly(v, n - 1);
      FreezesExactly(v.items[n - 1]);
    }
  }

  /** The dictionary after `n` entries: one member per entry, under its trimmed key. */
  predicate Holds(v: Raw, n: nat, members: map<string, Frozen>)
    requires v.RMapping? && n <= |v.entries|
  {
    && (forall i :: 0 <= i < n ==>
          && NamedMember(v.entries[i])
          && Strip(v.entries[i].key.text) in members
          && Freeze(v.entries[i].value) == Some(members[Strip(v.entries[i].key.text)]))
    && (forall k :: k in members ==> exists i :: 0 <= i < n && NamedMember(v.entries[i]) && Strip(v.entries[i].key.text) == k)
  }

  /** The first `n` entries have names of their own and acceptable values. */
  predicate EntriesAcceptable(v: Raw, n: nat)
    requires v.RMapping? && n <= |v.entries|
  {
    !KeysClash(v.entries[..n]) && forall i :: 0 <= i < n ==> NamedMember(v.entries[i]) && Acceptable(v.entries[i].value)
  }

  lemma {:induction false} EntriesFreezeExactly(v: Raw, n: nat)
    requires v.RMapping? && n <= |v.entries|
    ensures FreezeEntries(v, n).Some? <==> EntriesAcceptable(v, n)
    ensures FreezeEntries(v, n).Some? ==> Holds(v, n, FreezeEntries(v, n).value)
    decreases v, 0, n
  {
    if n > 0 {
      EntriesFreezeExactly(v, n - 1);
      FreezesExactly(v.entries[n - 1].value);
      OneMoreEntry(v, n);
    }
  }

  lemma {:induction false} OneMoreEntry(v: Raw, n: nat)
    requires v.RMapping? && 0 < n <= |v.entries|
    requires FreezeEntries(v, n - 1).Some? <==> EntriesAcceptable(v, n - 1)
    requires FreezeEntries(v, n - 1).Some? ==> Holds(v, n - 1, FreezeEntries(v, n - 1).value)
    requires Freeze(v.entries[n - 1].value).Some? <==> Acceptable(v.entries[n - 1].value)
    ensures FreezeEntries(v, n).Some? <==> EntriesAcceptable(v, n)
    ensures FreezeEntries(v, n).Some? ==> Holds(v, n, FreezeEntries(v, n).value)
  {
    AcceptableStep(v, n);
    if FreezeEntries(v, n - 1).Some? && NamedMember(v.entries[n - 1]) {
      HoldsStep(v, n, FreezeEntries(v, n - 1).value);
    }
  }

  lemma {:induction false} AcceptableStep(v: Raw, n: nat)
    requires v.RMapping? && 0 < n <= |v.entries|
    ensures EntriesAcceptable(v, n) <==>
      EntriesAcceptable(v, n - 1) && NamedMember(v.entries[n - 1]) && Acceptable(v.entries[n - 1].value)
      && !RepeatsKey(v.entries, n - 1)
  {
    ClashStep(v.entries, n);
  }

  /** The last of `n` entries clashes, or an earlier pair does. */
  lemma {:induction false} ClashStep(entries: seq<Member>, n: nat)
    requires 0 < n <= |entries|
    ensures KeysClash(entries[..n]) <==> KeysClash(entries[..n - 1]) || RepeatsKey(entries, n - 1)
  {
    var all, front := entries[..n], entries[..n - 1];
    assert forall i :: 0 <= i < n - 1 ==> all[i] == front[i] == entries[i];
    assert all[n - 1] == entries[n - 1];
  }

  predicate RepeatsKey(entries: seq<Member>, n: nat)
    requires n < |entries|
  {
    NamedMember(entries[n])
    && exists i :: 0 <= i < n && NamedMember(entries[i]) && Strip(entries[i].key.text) == Strip(entries[n].key.text)
  }

  lemma {:induction false} HoldsStep(v: Raw, n: nat, before: map<string, Frozen>)
    requires v.RMapping? && 0 < n <= |v.entries| && Holds(v, n - 1, before) && NamedMember(v.entries[n - 1])
    ensures Strip(v.entries[n - 1].key.text) in before <==> RepeatsKey(v.entries, n - 1)
    ensures Freeze(v.entries[n - 1].value).Some? && !RepeatsKey(v.entries, n - 1) ==>
      Holds(v, n, before[Strip(v.entries[n - 1].key.text) := Freeze(v.entries[n - 1].value).value])
  {
    var key := Strip(v.entries[n - 1].key.text);
    if Freeze(v.entries[n - 1].value).Some? && key !in before {
      var after := before[key := Freeze(v.entries[n - 1].value).value];
      forall k | k in after
        ensures exists i :: 0 <= i < n && NamedMember(v.entries[i]) && Strip(v.entries[i].key.text) == k
      {
        if k == key {
          assert Strip(v.entries[n - 1].key.text) == k;
        } else {
          var i :| 0 <= i < n - 1 && NamedMember(v.entries[i]) && Strip(v.entries[i].key.text) == k;
        }
      }
    }
  }

  // ---- Any depth ----

  /** The value at a path of positions, mappings counted by entry. */
  function At(v: Raw, path: seq<nat>): Option<Raw>
    decreases |path|
  {
    if path == [] then Some(v)
    else if v.RSequence? && path[0] < |v.items| then At(v.items[path[0]], path[1..])
    else if v.RMapping? && path[0] < |v.entries| then At(v.entries[path[0]].value, path[1..])
    else None
  }

  /** Two keys equal after trimming are rejected however deep the mapping lies. */
  lemma {:induction false} ClashIsRejectedAtAnyDepth(v: Raw, path: seq<nat>, entries: seq<Member>)
    requires At(v, path) == Some(RMapping(entries)) && KeysClash(entries)
    ensures Freeze(v).None?
  {
    FreezesExactly(v);
    if Acceptable(v) { AcceptableAt(v, path); }
  }

  lemma {:induction false} AcceptableAt(v: Raw, path: seq<nat>)
    requires Acceptable(v) && At(v, path).Some?
    ensures Acceptable(At(v, path).value)
    decreases |path|
  {
    if path != [] {
      if v.RSequence? { AcceptableAt(v.items[path[0]], path[1..]); } else { AcceptableAt(v.entries[path[0]].value, path[1..]); }
    }
  }

  // ---- Thawing ----

  /** `_json_value`: lists for tuples, mappings with sorted keys. */
  function Thaw(f: Frozen): Raw
    decreases f, 1, 0
  {
    match f
    case FNull => RNull
    case FBool(b) => RBool(b)
    case FInt(i) => RInt(i)
    case FFloat(text) => RFloat(Finite(text))
    case FText(s) => RText(s)
    case FTuple(items) => RSequence(ThawItems(f, |items|), false)
    case FMapping(members) => RMapping(ThawMembers(f, SortedKeys(members.Keys)))
  }

  function ThawItems(f: Frozen, n: nat): (items: seq<Raw>)
    requires f.FTuple? && n <= |f.items|
    ensures |items| == n && forall i :: 0 <= i < n ==> items[i] == Thaw(f.items[i])
    decreases f, 0, n
  {
    if n == 0 then [] else ThawItems(f, n - 1) + [Thaw(f.items[n - 1])]
  }

  function ThawMembers(f: Frozen, keys: seq<string>): (entries: seq<Member>)
    requires f.FMapping? && forall k :: k in keys ==> k in f.members
    ensures |entries| == |keys|
    ensures forall i :: 0 <= i < |keys| ==> entries[i] == Member(TextKey(keys[i]), Thaw(f.members[keys[i]]))
    decreases f, 0, |keys|
  {
    if keys == [] then []
    else
      var last := keys[|keys| - 1];
      ThawMembers(f, keys[..|keys| - 1]) + [Member(TextKey(last), Thaw(f.members[last]))]
  }

  /** `r` shows `f`: lists or tuples for tuples, mappings in any order of their keys. */
  predicate Presents(r: Raw, f: Frozen) {
    match f
    case FNull => r == RNull
    case FBool(b) => r == RBool(b)
    case FInt(i) => r == RInt(i)
    case FFloat(text) => r == RFloat(Finite(text))
    case FText(s) => r == RText(s)
    case FTuple(items) =>
      r.RSequence? && |r.items| == |items| && forall i :: 0 <= i < |items| ==> Presents(r.items[i], items[i])
    case FMapping(members) =>
      && r.RMapping? && DistinctKeys(r.entries)
      && (forall i :: 0 <= i < |r.entries| ==>
            && r.entries[i].key.TextKey? && r.entries[i].key.text in members
            && Presents(r.entries[i].value, members[r.entries[i].key.text]))
      && forall k :: k in members ==> exists i :: 0 <= i < |r.entries| && r.entries[i].key == TextKey(k)
  }

  /** Every key at every depth is trimmed and not empty. */
  predicate Normal(f: Frozen) {
    match f
    case FTuple(items) => forall i :: 0 <= i < |items| ==> Normal(items[i])
    case FMapping(members) => forall k :: k in members ==> k != "" && Strip(k) == k && Normal(members[k])
    case _ => true
  }

  lemma {:induction false} FrozenIsNormal(v: Raw)
    requires Freeze(v).Some?
    ensures Normal(Freeze(v).value)
    decreases v
  {
    match v {
      case RSequence(items, _) =>
        ItemsFreezeExactly(v, |items|);
        forall i | 0 <= i < |items| ensures Normal(Freeze(v).value.items[i]) { FrozenIsNormal(items[i]); }
      case RMapping(entries) =>
        EntriesFreezeExactly(v, |entries|);
        var members := Freeze(v).value.members;
        forall k | k in members ensures k != "" && Strip(k) == k && Normal(members[k]) {
          var i :| 0 <= i < |entries| && NamedMember(entries[i]) && Strip(entries[i].key.text) == k;
          StripIsIdempotent(entries[i].key.text);
          FrozenIsNormal(entries[i].value);
        }
      case _ =>
    }
  }

  /** Freezing any presentation of a normal frozen value gives that value. */
  lemma {:induction false} FreezePresentation(r: Raw, f: Frozen)
    requires Presents(r, f) && Normal(f)
    ensures Freeze(r) == Some(f)
    decreases f
  {
    match f {
      case FTuple(items) =>
        forall i | 0 <= i < |items| ensures Freeze(r.items[i]) == Some(items[i]) && Acceptable(r.items[i]) {
          FreezePresentation(r.items[i], items[i]);
          FreezesExactly(r.items[i]);
        }
        ItemsFreezeExactly(r, |items|);
        assert FreezeItems(r, |items|).value == items;
      case FMapping(members) =>
        forall i | 0 <= i < |r.entries|
          ensures NamedMember(r.entries[i]) && Acceptable(r.entries[i].value)
          ensures Strip(r.entries[i].key.text) == r.entries[i].key.text
          ensures Freeze(r.entries[i].value) == Some(members[r.entries[i].key.text])
        {
          FreezePresentation(r.entries[i].value, members[r.entries[i].key.text]);
          FreezesExactly(r.entries[i].value);
        }
        PresentedMembers(r, members);
      case _ =>
    }
  }

  lemma {:induction false} PresentedMembers(r: Raw, members: map<string, Frozen>)
    requires r.RMapping? && DistinctKeys(r.entries)
    requires forall i :: 0 <= i < |r.entries| ==>
      && NamedMember(r.entries[i]) && Acceptable(r.entries[i].value)
      && Strip(r.entries[i].key.text) == r.entries[i].key.text && r.entries[i].key.text in members
      && Freeze(r.entries[i].value) == Some(members[r.entries[i].key.text])
    requires forall k :: k in members ==> exists i :: 0 <= i < |r.entries| && r.entries[i].key == TextKey(k)
    ensures FreezeEntries(r, |r.entries|) == Some(members)
  {
    var entries := r.entries;
    assert entries[..|entries|] == entries;
    EntriesFreezeExactly(r, |entries|);
    var frozen := FreezeEntries(r, |entries|).value;
    forall k | k in members ensures k in frozen && frozen[k] == members[k] {
      var i :| 0 <= i < |entries| && entries[i].key == TextKey(k);
      assert Strip(entries[i].key.text) == k;
    }
    forall k | k in frozen ensures k in members {
      var i :| 0 <= i < |entries| && NamedMember(entries[i]) && Strip(entries[i].key.text) == k;
    }
    assert frozen == members;
  }

  lemma {:induction false} ThawPresents(f: Frozen)
    ensures Presents(Thaw(f), f)
    decreases f
  {
    match f {
      case FTuple(items) =>
        forall i | 0 <= i < |items| ensures Presents(Thaw(f).items[i], items[i]) { ThawPresents(items[i]); }
      case FMapping(members) =>
        forall k | k in members ensures Presents(Thaw(members[k]), members[k]) { ThawPresents(members[k]); }
        ThawedMembersPresent(f);
      case _ =>
    }
  }

  lemma {:induction false} ThawedMembersPresent(f: Frozen)
    requires f.FMapping? && forall k :: k in f.members ==> Presents(Thaw(f.members[k]), f.members[k])
    ensures Presents(Thaw(f), f)
  {
    var keys, entries := SortedKeys(f.members.Keys), Thaw(f).entries;
    ThawedKeysAreMembers(f);
    forall i | 0 <= i < |entries|
      ensures entries[i].key.TextKey? && entries[i].key.text in f.members
      ensures Presents(entries[i].value, f.members[entries[i].key.text])
    {
      assert keys[i] in f.members && entries[i] == Member(TextKey(keys[i]), Thaw(f.members[keys[i]]));
    }
    assert DistinctKeys(entries);
  }

  lemma {:induction false} ThawedKeysAreMembers(f: Frozen)
    requires f.FMapping?
    ensures var keys, entries := SortedKeys(f.members.Keys), Thaw(f).entries;
      && |entries| == |keys| && (forall i :: 0 <= i < |keys| ==> keys[i] in f.members && entries[i].key == TextKey(keys[i]))
      && (forall i, j :: 0 <= i < j < |keys| ==> keys[i] != keys[j])
      && (forall k :: k in f.members ==> exists i :: 0 <= i < |entries| && entries[i].key == TextKey(k))
  {
    var keys, entries := SortedKeys(f.members.Keys), Thaw(f).entries;
    SortedKeysAscend(f.members.Keys);
    forall i | 0 <= i < |keys| ensures keys[i] in f.members { assert keys[i] in keys; }
    forall k | k in f.members ensures exists i :: 0 <= i < |entries| && entries[i].key == TextKey(k) {
      assert k in keys;
      var i :| 0 <= i < |keys| && keys[i] == k;
      assert entries[i].key == TextKey(k);
    }
  }

  /** Freezing what was frozen, shown again in any order, changes nothing. */
  lemma {:induction false} FreezeIsIdempotent(v: Raw, again: Raw)
    requires Freeze(v).Some? && Presents(again, Freeze(v).value)
    ensures Freeze(again) == Freeze(v)
  {
    FrozenIsNormal(v);
    FreezePresentation(again, Freeze(v).value);
  }

  /** Freeze after thaw is the identity on frozen configurations of any depth. */
  lemma {:induction false} FreezeUndoesThaw(v: Raw)
    requires Freeze(v).Some?
    ensures Freeze(Thaw(Freeze(v).value)) == Freeze(v)
  {
    ThawPresents(Freeze(v).value);
    FreezeIsIdempotent(v, Thaw(Freeze(v).value));
  }

  // ---- The inline source ----

  datatype Number = IntNumber(i: int) | FloatNumber(text: string)

  datatype Row = Row(timestamp: Instant, open: Number, high: Number, low: Number, close: Number, volume: Number)

  datatype Source = Source(symbol: string, interval: string, provider: string, rows: seq<Row>)

  /** Foreign text functions: UTC timestamps in ISO 8601 text, and upper case, which is
      idempotent and leaves trimmed text trimmed. */
  datatype Texts = Texts(write: Instant -> string, read: string -> Option<Instant>, upper: string -> string)

  ghost predicate SoundTexts(t: Texts) {
    SoundStamps(t)
    && (forall s :: t.upper(t.upper(s)) == t.upper(s))
    && (forall s :: s != "" && Strip(s) == s ==> t.upper(s) != "" && Strip(t.upper(s)) == t.upper(s))
  }

  ghost predicate SoundStamps(t: Texts) {
    forall i :: t.read(t.write(i)) == Some(i)
  }

  function EncodeNumber(n: Number): Raw {
    match n
    case IntNumber(i) => RInt(i)
    case FloatNumber(text) => RFloat(Finite(text))
  }

  function EncodeRow(t: Texts, row: Row): Raw {
    RMapping([
      Member(TextKey("timestamp"), RText(t.write(row.timestamp))),
      Member(TextKey("open"), EncodeNumber(row.open)), Member(TextKey("high"), EncodeNumber(row.high)),
      Member(TextKey("low"), EncodeNumber(row.low)), Member(TextKey("close"), EncodeNumber(row.close)),
      Member(TextKey("volume"), EncodeNumber(row.volume))])
  }

  function EncodeRows(t: Texts, rows: seq<Row>): (items: seq<Raw>)
    ensures |items| == |rows| && forall i :: 0 <= i < |rows| ==> items[i] == EncodeRow(t, rows[i])
  {
    seq(|rows|, i requires 0 <= i < |rows| => EncodeRow(t, rows[i]))
  }

  function EncodeSource(t: Texts, source: Source): Raw {
    RMapping([
      Member(TextKey("symbol"), RText(source.symbol)), Member(TextKey("interval"), RText(source.interval)),
      Member(TextKey("provider"), RText(source.provider)),
      Member(TextKey("rows"), RSequence(EncodeRows(t, source.rows), false))])
  }

  function Lookup(entries: seq<Member>, key: string): Option<Raw> {
    if entries == [] then None
    else if entries[0].key == TextKey(key) then Some(entries[0].value)
    else Lookup(entries[1..], key)
  }

  lemma {:induction false} LookupAt(entries: seq<Member>, k: nat, key: string)
    requires k < |entries| && entries[k].key == TextKey(key)
    requires forall j :: 0 <= j < k ==> entries[j].key != TextKey(key)
    ensures Lookup(entries, key) == Some(entries[k].value)
  {
    if k > 0 { LookupAt(entries[1..], k - 1, key); }
  }

  /** `_object`: a mapping with exactly these text keys. */
  predicate IsObject(v: Raw, keys: set<string>) {
    && v.RMapping?
    && (forall i :: 0 <= i < |v.entries| ==> v.entries[i].key.TextKey? && v.entries[i].key.text in keys)
    && forall k :: k in keys ==> Lookup(v.entries, k).Some?
  }

  function DecodeNumber(v: Raw): Option<Number> {
    match v
    case RInt(i) => Some(IntNumber(i))
    case RFloat(f) => if f.Finite? then Some(FloatNumber(f.text)) else None
    case _ => None
  }

  const ROW_KEYS: set<string> := {"timestamp", "open", "high", "low", "close", "volume"}
  const SOURCE_KEYS: set<string> := {"symbol", "interval", "provider", "rows"}

  function DecodeRow(t: Texts, v: Raw): Option<Row> {
    if !IsObject(v, ROW_KEYS) then None
    else
      var stamp := Lookup(v.entries, "timestamp").value;
      var open, high := DecodeNumber(Lookup(v.entries, "open").value), DecodeNumber(Lookup(v.entries, "high").value);
      var low, close := DecodeNumber(Lookup(v.entries, "low").value), DecodeNumber(Lookup(v.entries, "close").value);
      var volume := DecodeNumber(Lookup(v.entries, "volume").value);
      if !stamp.RText? || t.read(stamp.s).None? then None
      else if open.None? || high.None? || low.None? || close.None? || volume.None? then None
      else Some(Row(t.read(stamp.s).value, open.value, high.value, low.value, close.value, volume.value))
  }

  function DecodeRows(t: Texts, items: seq<Raw>): (rows: Option<seq<Row>>)
    ensures rows.Some? <==> forall i :: 0 <= i < |items| ==> DecodeRow(t, items[i]).Some?
    ensures rows.Some? ==> |rows.value| == |items|
    ensures rows.Some? ==> forall i :: 0 <= i < |items| ==> DecodeRow(t, items[i]) == Some(rows.value[i])
  {
    if items == [] then Some([])
    else
      var n := |items| - 1;
      match DecodeRows(t, items[..n])
      case None => None
      case Some(before) =>
        match DecodeRow(t, items[n])
        case None => None
        case Some(row) => Some(before + [row])
  }

  predicate RowsAscend(rows: seq<Row>) {
    forall i, j :: 0 <= i < j < |rows| ==> rows[i].timestamp < rows[j].timestamp
  }

  /** The check of neighbouring rows. */
  method RowsIncrease(rows: seq<Row>) returns (ok: bool)
    ensures ok <==> RowsAscend(rows)
  {
    var index := 1;
    while index < |rows|
      invariant 1 <= index
      invariant forall i, j :: 0 <= i < j < index && j < |rows| ==> rows[i].timestamp < rows[j].timestamp
    {
      if rows[index].timestamp <= rows[index - 1].timestamp {
        return false;
      }
      index := index + 1;
    }
    ok := true;
  }

  /** The checks and normalization of the source's own constructor. */
  function MakeSource(t: Texts, symbol: string, interval: string, provider: string, rows: seq<Row>): Option<Source> {
    if Strip(symbol) == "" || Strip(interval) == "" || Strip(provider) == "" || rows == [] || !RowsAscend(rows)
    then None
    else Some(Source(t.upper(Strip(symbol)), Strip(interval), Strip(provider), rows))
  }

  function DecodeSource(t: Texts, v: Raw): Option<Source> {
    if !IsObject(v, SOURCE_KEYS) then None
    else
      var symbol, interval := Lookup(v.entries, "symbol").value, Lookup(v.entries, "interval").value;
      var provider, rows := Lookup(v.entries, "provider").value, Lookup(v.entries, "rows").value;
      if !symbol.RText? || !interval.RText? || !provider.RText? || !rows.RSequence? || rows.isTuple then None
      else match DecodeRows(t, rows.items)
        case None => None
        case Some(decoded) => MakeSource(t, symbol.s, interval.s, provider.s, decoded)
  }

  /** A source as its constructor leaves it. */
  predicate Normalized(t: Texts, s: Source) {
    && s.symbol != "" && Strip(s.symbol) == s.symbol && t.upper(s.symbol) == s.symbol
    && s.interval != "" && Strip(s.interval) == s.interval
    && s.provider != "" && Strip(s.provider) == s.provider
  }

  lemma {:induction false} DecodeEncodedRow(t: Texts, row: Row)
    requires SoundStamps(t)
    ensures DecodeRow(t, EncodeRow(t, row)) == Some(row)
  {
    var e := EncodeRow(t, row).entries;
    RowLookups(t, row);
    RowFields(t, row);
  }

  lemma {:induction false} RowLookups(t: Texts, row: Row)
    ensures var e := EncodeRow(t, row).entries;
      && Lookup(e, "timestamp") == Some(e[0].value) && Lookup(e, "open") == Some(e[1].value)
      && Lookup(e, "high") == Some(e[2].value) && Lookup(e, "low") == Some(e[3].value)
      && Lookup(e, "close") == Some(e[4].value) && Lookup(e, "volume") == Some(e[5].value)
  {
    var e := EncodeRow(t, row).entries;
    LookupAt(e, 0, "timestamp");
    LookupAt(e, 1, "open");
    LookupAt(e, 2, "high");
    LookupAt(e, 3, "low");
    LookupAt(e, 4, "close");
    LookupAt(e, 5, "volume");
  }

  lemma {:induction false} RowFields(t: Texts, row: Row)
    ensures IsObject(EncodeRow(t, row), ROW_KEYS)
  {
    RowLookups(t, row);
  }

  /** Decoding an encoded inline source succeeds exactly when its rows are there and
      strictly increasing, and then gives the same source. */
  lemma {:induction false} DecodeEncodedSource(t: Texts, s: Source)
    requires SoundStamps(t) && Normalized(t, s)
    ensures DecodeSource(t, EncodeSource(t, s)) == if s.rows != [] && RowsAscend(s.rows) then Some(s) else None
  {
    SourceFields(t, s);
    RowsDecode(t, s.rows);
  }

  lemma {:induction false} SourceFields(t: Texts, s: Source)
    ensures IsObject(EncodeSource(t, s), SOURCE_KEYS)
    ensures var e := EncodeSource(t, s).entries;
      && Lookup(e, "symbol") == Some(RText(s.symbol)) && Lookup(e, "interval") == Some(RText(s.interval))
      && Lookup(e, "provider") == Some(RText(s.provider))
      && Lookup(e, "rows") == Some(RSequence(EncodeRows(t, s.rows), false))
  {
    var e := EncodeSource(t, s).entries;
    LookupAt(e, 0, "symbol");
    LookupAt(e, 1, "interval");
    LookupAt(e, 2, "provider");
    LookupAt(e, 3, "rows");
  }

  lemma {:induction false} RowsDecode(t: Texts, rows: seq<Row>)
    requires SoundStamps(t)
    ensures DecodeRows(t, EncodeRows(t, rows)) == Some(rows)
  {
    var items := EncodeRows(t, rows);
    forall i | 0 <= i < |items| ensures DecodeRow(t, items[i]) == Some(rows[i]) {
      DecodeEncodedRow(t, rows[i]);
    }
    assert DecodeRows(t, items).value == rows;
  }

  /** Whatever is decoded is normalized, has strictly increasing rows, and survives another
      round through its encoding. */
  lemma {:induction false} DecodingIsStable(t: Texts, v: Raw)
    requires SoundTexts(t) && DecodeSource(t, v).Some?
    ensures var s := DecodeSource(t, v).value;
      Normalized(t, s) && s.rows != [] && RowsAscend(s.rows) && DecodeSource(t, EncodeSource(t, s)) == Some(s)
  {
    var s := DecodeSource(t, v).value;
    StripIsIdempotent(Lookup(v.entries, "symbol").value.s);
    StripIsIdempotent(Lookup(v.entries, "interval").value.s);
    StripIsIdempotent(Lookup(v.entries, "provider").value.s);
    DecodeEncodedSource(t, s);
  }
}
