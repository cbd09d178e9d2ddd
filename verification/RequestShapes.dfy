/** What frozen configurations, encoded rows and encoded sources look like, key by key, and
    exactly what is decoded from them. */
module RequestShapes {
  import opened Basics
  import opened JsonText
  import opened PassiveJson
  import opened RequestCodec

  // ---- Frozen configurations ----

  /** `f` is `v` frozen: the same scalars, finite floats by their text, tuples for sequences,
      and values under trimmed keys, none blank and no two equal. */
  predicate IsFrozen(v: Raw, f: Frozen) {
    match v
    case RNull => f == FNull
    case RBool(b) => f == FBool(b)
    case RInt(i) => f == FInt(i)
    case RFloat(x) => x.Finite? && f == FFloat(x.text)
    case RText(s) => f == FText(s)
    case RSequence(items, _) =>
      f.FTuple? && |f.items| == |items| && forall i :: 0 <= i < |items| ==> IsFrozen(items[i], f.items[i])
    case RMapping(entries) =>
      && f.FMapping? && TrimmedKeysDiffer(entries)
      && (forall i :: 0 <= i < |entries| ==>
            && entries[i].key.TextKey? && Strip(entries[i].key.text) != "" && Strip(entries[i].key.text) in f.members
            && IsFrozen(entries[i].value, f.members[Strip(entries[i].key.text)]))
      && forall k :: k in f.members ==> exists i :: 0 <= i < |entries| && entries[i].key.TextKey? && Strip(entries[i].key.text) == k
    case ROther(_) => false
  }

  predicate TrimmedKeysDiffer(entries: seq<Member>) {
    forall i, j :: 0 <= i < j < |entries| && entries[i].key.TextKey? && entries[j].key.TextKey? ==>
      Strip(entries[i].key.text) != Strip(entries[j].key.text)
  }

  lemma {:induction false} FreezeIsFrozen(v: Raw)
    requires Freeze(v).Some?
    ensures IsFrozen(v, Freeze(v).value)
    decreases v
  {
    match v {
      case RSequence(items, _) =>
        ItemsFreezeExactly(v, |items|);
        forall i | 0 <= i < |items| ensures IsFrozen(items[i], Freeze(v).value.items[i]) { FreezeIsFrozen(items[i]); }
      case RMapping(entries) =>
        EntriesFreezeExactly(v, |entries|);
        var members := FreezeEntries(v, |entries|).value;
        forall i | 0 <= i < |entries| ensures IsFrozen(entries[i].value, members[Strip(entries[i].key.text)]) {
          FreezeIsFrozen(entries[i].value);
        }
        MembersAreFrozen(v, members);
      case _ =>
    }
  }

  lemma {:induction false} MembersAreFrozen(v: Raw, members: map<string, Frozen>)
    requires v.RMapping? && EntriesAcceptable(v, |v.entries|) && RequestCodec.Holds(v, |v.entries|, members)
    requires forall i :: 0 <= i < |v.entries| ==> IsFrozen(v.entries[i].value, members[Strip(v.entries[i].key.text)])
    ensures IsFrozen(v, FMapping(members))
  {
    KeysDiffer(v);
    forall k | k in members
      ensures exists i :: 0 <= i < |v.entries| && v.entries[i].key.TextKey? && Strip(v.entries[i].key.text) == k
    {
      var i :| 0 <= i < |v.entries| && NamedMember(v.entries[i]) && Strip(v.entries[i].key.text) == k;
    }
  }

  lemma {:induction false} KeysDiffer(v: Raw)
    requires v.RMapping? && EntriesAcceptable(v, |v.entries|)
    ensures TrimmedKeysDiffer(v.entries)
  {
    assert v.entries[..|v.entries|] == v.entries;
    forall i, j | 0 <= i < j < |v.entries| ensures Strip(v.entries[i].key.text) != Strip(v.entries[j].key.text) {
      assert NamedMember(v.entries[i]) && NamedMember(v.entries[j]);
    }
  }

  lemma {:induction false} FrozenIsFreeze(v: Raw, f: Frozen)
    requires IsFrozen(v, f)
    ensures Freeze(v) == Some(f)
    decreases v
  {
    match v {
      case RSequence(items, _) =>
        forall i | 0 <= i < |items| ensures Freeze(items[i]) == Some(f.items[i]) && Acceptable(items[i]) {
          FrozenIsFreeze(items[i], f.items[i]);
          FreezesExactly(items[i]);
        }
        ItemsFreezeExactly(v, |items|);
        assert FreezeItems(v, |items|).value == f.items;
      case RMapping(entries) =>
        forall i | 0 <= i < |entries|
          ensures Freeze(entries[i].value) == Some(f.members[Strip(entries[i].key.text)]) && Acceptable(entries[i].value)
        {
          FrozenIsFreeze(entries[i].value, f.members[Strip(entries[i].key.text)]);
          FreezesExactly(entries[i].value);
        }
        assert entries[..|entries|] == entries;
        EntriesFreezeExactly(v, |entries|);
        SameMembers(v, FreezeEntries(v, |entries|).value, f.members);
      case _ =>
    }
  }

  lemma {:induction false} SameMembers(v: Raw, m: map<string, Frozen>, n: map<string, Frozen>)
    requires v.RMapping? && RequestCodec.Holds(v, |v.entries|, m)
    requires forall i :: 0 <= i < |v.entries| ==>
      Strip(v.entries[i].key.text) in n && Freeze(v.entries[i].value) == Some(n[Strip(v.entries[i].key.text)])
    requires forall k :: k in n ==> exists i :: 0 <= i < |v.entries| && Strip(v.entries[i].key.text) == k
    ensures m == n
  {
    forall k | k in m ensures k in n && m[k] == n[k] {
      var i :| 0 <= i < |v.entries| && NamedMember(v.entries[i]) && Strip(v.entries[i].key.text) == k;
    }
    forall k | k in n ensures k in m {
      var i :| 0 <= i < |v.entries| && Strip(v.entries[i].key.text) == k;
    }
    assert m.Keys == n.Keys;
  }

  /** A configuration freezes to `f` exactly when `f` is it, frozen. */
  lemma {:induction false} FrozenExactly(v: Raw, f: Frozen)
    ensures Freeze(v) == Some(f) <==> IsFrozen(v, f)
  {
    if Freeze(v) == Some(f) { FreezeIsFrozen(v); }
    if IsFrozen(v, f) { FrozenIsFreeze(v, f); }
  }

  /** Thawing shows the frozen value, every mapping with its keys in ascending order. */
  lemma {:induction false} ThawExactly(f: Frozen)
    ensures Presents(Thaw(f), f)
    ensures f.FMapping? ==> var e := Thaw(f).entries;
      forall i, j :: 0 <= i < j < |e| ==> StrLeq(e[i].key.text, e[j].key.text) && e[i].key != e[j].key
    ensures f.FTuple? ==> !Thaw(f).isTuple
  {
    ThawPresents(f);
    if f.FMapping? {
      var keys, e := SortedKeys(f.members.Keys), Thaw(f).entries;
      SortedKeysAscend(f.members.Keys);
      ThawedKeysAreMembers(f);
    }
  }

  /** A path leads on through the position that it names in a sequence or a mapping. */
  lemma {:induction false} PathsLeadOn(v: Raw, i: nat, path: seq<nat>)
    ensures At(v, []) == Some(v)
    ensures At(v, [i] + path) ==
      match v
      case RSequence(items, _) => if i < |items| then At(items[i], path) else None
      case RMapping(entries) => if i < |entries| then At(entries[i].value, path) else None
      case _ => None
  {
    assert ([i] + path)[1..] == path;
  }

  // ---- Keys and fields ----

  /** The mapping has the value under the key. */
  predicate Has(v: Raw, key: string, value: Raw) {
    v.RMapping? && exists i :: 0 <= i < |v.entries| && v.entries[i] == Member(TextKey(key), value)
  }

  lemma {:induction false} LookupExactly(v: Raw, key: string, value: Raw)
    requires v.RMapping? && DistinctKeys(v.entries)
    ensures Lookup(v.entries, key) == Some(value) <==> Has(v, key, value)
  {
    LookupIn(v.entries, key, value);
  }

  lemma {:induction false} LookupIn(entries: seq<Member>, key: string, value: Raw)
    requires DistinctKeys(entries)
    ensures Lookup(entries, key) == Some(value) <==> exists i :: 0 <= i < |entries| && entries[i] == Member(TextKey(key), value)
    decreases |entries|
  {
    if entries != [] {
      var rest := entries[1..];
      assert forall i :: 0 <= i < |rest| ==> rest[i] == entries[i + 1];
      LookupIn(rest, key, value);
      if i :| 0 <= i < |entries| && entries[i] == Member(TextKey(key), value) {
        if i > 0 { assert rest[i - 1] == entries[i] && entries[0].key != entries[i].key; }
      }
      if entries[0].key == TextKey(key) && Lookup(entries, key) == Some(value) {
        assert entries[0] == Member(TextKey(key), value);
      }
    }
  }

  /** Exactly these text keys, each once. */
  predicate HasKeys(v: Raw, keys: set<string>) {
    && v.RMapping?
    && (forall i :: 0 <= i < |v.entries| ==> v.entries[i].key.TextKey? && v.entries[i].key.text in keys)
    && forall k :: k in keys ==> exists i :: 0 <= i < |v.entries| && v.entries[i].key == TextKey(k)
  }

  lemma {:induction false} ObjectExactly(v: Raw, keys: set<string>)
    requires v.RMapping? ==> DistinctKeys(v.entries)
    ensures IsObject(v, keys) <==> HasKeys(v, keys)
  {
    if v.RMapping? {
      forall k | k in keys
        ensures Lookup(v.entries, k).Some? <==> exists i :: 0 <= i < |v.entries| && v.entries[i].key == TextKey(k)
      {
        if i :| 0 <= i < |v.entries| && v.entries[i].key == TextKey(k) {
          assert v.entries[i] == Member(TextKey(k), v.entries[i].value);
          LookupExactly(v, k, v.entries[i].value);
        }
        if Lookup(v.entries, k).Some? { LookupExactly(v, k, Lookup(v.entries, k).value); }
      }
    }
  }

  /** How a number stands in a document. */
  predicate IsNumber(v: Raw, n: Number) {
    match n
    case IntNumber(i) => v == RInt(i)
    case FloatNumber(text) => v == RFloat(Finite(text))
  }

  ghost predicate HasNumber(v: Raw, key: string, n: Number) {
    exists value :: Has(v, key, value) && IsNumber(value, n)
  }

  lemma {:induction false} NumberExactly(v: Raw, key: string, n: Number)
    requires v.RMapping? && DistinctKeys(v.entries) && Lookup(v.entries, key).Some?
    ensures DecodeNumber(Lookup(v.entries, key).value) == Some(n) <==> HasNumber(v, key, n)
  {
    var value := Lookup(v.entries, key).value;
    LookupExactly(v, key, value);
    forall other | Has(v, key, other) ensures other == value { LookupExactly(v, key, other); }
  }

  // ---- Rows ----

  /** The six fields of a row under their six keys, the instant as a text that reads so. */
  ghost predicate ShowsRow(t: Texts, v: Raw, row: Row) {
    && HasKeys(v, {"timestamp", "open", "high", "low", "close", "volume"})
    && (exists s :: Has(v, "timestamp", RText(s)) && t.read(s) == Some(row.timestamp))
    && HasNumber(v, "open", row.open) && HasNumber(v, "high", row.high) && HasNumber(v, "low", row.low)
    && HasNumber(v, "close", row.close) && HasNumber(v, "volume", row.volume)
  }

  lemma {:induction false} StampExactly(t: Texts, v: Raw, instant: Instant)
    requires v.RMapping? && DistinctKeys(v.entries) && Lookup(v.entries, "timestamp").Some?
    ensures Lookup(v.entries, "timestamp").value.RText? && t.read(Lookup(v.entries, "timestamp").value.s) == Some(instant)
      <==> exists s :: Has(v, "timestamp", RText(s)) && t.read(s) == Some(instant)
  {
    var value := Lookup(v.entries, "timestamp").value;
    LookupExactly(v, "timestamp", value);
    forall s | Has(v, "timestamp", RText(s)) ensures RText(s) == value { LookupExactly(v, "timestamp", RText(s)); }
  }

  /** A row is decoded from a mapping exactly when the mapping shows it. */
  lemma {:induction false} RowDecodedExactly(t: Texts, v: Raw, row: Row)
    requires v.RMapping? ==> DistinctKeys(v.entries)
    ensures DecodeRow(t, v) == Some(row) <==> ShowsRow(t, v, row)
  {
    ObjectExactly(v, ROW_KEYS);
    if HasKeys(v, ROW_KEYS) {
      StampExactly(t, v, row.timestamp);
      NumberExactly(v, "open", row.open);
      NumberExactly(v, "high", row.high);
      NumberExactly(v, "low", row.low);
      NumberExactly(v, "close", row.close);
      NumberExactly(v, "volume", row.volume);
      DecodedRow(t, v, row);
    }
  }

  lemma {:induction false} DecodedRow(t: Texts, v: Raw, row: Row)
    requires IsObject(v, ROW_KEYS)
    ensures DecodeRow(t, v) == Some(row) <==>
      && Lookup(v.entries, "timestamp").value.RText? && t.read(Lookup(v.entries, "timestamp").value.s) == Some(row.timestamp)
      && DecodeNumber(Lookup(v.entries, "open").value) == Some(row.open)
      && DecodeNumber(Lookup(v.entries, "high").value) == Some(row.high)
      && DecodeNumber(Lookup(v.entries, "low").value) == Some(row.low)
      && DecodeNumber(Lookup(v.entries, "close").value) == Some(row.close)
      && DecodeNumber(Lookup(v.entries, "volume").value) == Some(row.volume)
  {
  }

  /** An encoded row shows the row, its instant as written. */
  lemma {:induction false} RowEncodedExactly(t: Texts, row: Row)
    requires SoundStamps(t)
    ensures var v := EncodeRow(t, row);
      DistinctKeys(v.entries) && ShowsRow(t, v, row) && Has(v, "timestamp", RText(t.write(row.timestamp)))
  {
    var v := EncodeRow(t, row);
    assert DistinctKeys(v.entries);
    RowDecodedExactly(t, v, row);
    DecodeEncodedRow(t, row);
    assert v.entries[0] == Member(TextKey("timestamp"), RText(t.write(row.timestamp)));
  }

  // ---- Sources ----

  /** The rows of a source under its fourth key: a list whose items show them in order. */
  ghost predicate ShowsRows(t: Texts, v: Raw, rows: seq<Row>) {
    v.RSequence? && !v.isTuple && |v.items| == |rows| && forall i :: 0 <= i < |rows| ==> ShowsRow(t, v.items[i], rows[i])
  }

  /** The three texts and the rows, as they stand in the document. */
  ghost predicate ShowsSource(t: Texts, v: Raw, symbol: string, interval: string, provider: string, rows: seq<Row>) {
    && HasKeys(v, {"symbol", "interval", "provider", "rows"})
    && Has(v, "symbol", RText(symbol)) && Has(v, "interval", RText(interval)) && Has(v, "provider", RText(provider))
    && exists items :: Has(v, "rows", items) && ShowsRows(t, items, rows)
  }

  /** Python mappings throughout a source document. */
  predicate WellKeyedSource(v: Raw) {
    v.RMapping? ==>
      && DistinctKeys(v.entries)
      && forall i :: 0 <= i < |v.entries| && v.entries[i].value.RSequence? ==> WellKeyedRows(v.entries[i].value.items)
  }

  predicate WellKeyedRows(items: seq<Raw>) {
    forall i :: 0 <= i < |items| && items[i].RMapping? ==> DistinctKeys(items[i].entries)
  }

  lemma {:induction false} RowsDecodedExactly(t: Texts, items: seq<Raw>, rows: seq<Row>)
    requires WellKeyedRows(items)
    ensures DecodeRows(t, items) == Some(rows) <==> |items| == |rows| && forall i :: 0 <= i < |rows| ==> ShowsRow(t, items[i], rows[i])
  {
    forall i, row | 0 <= i < |items| ensures DecodeRow(t, items[i]) == Some(row) <==> ShowsRow(t, items[i], row) {
      RowDecodedExactly(t, items[i], row);
    }
    if |items| == |rows| && forall i :: 0 <= i < |rows| ==> ShowsRow(t, items[i], rows[i]) {
      forall i | 0 <= i < |items| ensures DecodeRow(t, items[i]) == Some(rows[i]) {
      }
      assert DecodeRows(t, items).Some?;
      assert DecodeRows(t, items).value == rows;
    }
  }

  /** What is kept of what a document shows: trimmed texts, the symbol in upper case. */
  predicate Keeps(t: Texts, s: Source, symbol: string, interval: string, provider: string, rows: seq<Row>) {
    && Strip(symbol) != "" && Strip(interval) != "" && Strip(provider) != "" && rows != []
    && (forall i, j :: 0 <= i < j < |rows| ==> rows[i].timestamp < rows[j].timestamp)
    && s.symbol == t.upper(Strip(symbol)) && s.interval == Strip(interval) && s.provider == Strip(provider) && s.rows == rows
  }

  ghost predicate IsShown(t: Texts, v: Raw, s: Source) {
    exists symbol, interval, provider ::
      ShowsSource(t, v, symbol, interval, provider, s.rows) && Keeps(t, s, symbol, interval, provider, s.rows)
  }

  /** A source is decoded exactly when the document shows three texts that are not blank and
      strictly increasing rows, at least one; it keeps them, trimmed. */
  lemma {:induction false} SourceDecodedExactly(t: Texts, v: Raw, s: Source)
    requires WellKeyedSource(v)
    ensures DecodeSource(t, v) == Some(s) <==> IsShown(t, v, s)
  {
    ObjectExactly(v, SOURCE_KEYS);
    if HasKeys(v, SOURCE_KEYS) {
      if DecodeSource(t, v) == Some(s) { DecodedIsShown(t, v, s); }
      if IsShown(t, v, s) {
        var symbol, interval, provider :|
          ShowsSource(t, v, symbol, interval, provider, s.rows) && Keeps(t, s, symbol, interval, provider, s.rows);
        ShownIsDecoded(t, v, s, symbol, interval, provider);
      }
    }
  }

  lemma {:induction false} RowsUnderKey(v: Raw, items: Raw)
    requires WellKeyedSource(v) && Has(v, "rows", items) && items.RSequence?
    ensures WellKeyedRows(items.items)
  {
    var i :| 0 <= i < |v.entries| && v.entries[i] == Member(TextKey("rows"), items);
  }

  lemma {:induction false} DecodedIsShown(t: Texts, v: Raw, s: Source)
    requires WellKeyedSource(v) && HasKeys(v, SOURCE_KEYS) && IsObject(v, SOURCE_KEYS) && DecodeSource(t, v) == Some(s)
    ensures IsShown(t, v, s)
  {
    var symbol, interval := Lookup(v.entries, "symbol").value, Lookup(v.entries, "interval").value;
    var provider, items := Lookup(v.entries, "provider").value, Lookup(v.entries, "rows").value;
    LookupExactly(v, "symbol", symbol);
    LookupExactly(v, "interval", interval);
    LookupExactly(v, "provider", provider);
    LookupExactly(v, "rows", items);
    RowsUnderKey(v, items);
    RowsDecodedExactly(t, items.items, DecodeRows(t, items.items).value);
    assert ShowsRows(t, items, s.rows);
    assert ShowsSource(t, v, symbol.s, interval.s, provider.s, s.rows);
    assert Keeps(t, s, symbol.s, interval.s, provider.s, s.rows);
  }

  lemma {:induction false} ShownIsDecoded(t: Texts, v: Raw, s: Source, symbol: string, interval: string, provider: string)
    requires WellKeyedSource(v) && IsObject(v, SOURCE_KEYS)
    requires ShowsSource(t, v, symbol, interval, provider, s.rows) && Keeps(t, s, symbol, interval, provider, s.rows)
    ensures DecodeSource(t, v) == Some(s)
  {
    var items :| Has(v, "rows", items) && ShowsRows(t, items, s.rows);
    LookupExactly(v, "symbol", RText(symbol));
    LookupExactly(v, "interval", RText(interval));
    LookupExactly(v, "provider", RText(provider));
    LookupExactly(v, "rows", items);
    RowsUnderKey(v, items);
    RowsDecodedExactly(t, items.items, s.rows);
  }

  /** An encoded source shows its own texts and rows. */
  lemma {:induction false} SourceEncodedExactly(t: Texts, s: Source)
    requires SoundStamps(t)
    ensures WellKeyedSource(EncodeSource(t, s)) && ShowsSource(t, EncodeSource(t, s), s.symbol, s.interval, s.provider, s.rows)
  {
    var v, items := EncodeSource(t, s), RSequence(EncodeRows(t, s.rows), false);
    forall i | 0 <= i < |s.rows| ensures ShowsRow(t, items.items[i], s.rows[i]) && DistinctKeys(items.items[i].entries) {
      RowEncodedExactly(t, s.rows[i]);
    }
    assert ShowsRows(t, items, s.rows);
    assert DistinctKeys(v.entries);
    assert v.entries[0] == Member(TextKey("symbol"), RText(s.symbol)) && v.entries[1] == Member(TextKey("interval"), RText(s.interval));
    assert v.entries[2] == Member(TextKey("provider"), RText(s.provider)) && v.entries[3] == Member(TextKey("rows"), items);
    SourceFields(t, s);
    ObjectExactly(v, SOURCE_KEYS);
    assert Has(v, "rows", items);
  }
}
