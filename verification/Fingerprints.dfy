/** The canonical form under every history identity (`_fingerprint.py`). */
module Fingerprints {
  import opened Basics
  import opened JsonText
  import opened PassiveJson
  import opened CanonicalCodec
  import opened JsonWriter

  /** SHA-256 of the canonical text, modelled as injective. */
  datatype Digest = Sha256(text: string)

  function Canonical(v: Raw): Option<Json>
    decreases v, 1, 0
  {
    match v
    case RNull => Some(JNull)
    case RBool(b) => Some(JBool(b))
    case RInt(i) => Some(JInt(i))
    case RText(s) => Some(JString(s))
    case RFloat(f) => if f.Finite? then Some(JFloat(f.text)) else None
    case RSequence(items, _) =>
      (match CanonicalItems(v, |items|)
       case None => None
       case Some(list) => Some(JArray(list)))
    case RMapping(entries) =>
      (match CanonicalMembers(v, |entries|)
       case None => None
       case Some(members) => Some(JObject(members)))
    case ROther(_) => None
  }

  function CanonicalItems(v: Raw, n: nat): (r: Option<seq<Json>>)
    requires v.RSequence? && n <= |v.items|
    ensures r.Some? ==> |r.value| == n
    decreases v, 0, n
  {
    if n == 0 then Some([])
    else match CanonicalItems(v, n - 1)
      case None => None
      case Some(before) =>
        match Canonical(v.items[n - 1])
        case None => None
        case Some(item) => Some(before + [item])
  }

  function CanonicalMembers(v: Raw, n: nat): Option<map<string, Json>>
    requires v.RMapping? && n <= |v.entries|
    decreases v, 0, n
  {
    if n == 0 then Some(map[])
    else match CanonicalMembers(v, n - 1)
      case None => None
      case Some(before) =>
        var entry := v.entries[n - 1];
        if !entry.key.TextKey? || entry.key.text == "" then None
        else match Canonical(entry.value)
          case None => None
          case Some(item) => Some(before[entry.key.text := item])
  }

  /** `_canonical_value`, filling a dictionary in a loop. */
  method CanonicalValue(v: Raw) returns (r: Option<Json>)
    ensures r == Canonical(v)
    decreases v
  {
    match v {
      case RNull => r := Some(JNull);
      case RBool(b) => r := Some(JBool(b));
      case RInt(i) => r := Some(JInt(i));
      case RText(s) => r := Some(JString(s));
      case RFloat(f) => r := if f.Finite? then Some(JFloat(f.text)) else None;
      case ROther(_) => r := None;
      case RSequence(items, _) =>
        var list: seq<Json> := [];
        for i := 0 to |items|
          invariant CanonicalItems(v, i) == Some(list)
        {
          var item := CanonicalValue(items[i]);
          if item.None? {
            ItemsStop(v, i + 1);
            return None;
          }
          list := list + [item.value];
        }
        r := Some(JArray(list));
      case RMapping(entries) =>
        var normalized: map<string, Json> := map[];
        for i := 0 to |entries|
          invariant CanonicalMembers(v, i) == Some(normalized)
        {
          if !entries[i].key.TextKey? || entries[i].key.text == "" {
            MembersStop(v, i + 1);
            return None;
          }
          var item := CanonicalValue(entries[i].value);
          if item.None? {
            MembersStop(v, i + 1);
            return None;
          }
          normalized := normalized[entries[i].key.text := item.value];
        }
        r := Some(JObject(normalized));
    }
  }

  lemma {:induction false} ItemsStop(v: Raw, n: nat)
    requires v.RSequence? && n <= |v.items| && CanonicalItems(v, n).None?
    ensures CanonicalItems(v, |v.items|).None?
    decreases |v.items| - n
  {
    if n < |v.items| { ItemsStop(v, n + 1); }
  }

  lemma {:induction false} MembersStop(v: Raw, n: nat)
    requires v.RMapping? && n <= |v.entries| && CanonicalMembers(v, n).None?
    ensures CanonicalMembers(v, |v.entries|).None?
    decreases |v.entries| - n
  {
    if n < |v.entries| { MembersStop(v, n + 1); }
  }

  // ---- Content ----

  /** Keys are distinct at every depth, as in Python mappings, and floats carry their own
      canonical text. */
  predicate WellKeyed(v: Raw, read: FloatReader) {
    match v
    case RFloat(f) => f.Finite? ==> read(f.text) == Some(f.text)
    case RSequence(items, _) => forall i :: 0 <= i < |items| ==> WellKeyed(items[i], read)
    case RMapping(entries) =>
      DistinctKeys(entries) && forall i :: 0 <= i < |entries| ==> WellKeyed(entries[i].value, read)
    case _ => true
  }

  /** The same content: a list is a tuple, and the order of a mapping plays no part. */
  ghost predicate Same(v: Raw, w: Raw)
    decreases v, 2
  {
    match v
    case RSequence(items, _) =>
      w.RSequence? && |items| == |w.items| && forall i :: 0 <= i < |items| ==> Same(items[i], w.items[i])
    case RMapping(entries) =>
      && w.RMapping?
      && (forall i :: 0 <= i < |entries| ==> HasPartner(v, i, w))
      && (forall j :: 0 <= j < |w.entries| ==> IsPartner(v, w, j))
    case _ => v == w
  }

  ghost predicate HasPartner(v: Raw, i: nat, w: Raw)
    requires v.RMapping? && w.RMapping? && i < |v.entries|
    decreases v, 1
  {
    exists j :: 0 <= j < |w.entries| && SameEntry(v, i, w, j)
  }

  ghost predicate IsPartner(v: Raw, w: Raw, j: nat)
    requires v.RMapping? && w.RMapping? && j < |w.entries|
    decreases v, 1
  {
    exists i :: 0 <= i < |v.entries| && SameEntry(v, i, w, j)
  }

  ghost predicate SameEntry(v: Raw, i: nat, w: Raw, j: nat)
    requires v.RMapping? && w.RMapping? && i < |v.entries| && j < |w.entries|
    decreases v, 0
  {
    v.entries[i].key == w.entries[j].key && Same(v.entries[i].value, w.entries[j].value)
  }

  lemma {:induction false} ItemsHold(v: Raw, n: nat)
    requires v.RSequence? && n <= |v.items| && CanonicalItems(v, n).Some?
    ensures forall i :: 0 <= i < n ==> Canonical(v.items[i]) == Some(CanonicalItems(v, n).value[i])
  {
    if n > 0 { ItemsHold(v, n - 1); }
  }

  predicate HoldsMembers(v: Raw, n: nat, members: map<string, Json>)
    requires v.RMapping? && n <= |v.entries|
  {
    && (forall i :: 0 <= i < n ==>
          && v.entries[i].key.TextKey? && v.entries[i].key.text in members
          && Canonical(v.entries[i].value) == Some(members[v.entries[i].key.text]))
    && forall k :: k in members ==> exists i :: 0 <= i < n && v.entries[i].key == TextKey(k)
  }

  lemma {:induction false} MembersHold(v: Raw, n: nat)
    requires v.RMapping? && n <= |v.entries| && DistinctKeys(v.entries) && CanonicalMembers(v, n).Some?
    ensures HoldsMembers(v, n, CanonicalMembers(v, n).value)
  {
    if n > 0 {
      MembersHold(v, n - 1);
      var before := CanonicalMembers(v, n - 1).value;
      KeyIsKnownExactly(v, n - 1, before);
      MembersExtend(v, n - 1, before, CanonicalMembers(v, n).value);
    }
  }

  lemma {:induction false} KeyIsKnownExactly(v: Raw, n: nat, before: map<string, Json>)
    requires v.RMapping? && n < |v.entries| && HoldsMembers(v, n, before) && v.entries[n].key.TextKey?
    ensures v.entries[n].key.text in before <==> exists i :: 0 <= i < n && v.entries[i].key == v.entries[n].key
  {
    if v.entries[n].key.text in before {
      var i :| 0 <= i < n && v.entries[i].key == TextKey(v.entries[n].key.text);
    }
  }

  lemma {:induction false} MembersExtend(v: Raw, n: nat, before: map<string, Json>, after: map<string, Json>)
    requires v.RMapping? && n < |v.entries| && HoldsMembers(v, n, before)
    requires v.entries[n].key.TextKey? && v.entries[n].key.text !in before && Canonical(v.entries[n].value).Some?
    requires after == before[v.entries[n].key.text := Canonical(v.entries[n].value).value]
    ensures HoldsMembers(v, n + 1, after)
  {
    forall k | k in after ensures exists i :: 0 <= i < n + 1 && v.entries[i].key == TextKey(k) {
      if k in before {
        var i :| 0 <= i < n && v.entries[i].key == TextKey(k);
      } else {
        assert v.entries[n].key == TextKey(k);
      }
    }
  }

  /** Canonical values are equal exactly when the contents are the same. */
  lemma {:induction false} CanonicalIsContent(v: Raw, w: Raw, read: FloatReader)
    requires WellKeyed(v, read) && WellKeyed(w, read) && Canonical(v).Some? && Canonical(w).Some?
    ensures Canonical(v) == Canonical(w) <==> Same(v, w)
    decreases v
  {
    if v.RSequence? && w.RSequence? {
      ItemsHold(v, |v.items|);
      ItemsHold(w, |w.items|);
      forall i | 0 <= i < |v.items| && i < |w.items|
        ensures Canonical(v.items[i]) == Canonical(w.items[i]) <==> Same(v.items[i], w.items[i])
      {
        CanonicalIsContent(v.items[i], w.items[i], read);
      }
      SequencesCompare(v, w);
    } else if v.RMapping? && w.RMapping? {
      MembersHold(v, |v.entries|);
      MembersHold(w, |w.entries|);
      forall i, j | 0 <= i < |v.entries| && 0 <= j < |w.entries|
        ensures Canonical(v.entries[i].value) == Canonical(w.entries[j].value) <==> Same(v.entries[i].value, w.entries[j].value)
      {
        CanonicalIsContent(v.entries[i].value, w.entries[j].value, read);
      }
      MappingsCompare(v, w, CanonicalMembers(v, |v.entries|).value, CanonicalMembers(w, |w.entries|).value);
    }
  }

  lemma {:induction false} SequencesCompare(v: Raw, w: Raw)
    requires v.RSequence? && w.RSequence? && Canonical(v).Some? && Canonical(w).Some?
    requires forall i :: 0 <= i < |v.items| ==> Canonical(v.items[i]) == Some(Canonical(v).value.items[i])
    requires forall i :: 0 <= i < |w.items| ==> Canonical(w.items[i]) == Some(Canonical(w).value.items[i])
    requires forall i :: 0 <= i < |v.items| && i < |w.items| ==>
      (Canonical(v.items[i]) == Canonical(w.items[i]) <==> Same(v.items[i], w.items[i]))
    ensures Canonical(v) == Canonical(w) <==> Same(v, w)
  {
    if Same(v, w) {
      assert Canonical(v).value.items == Canonical(w).value.items;
    }
  }

  /** Entries with one key: equal canonical values exactly when the values are the same. */
  ghost predicate EntriesCompare(v: Raw, w: Raw)
    requires v.RMapping? && w.RMapping?
  {
    forall i, j :: 0 <= i < |v.entries| && 0 <= j < |w.entries| ==>
      (Canonical(v.entries[i].value) == Canonical(w.entries[j].value) <==> Same(v.entries[i].value, w.entries[j].value))
  }

  lemma {:induction false} MappingsCompare(v: Raw, w: Raw, m: map<string, Json>, n: map<string, Json>)
    requires v.RMapping? && w.RMapping? && EntriesCompare(v, w)
    requires HoldsMembers(v, |v.entries|, m) && HoldsMembers(w, |w.entries|, n)
    ensures m == n <==> Same(v, w)
  {
    if m == n { EqualMembersAreSame(v, w, m); }
    if Same(v, w) { SameMembers(v, w, m, n); }
  }

  lemma {:induction false} EqualMembersAreSame(v: Raw, w: Raw, m: map<string, Json>)
    requires v.RMapping? && w.RMapping? && EntriesCompare(v, w)
    requires HoldsMembers(v, |v.entries|, m) && HoldsMembers(w, |w.entries|, m)
    ensures Same(v, w)
  {
    forall i | 0 <= i < |v.entries| ensures HasPartner(v, i, w) {
      var j :| 0 <= j < |w.entries| && w.entries[j].key == TextKey(v.entries[i].key.text);
      assert SameEntry(v, i, w, j);
    }
    forall j | 0 <= j < |w.entries| ensures IsPartner(v, w, j) {
      var i :| 0 <= i < |v.entries| && v.entries[i].key == TextKey(w.entries[j].key.text);
      assert SameEntry(v, i, w, j);
    }
  }

  lemma {:induction false} SameMembers(v: Raw, w: Raw, m: map<string, Json>, n: map<string, Json>)
    requires v.RMapping? && w.RMapping? && EntriesCompare(v, w) && Same(v, w)
    requires HoldsMembers(v, |v.entries|, m) && HoldsMembers(w, |w.entries|, n)
    ensures m == n
  {
    forall k | k in m ensures k in n && m[k] == n[k] { MemberCarriesOver(v, w, m, n, k); }
    forall k | k in n ensures k in m { MemberComesFrom(v, w, m, n, k); }
    SameMapping(m, n);
  }

  lemma {:induction false} SameMapping(m: map<string, Json>, n: map<string, Json>)
    requires forall k :: k in m ==> k in n && m[k] == n[k]
    requires forall k :: k in n ==> k in m
    ensures m == n
  {
    assert m.Keys == n.Keys;
  }

  lemma {:induction false} MemberCarriesOver(v: Raw, w: Raw, m: map<string, Json>, n: map<string, Json>, k: string)
    requires v.RMapping? && w.RMapping? && EntriesCompare(v, w) && Same(v, w) && k in m
    requires HoldsMembers(v, |v.entries|, m) && HoldsMembers(w, |w.entries|, n)
    ensures k in n && m[k] == n[k]
  {
    var i :| 0 <= i < |v.entries| && v.entries[i].key == TextKey(k);
    assert HasPartner(v, i, w);
    var j :| 0 <= j < |w.entries| && SameEntry(v, i, w, j);
  }

  lemma {:induction false} MemberComesFrom(v: Raw, w: Raw, m: map<string, Json>, n: map<string, Json>, k: string)
    requires v.RMapping? && w.RMapping? && Same(v, w) && k in n
    requires HoldsMembers(v, |v.entries|, m) && HoldsMembers(w, |w.entries|, n)
    ensures k in m
  {
    var j :| 0 <= j < |w.entries| && w.entries[j].key == TextKey(k);
    assert IsPartner(v, w, j);
    var i :| 0 <= i < |v.entries| && SameEntry(v, i, w, j);
  }

  lemma {:induction false} CanonicalIsReadable(v: Raw, read: FloatReader)
    requires WellKeyed(v, read) && Canonical(v).Some?
    ensures Readable(Canonical(v).value, read)
    decreases v
  {
    match v {
      case RSequence(items, _) =>
        ItemsHold(v, |items|);
        forall i | 0 <= i < |items| ensures Readable(Canonical(v).value.items[i], read) { CanonicalIsReadable(items[i], read); }
      case RMapping(entries) =>
        MembersHold(v, |entries|);
        var members := Canonical(v).value.members;
        forall k | k in members ensures Readable(members[k], read) {
          var i :| 0 <= i < |entries| && entries[i].key == TextKey(k);
          CanonicalIsReadable(entries[i].value, read);
        }
      case _ =>
    }
  }

  // ---- Fingerprints ----

  predicate IsSchema(entry: Member) {
    entry.key == TextKey("schema_version") && entry.value.RText? && Strip(entry.value.s) != ""
  }

  predicate HasSchema(payload: Raw) {
    payload.RMapping? && exists i :: 0 <= i < |payload.entries| && IsSchema(payload.entries[i])
  }

  /** `canonical_fingerprint` */
  function Fingerprint(payload: Raw): Option<Digest> {
    if !HasSchema(payload) then None
    else match Canonical(payload)
      case None => None
      case Some(json) => Some(Sha256(Encode(json)))
  }

  /** Two payloads have the same fingerprint exactly when their content is the same:
      neither the kind of a sequence nor the order of a mapping is seen, and nothing
      else is lost. */
  lemma {:induction false} FingerprintsIdentifyContent(v: Raw, w: Raw, read: FloatReader)
    requires SoundReader(read) && WellKeyed(v, read) && WellKeyed(w, read)
    requires Fingerprint(v).Some? && Fingerprint(w).Some?
    ensures Fingerprint(v) == Fingerprint(w) <==> Same(v, w)
  {
    CanonicalIsContent(v, w, read);
    CanonicalIsReadable(v, read);
    CanonicalIsReadable(w, read);
    if Fingerprint(v) == Fingerprint(w) {
      EncodeIsInjective(Canonical(v).value, Canonical(w).value, read);
    }
  }
  // ---- What a fingerprint is of ----

  /** Keys are distinct at every depth, as in Python mappings. */
  predicate KeysDistinct(v: Raw) {
    match v
    case RSequence(items, _) => forall i :: 0 <= i < |items| ==> KeysDistinct(items[i])
    case RMapping(entries) => DistinctKeys(entries) && forall i :: 0 <= i < |entries| ==> KeysDistinct(entries[i].value)
    case _ => true
  }

  /** `json` shows `v`: the same scalars, finite floats by their text, items in order, and
      values under the same nonempty text keys. */
  predicate Shows(v: Raw, json: Json) {
    match v
    case RNull => json == JNull
    case RBool(b) => json == JBool(b)
    case RInt(i) => json == JInt(i)
    case RFloat(f) => f.Finite? && json == JFloat(f.text)
    case RText(s) => json == JString(s)
    case RSequence(items, _) =>
      json.JArray? && |json.items| == |items| && forall i :: 0 <= i < |items| ==> Shows(items[i], json.items[i])
    case RMapping(entries) =>
      && json.JObject?
      && (forall i :: 0 <= i < |entries| ==>
            && entries[i].key.TextKey? && entries[i].key.text != "" && entries[i].key.text in json.members
            && Shows(entries[i].value, json.members[entries[i].key.text]))
      && forall k :: k in json.members ==> exists i :: 0 <= i < |entries| && entries[i].key == TextKey(k)
    case ROther(_) => false
  }

  lemma {:induction false} CanonicalShows(v: Raw)
    requires KeysDistinct(v) && Canonical(v).Some?
    ensures Shows(v, Canonical(v).value)
    decreases v
  {
    match v {
      case RSequence(items, _) =>
        ItemsHold(v, |items|);
        forall i | 0 <= i < |items| ensures Shows(items[i], Canonical(v).value.items[i]) { CanonicalShows(items[i]); }
      case RMapping(entries) =>
        MembersHold(v, |entries|);
        KeysNamed(v, |entries|);
        forall i | 0 <= i < |entries| ensures Shows(entries[i].value, Canonical(v).value.members[entries[i].key.text]) {
          CanonicalShows(entries[i].value);
        }
      case _ =>
    }
  }

  lemma {:induction false} KeysNamed(v: Raw, n: nat)
    requires v.RMapping? && n <= |v.entries| && CanonicalMembers(v, n).Some?
    ensures forall i :: 0 <= i < n ==> v.entries[i].key.TextKey? && v.entries[i].key.text != ""
  {
    if n > 0 { KeysNamed(v, n - 1); }
  }

  lemma {:induction false} ItemsArise(v: Raw, n: nat)
    requires v.RSequence? && n <= |v.items| && forall i :: 0 <= i < n ==> Canonical(v.items[i]).Some?
    ensures CanonicalItems(v, n).Some?
  {
    if n > 0 { ItemsArise(v, n - 1); }
  }

  lemma {:induction false} MembersArise(v: Raw, n: nat)
    requires v.RMapping? && n <= |v.entries|
    requires forall i :: 0 <= i < n ==>
      v.entries[i].key.TextKey? && v.entries[i].key.text != "" && Canonical(v.entries[i].value).Some?
    ensures CanonicalMembers(v, n).Some?
  {
    if n > 0 { MembersArise(v, n - 1); }
  }

  lemma {:induction false} ShownIsCanonical(v: Raw, json: Json)
    requires KeysDistinct(v) && Shows(v, json)
    ensures Canonical(v) == Some(json)
    decreases v
  {
    match v {
      case RSequence(items, _) =>
        forall i | 0 <= i < |items| ensures Canonical(items[i]) == Some(json.items[i]) { ShownIsCanonical(items[i], json.items[i]); }
        ItemsArise(v, |items|);
        ItemsHold(v, |items|);
        assert CanonicalItems(v, |items|).value == json.items;
      case RMapping(entries) =>
        forall i | 0 <= i < |entries| ensures Canonical(entries[i].value) == Some(json.members[entries[i].key.text]) {
          ShownIsCanonical(entries[i].value, json.members[entries[i].key.text]);
        }
        MembersArise(v, |entries|);
        MembersHold(v, |entries|);
        ShownMembers(v, CanonicalMembers(v, |entries|).value, json.members);
      case _ =>
    }
  }

  lemma {:induction false} ShownMembers(v: Raw, m: map<string, Json>, n: map<string, Json>)
    requires v.RMapping? && HoldsMembers(v, |v.entries|, m)
    requires forall i :: 0 <= i < |v.entries| ==>
      v.entries[i].key.TextKey? && v.entries[i].key.text in n && Canonical(v.entries[i].value) == Some(n[v.entries[i].key.text])
    requires forall k :: k in n ==> exists i :: 0 <= i < |v.entries| && v.entries[i].key == TextKey(k)
    ensures m == n
  {
    forall k | k in m ensures k in n && m[k] == n[k] {
      var i :| 0 <= i < |v.entries| && v.entries[i].key == TextKey(k);
    }
    forall k | k in n ensures k in m {
      var i :| 0 <= i < |v.entries| && v.entries[i].key == TextKey(k);
    }
    SameMapping(m, n);
  }

  /** The canonical form exists exactly when something shows the data, and is that. */
  lemma {:induction false} CanonicalExactly(v: Raw, json: Json)
    requires KeysDistinct(v)
    ensures Canonical(v) == Some(json) <==> Shows(v, json)
  {
    if Canonical(v) == Some(json) { CanonicalShows(v); }
    if Shows(v, json) { ShownIsCanonical(v, json); }
  }

  predicate NamesSchema(entry: Member) {
    && entry.key.TextKey? && entry.key.text == "schema_version" && entry.value.RText?
    && exists i :: 0 <= i < |entry.value.s| && !IsWhite(entry.value.s[i])
  }

  lemma {:induction false} SchemaExactly(payload: Raw)
    ensures HasSchema(payload)
      <==> payload.RMapping? && exists i :: 0 <= i < |payload.entries| && NamesSchema(payload.entries[i])
  {
    if payload.RMapping? {
      forall i | 0 <= i < |payload.entries| ensures NamesSchema(payload.entries[i]) <==> IsSchema(payload.entries[i]) {
        if payload.entries[i].value.RText? { StripLeavesSomething(payload.entries[i].value.s); }
      }
    }
  }

  /** A fingerprint is taken exactly of a mapping that names its schema version by a text
      that is not blank and that something shows; it is the digest of the encoding. */
  lemma {:induction false} FingerprintsExactly(payload: Raw, json: Json)
    requires KeysDistinct(payload)
    ensures Fingerprint(payload).Some? ==> HasSchema(payload)
    ensures Fingerprint(payload).Some? ==> Canonical(payload).Some? && Shows(payload, Canonical(payload).value)
    ensures HasSchema(payload) && Shows(payload, json) ==> Fingerprint(payload) == Some(Sha256(Encode(json)))
  {
    if Canonical(payload).Some? { CanonicalShows(payload); }
    if Shows(payload, json) { ShownIsCanonical(payload, json); }
  }
}
