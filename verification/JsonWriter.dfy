/** What the writer puts down: the one spelling of a value without spaces, with keys in code
    point order and only the escapes that are needed. */
module JsonWriter {
  import opened Basics
  import opened JsonText
  import opened JsonGrammar
  import opened JsonScanner

  /** A number with a fraction or an exponent. */
  ghost predicate IsFloatText(t: string) {
    exists n: Syntax :: n.Number? && WellFormed(n) && (n.fraction != "" || n.exponent != "") && Spell(n) == t
  }

  /** The reader is the identity on canonical texts, and those are float literals. */
  ghost predicate SoundReader(read: FloatReader) {
    forall t :: read(t).Some? ==> IsFloatText(read(t).value) && read(read(t).value) == read(t)
  }

  /** Trees whose floats are written in canonical text; what the scanner can read back. */
  predicate Readable(v: Json, read: FloatReader) {
    match v
    case JFloat(text) => read(text) == Some(text)
    case JArray(items) => forall i :: 0 <= i < |items| ==> Readable(items[i], read)
    case JObject(members) => forall k :: k in members ==> Readable(members[k], read)
    case _ => true
  }

  // ---- Compact syntax ----

  /** The escapes that are needed, in their shortest form. */
  predicate IsNeeded(u: Unit) {
    match u
    case Plain(_) => true
    case Short(letter) => letter != '/'
    case Code(hex) =>
      && |hex| == 4 && hex[0] == '0' && hex[1] == '0' && (hex[2] == '0' || hex[2] == '1')
      && !(0x41 <= hex[3] as int <= 0x46) && !(hex[2] == '0' && hex[3] in {'8', '9', 'a', 'c', 'd'})
  }

  predicate AreNeeded(units: seq<Unit>) {
    forall i :: 0 <= i < |units| ==> IsNeeded(units[i])
  }

  /** `a` comes before `b`: a proper prefix, or smaller at the first difference. */
  ghost predicate ComesBefore(a: string, b: string) {
    exists n :: 0 <= n <= |a| && n < |b| && a[..n] == b[..n] && (n == |a| || a[n] as int < b[n] as int)
  }

  ghost predicate Compact(t: Syntax, read: FloatReader) {
    match t
    case Number(minus, whole, fraction, exponent) =>
      if fraction == "" && exponent == "" then minus ==> whole != "0" else read(Spell(t)) == Some(Spell(t))
    case Text(units) => AreNeeded(units)
    case EmptyArray(space) => space == ""
    case Array(elements) => CompactElements(elements, read)
    case EmptyObject(space) => space == ""
    case Object(fields) => CompactFields(fields, read)
    case _ => true
  }

  ghost predicate CompactElements(e: Elements, read: FloatReader) {
    match e
    case NoElement => true
    case Element(before, value, after, rest) =>
      before == "" && Compact(value, read) && after == "" && CompactElements(rest, read)
  }

  ghost predicate CompactFields(f: Fields, read: FloatReader) {
    match f
    case NoField => true
    case Field(before, key, middle, between, value, after, rest) =>
      && before == "" && AreNeeded(key) && middle == "" && between == "" && Compact(value, read) && after == ""
      && CompactFields(rest, read) && (rest.Field? ==> KeysAscend(key, rest.key))
  }

  ghost predicate KeysAscend(a: seq<Unit>, b: seq<Unit>) {
    && AreUnits(a) && AreUnits(b) && UnitsMean(a).Some? && UnitsMean(b).Some?
    && ComesBefore(UnitsMean(a).value, UnitsMean(b).value)
  }

  // ---- Key order ----

  lemma {:induction false} OrderIsByCodePoint(a: string, b: string)
    ensures StrLeq(a, b) && a != b <==> ComesBefore(a, b)
  {
    if a == "" {
      if b != "" { assert a[..0] == b[..0]; }
    } else if b != "" {
      if a[0] == b[0] {
        OrderIsByCodePoint(a[1..], b[1..]);
        SameHead(a, b);
      } else {
        assert a[..0] == b[..0];
        if ComesBefore(a, b) { HeadsOrdered(a, b); }
      }
    }
  }

  lemma {:induction false} HeadsOrdered(a: string, b: string)
    requires ComesBefore(a, b) && a != ""
    ensures a[0] <= b[0]
  {
    var n :| 0 <= n <= |a| && n < |b| && a[..n] == b[..n] && (n == |a| || a[n] as int < b[n] as int);
    if n > 0 {
      assert a[..n][0] == a[0] && b[..n][0] == b[0];
    }
  }

  lemma {:induction false} SameHead(a: string, b: string)
    requires a != "" && b != "" && a[0] == b[0]
    ensures ComesBefore(a, b) <==> ComesBefore(a[1..], b[1..])
    ensures a == b <==> a[1..] == b[1..]
  {
    var s, t := a[1..], b[1..];
    assert a == [a[0]] + s && b == [b[0]] + t;
    if ComesBefore(a, b) {
      var n :| 0 <= n <= |a| && n < |b| && a[..n] == b[..n] && (n == |a| || a[n] as int < b[n] as int);
      assert n > 0;
      assert s[..n - 1] == a[..n][1..] && t[..n - 1] == b[..n][1..];
      assert n == |a| || s[n - 1] as int < t[n - 1] as int;
    }
    if ComesBefore(s, t) {
      var n :| 0 <= n <= |s| && n < |t| && s[..n] == t[..n] && (n == |s| || s[n] as int < t[n] as int);
      assert a[..n + 1] == [a[0]] + s[..n] && b[..n + 1] == [b[0]] + t[..n];
      assert n + 1 == |a| || a[n + 1] as int < b[n + 1] as int;
    }
  }

  // ---- Strings ----

  function LowerHex(d: int): char
    requires 0 <= d < 16
  {
    (if d < 10 then 0x30 + d else 0x61 + d - 10) as char
  }

  /** The unit that is written for a character. */
  function UnitOf(c: char): Unit {
    var n := c as int;
    if n == 0x22 || n == 0x5C then Short(c)
    else if n == 0x0A then Short('n')
    else if n == 0x0D then Short('r')
    else if n == 0x09 then Short('t')
    else if n == 0x08 then Short('b')
    else if n == 0x0C then Short('f')
    else if n < 0x20 then Code(['0', '0', LowerHex(n / 16), LowerHex(n % 16)])
    else Plain(c)
  }

  lemma {:induction false} UnitOfWrites(c: char)
    ensures IsUnit(UnitOf(c)) && IsNeeded(UnitOf(c)) && SpellUnit(UnitOf(c)) == EscapeChar(c)
    ensures UnitOf(c).Plain? ==> UnitOf(c).c == c
    ensures UnitOf(c).Short? ==> SHORT_ESCAPES[UnitOf(c).letter] == c as int
    ensures UnitOf(c).Code? ==> CodeUnit(UnitOf(c).hex) == c as int < 0x20
  {
  }

  function UnitsOf(s: string): (units: seq<Unit>)
    ensures |units| == |s|
  {
    if s == "" then [] else [UnitOf(s[0])] + UnitsOf(s[1..])
  }

  lemma {:induction false} UnitsOfWrite(s: string)
    ensures AreUnits(UnitsOf(s)) && AreNeeded(UnitsOf(s)) && SpellUnits(UnitsOf(s)) == Escape(s)
    ensures UnitsMean(UnitsOf(s)) == Some(s)
  {
    if s != "" {
      var u, more := UnitOf(s[0]), UnitsOf(s[1..]);
      UnitOfWrites(s[0]);
      UnitsOfWrite(s[1..]);
      assert UnitsOf(s) == [u] + more && (UnitsOf(s))[1..] == more;
      match u {
        case Plain(c) => PlainMeans(c, more);
        case Short(letter) => ShortMeans(letter, more);
        case Code(_) => CodeMeans(u, more);
      }
      assert [s[0]] + s[1..] == s;
    }
  }

  lemma {:induction false} QuoteIsQuoted(s: string)
    ensures Quoted(UnitsOf(s)) == Quote(s)
  {
    UnitsOfWrite(s);
  }

  // ---- Numbers ----

  lemma {:induction false} NatTextIsWhole(n: nat)
    ensures IsWhole(NatText(n)) && PlaceValue(NatText(n)) == n && (NatText(n) == "0" <==> n == 0)
  {
    if n < 10 {
      assert NatText(n)[1..] == "" && Power(10, 0) == 1;
    } else {
      var front := NatText(n / 10);
      NatTextIsWhole(n / 10);
      PlaceValueOfMore(front, DigitChar(n % 10));
      assert NatText(n) == front + [DigitChar(n % 10)] && NatText(n)[0] == front[0];
    }
  }

  lemma {:induction false} IntIsSpelled(i: int, read: FloatReader) returns (t: Syntax)
    ensures t.Number? && WellFormed(t) && Compact(t, read) && Spell(t) == IntText(i) && Meaning(t, read) == Some(JInt(i))
  {
    var n := if i < 0 then -i else i;
    NatTextIsWhole(n);
    t := Number(i < 0, NatText(n), "", "");
  }

  lemma {:induction false} FloatIsSpelled(text: string, read: FloatReader) returns (t: Syntax)
    requires SoundReader(read) && read(text) == Some(text)
    ensures t.Number? && WellFormed(t) && Compact(t, read) && Spell(t) == text && Meaning(t, read) == Some(JFloat(text))
  {
    assert IsFloatText(read(text).value);
    t :| t.Number? && WellFormed(t) && (t.fraction != "" || t.exponent != "") && Spell(t) == text;
  }

  // ---- Values ----

  /** What the writer puts down for a readable value is the spelling of a compact tree that
      denotes the value. */
  lemma {:induction false} EncodedIsSpelled(v: Json, read: FloatReader) returns (t: Syntax)
    requires SoundReader(read) && Readable(v, read)
    ensures WellFormed(t) && Compact(t, read) && Spell(t) == Encode(v) && Meaning(t, read) == Some(v)
    decreases v, 1, 0
  {
    match v {
      case JNull => t := NullWord;
      case JBool(b) => t := if b then TrueWord else FalseWord;
      case JInt(i) => t := IntIsSpelled(i, read);
      case JFloat(text) => t := FloatIsSpelled(text, read);
      case JString(s) =>
        UnitsOfWrite(s);
        t := Text(UnitsOf(s));
      case JArray(items) =>
        if items == [] {
          t := EmptyArray("");
        } else {
          var e := ItemsAreSpelled(v, 0, read);
          t := Array(e);
          assert v.items[0..] == items;
        }
      case JObject(_) => t := ObjectIsSpelled(v, read);
    }
  }

  lemma {:induction false} ItemsAreSpelled(v: Json, from: nat, read: FloatReader) returns (e: Elements)
    requires v.JArray? && from < |v.items| && SoundReader(read) && Readable(v, read)
    ensures e.Element? && ElementsFormed(e) && CompactElements(e, read) && SpellElements(e) == EncodeItems(v, from)
    ensures ElementsMean(e, read) == Some(v.items[from..])
    decreases v, 0, |v.items| - from
  {
    var item := v.items[from];
    var value := EncodedIsSpelled(item, read);
    FirstItem(v.items, from);
    if from + 1 == |v.items| {
      e := ElementIsLast(value, item, "", read);
      ItemText(Encode(item), "");
    } else {
      var next := ItemsAreSpelled(v, from + 1, read);
      e := ElementGoesBefore(value, item, "", next, v.items[from + 1..], read);
      ItemText(Encode(item), "," + EncodeItems(v, from + 1));
    }
  }

  lemma {:induction false} FirstItem(items: seq<Json>, from: nat)
    requires from < |items|
    ensures items[from..] == [items[from]] + items[from + 1..]
    ensures from + 1 == |items| ==> items[from..] == [items[from]]
  {
  }

  lemma {:induction false} ItemText(value: string, more: string)
    ensures "" + (value + ("" + more)) == value + more
  {
  }

  lemma {:induction false} ObjectIsSpelled(v: Json, read: FloatReader) returns (t: Syntax)
    requires v.JObject? && SoundReader(read) && Readable(v, read)
    ensures WellFormed(t) && Compact(t, read) && Spell(t) == Encode(v) && Meaning(t, read) == Some(v)
    decreases v, 0, |v.members| + 1
  {
    var keys := SortedKeys(v.members.Keys);
    SortedKeysAscend(v.members.Keys);
    SortedKeysLength(v.members.Keys);
    if keys == [] {
      t := EmptyObject("");
      NoMembers(v.members);
    } else {
      var f := MembersAreSpelled(v, keys, read);
      t := Object(f);
      AllRestricted(v.members, keys);
    }
  }

  lemma {:induction false} NoMembers(members: map<string, Json>)
    requires forall k :: k !in members.Keys
    ensures members == map[]
  {
  }

  lemma {:induction false} AllRestricted(members: map<string, Json>, keys: seq<string>)
    requires forall k :: k in keys <==> k in members.Keys
    ensures Restrict(members, keys) == members
  {
  }

  lemma {:induction false} SortedKeysLength(keys: set<string>)
    ensures |SortedKeys(keys)| == |keys|
    decreases |keys|
  {
    if keys != {} {
      var k := Least(keys);
      assert keys == (keys - {k}) + {k};
      SortedKeysLength(keys - {k});
    }
  }

  function Restrict(members: map<string, Json>, keys: seq<string>): map<string, Json>
    requires forall k :: k in keys ==> k in members
  {
    map k | k in keys :: members[k]
  }

  lemma {:induction false} MembersAreSpelled(v: Json, keys: seq<string>, read: FloatReader) returns (f: Fields)
    requires v.JObject? && SoundReader(read) && Readable(v, read) && StrictlyAscending(keys)
    requires keys != [] && |keys| <= |v.members| && forall k :: k in keys ==> k in v.members
    ensures f.Field? && FieldsFormed(f) && CompactFields(f, read) && SpellFields(f) == EncodeMembers(v, keys)
    ensures FieldsMean(f, read) == Some(Restrict(v.members, keys)) && f.key == UnitsOf(keys[0])
    decreases v, 0, |keys|
  {
    var key, rest := keys[0], keys[1..];
    var value := EncodedIsSpelled(v.members[key], read);
    UnitsOfWrite(key);
    FirstMember(v.members, keys);
    if rest == [] {
      f := FieldIsLast(UnitsOf(key), key, "", "", value, v.members[key], "", read);
      MemberText(Quote(key), Encode(v.members[key]), "");
    } else {
      var next := MembersAreSpelled(v, rest, read);
      f := FieldGoesBefore(UnitsOf(key), key, "", "", value, v.members[key], "", next, Restrict(v.members, rest), read);
      MemberText(Quote(key), Encode(v.members[key]), "," + EncodeMembers(v, rest));
      UnitsOfWrite(rest[0]);
      OrderIsByCodePoint(key, rest[0]);
    }
  }

  lemma {:induction false} MemberText(key: string, value: string, more: string)
    ensures "" + ((key + ("" + (":" + ("" + value)))) + ("" + more)) == key + ":" + value + more
  {
  }

  lemma {:induction false} FirstMember(members: map<string, Json>, keys: seq<string>)
    requires StrictlyAscending(keys) && keys != [] && forall k :: k in keys ==> k in members
    ensures Restrict(members, keys) == map[keys[0] := members[keys[0]]] + Restrict(members, keys[1..])
    ensures |keys| == 1 ==> Restrict(members, keys) == map[keys[0] := members[keys[0]]]
  {
    assert forall k :: k in keys <==> k == keys[0] || k in keys[1..];
  }

  // ---- The compact spelling is the only one ----

  lemma {:induction false} NeededIsWritten(u: Unit)
    requires IsUnit(u) && IsNeeded(u)
    ensures u.Plain? ==> u == UnitOf(u.c)
    ensures u.Short? ==> u == UnitOf(SHORT_ESCAPES[u.letter] as char)
    ensures u.Code? ==> 0 <= CodeUnit(u.hex) < 0x20 && u == UnitOf(CodeUnit(u.hex) as char)
  {
    if u.Code? {
      assert IsHexadecimal(u.hex[2]) && IsHexadecimal(u.hex[3]);
      assert u.hex == ['0', '0', u.hex[2], u.hex[3]];
    }
  }

  lemma {:induction false} NeededUnitsAreWritten(units: seq<Unit>, s: string)
    requires AreUnits(units) && AreNeeded(units) && UnitsMean(units) == Some(s)
    ensures units == UnitsOf(s)
    decreases |units|
  {
    if units != [] {
      var u, more := units[0], units[1..];
      assert IsUnit(u) && IsNeeded(u) && AreUnits(more) && AreNeeded(more) && [u] + more == units;
      NeededIsWritten(u);
      match u {
        case Plain(c) => PlainMeans(c, more);
        case Short(letter) => ShortMeans(letter, more);
        case Code(_) => CodeMeans(u, more);
      }
      NeededUnitsAreWritten(more, s[1..]);
    }
  }

  lemma {:induction false} WholeIsNatText(s: string)
    requires IsWhole(s)
    ensures PlaceValue(s) >= 0 && NatText(PlaceValue(s)) == s && (PlaceValue(s) == 0 ==> s == "0")
  {
    var n := |s| - 1;
    var front, last := s[..n], s[n];
    assert s == front + [last];
    PlaceValueOfMore(front, last);
    if n == 0 {
      assert front == "" && PlaceValue(front) == 0;
    } else {
      assert front[0] == s[0] && s[0] != '0';
      WholeIsNatText(front);
      var high := PlaceValue(front);
      assert high > 0;
      assert PlaceValue(s) == 10 * high + DigitValue(last);
    }
  }

  lemma {:induction false} CompactNumberIsEncoded(t: Syntax, v: Json, read: FloatReader)
    requires t.Number? && WellFormed(t) && Compact(t, read) && Meaning(t, read) == Some(v)
    ensures Spell(t) == Encode(v)
  {
    if t.fraction == "" && t.exponent == "" {
      WholeIsNatText(t.whole);
    }
  }

  /** A compact tree spells what the writer puts down for its meaning. */
  lemma {:induction false} CompactIsEncoded(t: Syntax, v: Json, read: FloatReader)
    requires WellFormed(t) && Compact(t, read) && Meaning(t, read) == Some(v)
    ensures Spell(t) == Encode(v)
    decreases t, 1
  {
    match t {
      case Number(_, _, _, _) => CompactNumberIsEncoded(t, v, read);
      case Text(units) =>
        NeededUnitsAreWritten(units, v.s);
        QuoteIsQuoted(v.s);
      case Array(elements) => CompactElementsAreEncoded(elements, v, 0, read);
      case Object(fields) => CompactObjectIsEncoded(t, v, read);
      case EmptyObject(_) => assert SortedKeys(v.members.Keys) == [];
      case _ =>
    }
  }

  lemma {:induction false} CompactElementsAreEncoded(e: Elements, v: Json, from: nat, read: FloatReader)
    requires e.Element? && ElementsFormed(e) && CompactElements(e, read) && v.JArray? && from <= |v.items|
    requires ElementsMean(e, read) == Some(v.items[from..])
    ensures from < |v.items| && SpellElements(e) == EncodeItems(v, from)
    decreases e, 0
  {
    var item, more := ElementsMeanStep(e, read);
    ItemsLeft(v.items, from, item, more);
    CompactIsEncoded(e.value, item, read);
    if e.rest.Element? {
      CompactElementsAreEncoded(e.rest, v, from + 1, read);
      ItemText(Encode(item), "," + EncodeItems(v, from + 1));
    } else {
      ItemText(Encode(item), "");
    }
  }

  lemma {:induction false} ItemsLeft(items: seq<Json>, from: nat, item: Json, more: seq<Json>)
    requires from <= |items| && items[from..] == [item] + more
    ensures from < |items| && items[from] == item && items[from + 1..] == more
    ensures more == [] ==> from + 1 == |items|
  {
    var left := items[from..];
    assert |left| == 1 + |more| && left[0] == item && left[1..] == more;
  }

  /** The keys of the members, in order. */
  function KeysOf(f: Fields): seq<string>
    requires FieldsFormed(f)
  {
    match f
    case NoField => []
    case Field(_, key, _, _, _, _, rest) =>
      (match UnitsMean(key) case None => [] case Some(name) => [name] + KeysOf(rest))
  }

  lemma {:induction false} CompactKeysAscend(f: Fields, read: FloatReader)
    requires FieldsFormed(f) && CompactFields(f, read) && FieldsMean(f, read).Some?
    ensures StrictlyAscending(KeysOf(f)) && forall k :: k in KeysOf(f) <==> k in FieldsMean(f, read).value
    decreases f
  {
    if f.Field? {
      var name, item, more := FieldsMeanStep(f, read);
      CompactKeysAscend(f.rest, read);
      assert forall k :: k in KeysOf(f) <==> k == name || k in KeysOf(f.rest);
      if f.rest.Field? {
        var next, _, _ := FieldsMeanStep(f.rest, read);
        OrderIsByCodePoint(name, next);
        FirstBeforeAll(name, KeysOf(f.rest));
        PrependLeast(name, KeysOf(f.rest));
      }
    }
  }

  lemma {:induction false} FirstBeforeAll(k: string, ks: seq<string>)
    requires StrictlyAscending(ks) && ks != [] && StrLeq(k, ks[0]) && k != ks[0]
    ensures forall x :: x in ks ==> StrLeq(k, x) && x != k
  {
    forall x | x in ks ensures StrLeq(k, x) && x != k {
      var i :| 0 <= i < |ks| && ks[i] == x;
      if i > 0 {
        StrLeqTransitive(k, ks[0], x);
        if x == k { StrLeqTotal(k, ks[0]); }
      }
    }
  }

  /** Ascending keys are the sorted keys. */
  lemma {:induction false} AscendingIsSorted(ks: seq<string>, keys: set<string>)
    requires StrictlyAscending(ks) && forall k :: k in ks <==> k in keys
    ensures ks == SortedKeys(keys)
    decreases |ks|
  {
    if ks == [] {
      assert keys == {} by { assert forall k :: k !in keys; }
    } else {
      var k, rest := ks[0], ks[1..];
      assert ks == [k] + rest;
      StrLeqTotal(k, k);
      forall j | j in keys ensures StrLeq(k, j) {
        var i :| 0 <= i < |ks| && ks[i] == j;
      }
      assert IsLeast(k, keys);
      LeastIsUnique(k, Least(keys), keys);
      assert k !in rest;
      AscendingIsSorted(rest, keys - {k});
    }
  }

  lemma {:induction false} CompactObjectIsEncoded(t: Syntax, v: Json, read: FloatReader)
    requires t.Object? && WellFormed(t) && Compact(t, read) && Meaning(t, read) == Some(v)
    ensures Spell(t) == Encode(v)
    decreases t, 0
  {
    var f := t.fields;
    CompactKeysAscend(f, read);
    AscendingIsSorted(KeysOf(f), v.members.Keys);
    CompactFieldsAreEncoded(f, v, read);
  }

  lemma {:induction false} CompactFieldsAreEncoded(f: Fields, v: Json, read: FloatReader)
    requires f.Field? && FieldsFormed(f) && CompactFields(f, read) && FieldsMean(f, read).Some? && v.JObject?
    requires forall k :: k in FieldsMean(f, read).value ==> k in v.members && v.members[k] == FieldsMean(f, read).value[k]
    ensures forall k :: k in KeysOf(f) ==> k in v.members
    ensures SpellFields(f) == EncodeMembers(v, KeysOf(f))
    decreases f, 0
  {
    var name, item, more := FieldsMeanStep(f, read);
    CompactKeysAscend(f, read);
    CompactKeysAscend(f.rest, read);
    NeededUnitsAreWritten(f.key, name);
    QuoteIsQuoted(name);
    assert KeysOf(f) == [name] + KeysOf(f.rest);
    assert name !in KeysOf(f.rest) by { NotAgain(name, KeysOf(f.rest)); }
    assert FieldsMean(f, read).value[name] == item;
    CompactIsEncoded(f.value, item, read);
    if f.rest.Field? {
      CompactFieldsAreEncoded(f.rest, v, read);
      MemberText(Quote(name), Encode(item), "," + EncodeMembers(v, KeysOf(f.rest)));
    } else {
      MemberText(Quote(name), Encode(item), "");
    }
  }

  lemma {:induction false} NotAgain(k: string, ks: seq<string>)
    requires StrictlyAscending([k] + ks)
    ensures k !in ks
  {
    forall i | 0 <= i < |ks| ensures ks[i] != k {
      assert ([k] + ks)[0] == k && ([k] + ks)[i + 1] == ks[i];
    }
  }

  /** A text is what the writer puts down for a readable value exactly when it is spelled by a
      compact tree that denotes the value. */
  lemma {:induction false} EncodesExactly(s: string, v: Json, read: FloatReader)
    requires SoundReader(read) && Readable(v, read)
    ensures s == Encode(v) <==> exists t: Syntax :: WellFormed(t) && Compact(t, read) && Spell(t) == s && Meaning(t, read) == Some(v)
  {
    var t := EncodedIsSpelled(v, read);
    if u: Syntax :| WellFormed(u) && Compact(u, read) && Spell(u) == s && Meaning(u, read) == Some(v) {
      CompactIsEncoded(u, v, read);
    }
  }
}
