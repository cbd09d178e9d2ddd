/** The canonical bytes in which results are stored: accepted scalar trees, their
    encoding, and the strict decoder. Text stands for bytes: UTF-8 is a bijection
    on the strings that occur. */
module CanonicalCodec {
  import opened Basics
  import opened JsonText
  import opened JsonGrammar
  import opened JsonScanner
  import opened JsonWriter

  /** `_check_scalars`: finite floats in canonical text and no negative zero. */
  predicate CheckScalars(v: Json, read: FloatReader) {
    match v
    case JFloat(text) => read(text) == Some(text) && text != "-0.0"
    case JArray(items) => forall i :: 0 <= i < |items| ==> CheckScalars(items[i], read)
    case JObject(members) => forall k :: k in members ==> CheckScalars(members[k], read)
    case _ => true
  }

  /** `text` is a float somewhere in the tree. */
  ghost predicate HasFloat(v: Json, text: string) {
    match v
    case JFloat(t) => t == text
    case JArray(items) => exists i :: 0 <= i < |items| && HasFloat(items[i], text)
    case JObject(members) => exists k :: k in members && HasFloat(members[k], text)
    case _ => false
  }

  /** Every float at any depth is canonical and none is the negative zero. */
  lemma {:induction false} ChecksExactly(v: Json, read: FloatReader)
    ensures CheckScalars(v, read) <==> forall text :: HasFloat(v, text) ==> read(text) == Some(text) && text != "-0.0"
  {
    match v {
      case JArray(items) =>
        forall i | 0 <= i < |items|
          ensures CheckScalars(items[i], read)
            <==> forall text :: HasFloat(items[i], text) ==> read(text) == Some(text) && text != "-0.0"
        {
          ChecksExactly(items[i], read);
        }
        if !CheckScalars(v, read) {
          var i :| 0 <= i < |items| && !CheckScalars(items[i], read);
          var text :| HasFloat(items[i], text) && !(read(text) == Some(text) && text != "-0.0");
          assert HasFloat(v, text);
        }
      case JObject(members) =>
        forall k | k in members
          ensures CheckScalars(members[k], read)
            <==> forall text :: HasFloat(members[k], text) ==> read(text) == Some(text) && text != "-0.0"
        {
          ChecksExactly(members[k], read);
        }
        if !CheckScalars(v, read) {
          var k :| k in members && !CheckScalars(members[k], read);
          var text :| HasFloat(members[k], text) && !(read(text) == Some(text) && text != "-0.0");
          assert HasFloat(v, text);
        }
      case JFloat(text) => assert HasFloat(v, text);
      case _ =>
    }
  }

  lemma {:induction false} CheckedIsReadable(v: Json, read: FloatReader)
    requires CheckScalars(v, read)
    ensures Readable(v, read)
  {
    match v {
      case JArray(items) =>
        forall i | 0 <= i < |items| ensures Readable(items[i], read) { CheckedIsReadable(items[i], read); }
      case JObject(members) =>
        forall k | k in members ensures Readable(members[k], read) { CheckedIsReadable(members[k], read); }
      case _ =>
    }
  }

  function CanonicalText(v: Json, read: FloatReader): Option<string> {
    if CheckScalars(v, read) then Some(Encode(v)) else None
  }

  /** `_decode_result`: parse, then compare the canonical text of what was parsed. */
  function Decode(fact: string, read: FloatReader): Option<Json> {
    match Loads(fact, read)
    case None => None
    case Some(value) => if value.JObject? && CanonicalText(value, read) == Some(fact) then Some(value) else None
  }

  // ---- The codec laws ----

  /** What is written is read back, whatever follows that cannot go on with a number. */
  lemma {:induction false} ParseEncoded(v: Json, rest: string, read: FloatReader)
    requires SoundReader(read) && Readable(v, read) && Stops(rest)
    ensures ParseValue(Encode(v) + rest, read) == Parsed(v, rest)
  {
    var t := EncodedIsSpelled(v, read);
    SpelledIsRead(t, rest, read);
  }

  lemma {:induction false} LoadsEncoded(v: Json, read: FloatReader)
    requires SoundReader(read) && Readable(v, read)
    ensures Loads(Encode(v), read) == Some(v)
  {
    var t := EncodedIsSpelled(v, read);
    SyntaxIsLoaded("", t, "", v, read);
    assert "" + (Spell(t) + "") == Encode(v);
  }

  /** Decoding an encoded projection gives it back. */
  lemma {:induction false} DecodeEncode(v: Json, read: FloatReader)
    requires SoundReader(read) && CheckScalars(v, read) && v.JObject?
    ensures Decode(Encode(v), read) == Some(v)
  {
    CheckedIsReadable(v, read);
    LoadsEncoded(v, read);
  }

  /** The decoder accepts a text exactly when it is the encoder's output for an
      accepted dictionary: every other spelling of the same content is refused. */
  lemma {:induction false} DecoderAcceptsExactlyCanonical(fact: string, read: FloatReader)
    requires SoundReader(read)
    ensures Decode(fact, read).Some?
       <==> exists v: Json :: v.JObject? && CheckScalars(v, read) && Encode(v) == fact
  {
    if v: Json :| v.JObject? && CheckScalars(v, read) && Encode(v) == fact {
      DecodeEncode(v, read);
    }
  }

  /** The same without the encoder: a stored text is decoded as a dictionary exactly when it
      is the compact JSON text that denotes the dictionary, all its floats checked. */
  lemma {:induction false} DecodesExactly(fact: string, v: Json, read: FloatReader)
    requires SoundReader(read)
    ensures Decode(fact, read) == Some(v) <==>
      && v.JObject? && (forall text :: HasFloat(v, text) ==> read(text) == Some(text) && text != "-0.0")
      && exists t: Syntax :: WellFormed(t) && Compact(t, read) && Spell(t) == fact && Meaning(t, read) == Some(v)
  {
    ChecksExactly(v, read);
    if v.JObject? && CheckScalars(v, read) {
      CheckedIsReadable(v, read);
      EncodesExactly(fact, v, read);
      DecodeEncode(v, read);
    }
  }

  /** Equal text means equal content, for every tree that can be read back; accepted
      trees are among them. */
  lemma {:induction false} EncodeIsInjective(v: Json, w: Json, read: FloatReader)
    requires SoundReader(read) && Readable(v, read) && Readable(w, read)
    requires Encode(v) == Encode(w)
    ensures v == w
  {
    LoadsEncoded(v, read);
    LoadsEncoded(w, read);
  }
}
