/** Names that every model shares. */
module Basics {
  datatype Option<+T> = None | Some(value: T)

  type Instant = int

  /** A governed technical artifact reference. */
  datatype Artifact = Artifact(id: string, version: string, fingerprint: string)

  predicate SameVersion(a: Artifact, b: Artifact) {
    a.id == b.id && a.version == b.version
  }

  /** Every anchored field still holds what it held when it was anchored. */
  predicate Holds<K, V(==)>(anchors: map<K, V>, fields: map<K, V>) {
    forall k :: k in anchors ==> k in fields && fields[k] == anchors[k]
  }

  lemma {:induction false} Regroup<T>(a: seq<T>, b: seq<T>, c: seq<T>)
    ensures (a + b) + c == a + (b + c)
  {
  }
}

/** The source's exceptions as values. */
module Results {
  datatype Result<+T, +R> = Ok(value: T) | Refused(reason: R)
}
