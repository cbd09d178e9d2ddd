/** As-of answers: what a history reports about one artifact up to a knowledge cutoff. */
module AsOfHistory {
  import opened Basics
  import opened PublicationHistory

  type Relevance<!C> = Entry<C> -> bool

  predicate Visible<C>(item: Entry<C>, relevant: Relevance<C>, cutoff: Option<Instant>) {
    relevant(item) && (cutoff.None? || item.available <= cutoff.value)
  }

  /** The comprehension over the retained tuple. */
  function Select<C>(entries: seq<Entry<C>>, relevant: Relevance<C>, cutoff: Option<Instant>): seq<Entry<C>> {
    if entries == [] then []
    else
      var last := entries[|entries| - 1];
      Select(entries[..|entries| - 1], relevant, cutoff) + (if Visible(last, relevant, cutoff) then [last] else [])
  }

  function Insert<C>(item: Entry<C>, sorted: seq<Entry<C>>): seq<Entry<C>> {
    if sorted == [] || sorted[|sorted| - 1].sequence <= item.sequence then sorted + [item]
    else Insert(item, sorted[..|sorted| - 1]) + [sorted[|sorted| - 1]]
  }

  /** The stable sort by history sequence. */
  function SortBySequence<C>(items: seq<Entry<C>>): seq<Entry<C>> {
    if items == [] then [] else Insert(items[|items| - 1], SortBySequence(items[..|items| - 1]))
  }

  datatype Answer<C> = Corrupt | Conflict | Known(entries: seq<Entry<C>>)

  /** `_history`: validate, select, refuse an artifact identity with two references,
      sort. `exact` tells whether an entry carries the full requested reference. */
  method History<C>(namespace: string, entries: seq<Entry<C>>, relevant: Relevance<C>, exact: Relevance<C>, cutoff: Option<Instant>)
    returns (answer: Answer<C>)
    ensures answer ==
      if !Retained(namespace, entries) then Corrupt
      else if exists i :: 0 <= i < |entries| && Visible(entries[i], relevant, cutoff) && !exact(entries[i]) then Conflict
      else Known(Select(entries, relevant, cutoff))
  {
    var ok := ValidateRetained(namespace, entries);
    if !ok {
      return Corrupt;
    }
    var found := Select(entries, relevant, cutoff);
    SelectHolds(entries, relevant, cutoff);
    for i := 0 to |found|
      invariant forall j :: 0 <= j < i ==> exact(found[j])
    {
      if !exact(found[i]) {
        ghost var k :| 0 <= k < |entries| && entries[k] == found[i];
        return Conflict;
      }
    }
    assert forall i :: 0 <= i < |entries| && Visible(entries[i], relevant, cutoff) ==> entries[i] in found;
    SelectAscends(entries, relevant, cutoff);
    AscendingIsSorted(found);
    answer := Known(SortBySequence(found));
  }

  predicate Ascends<C>(items: seq<Entry<C>>) {
    forall i, j :: 0 <= i < j < |items| ==> items[i].sequence < items[j].sequence
  }

  lemma {:induction false} SelectHolds<C>(entries: seq<Entry<C>>, relevant: Relevance<C>, cutoff: Option<Instant>)
    ensures var s := Select(entries, relevant, cutoff);
      && (forall i :: 0 <= i < |s| ==> Visible(s[i], relevant, cutoff) && exists k :: 0 <= k < |entries| && entries[k] == s[i])
      && (forall k :: 0 <= k < |entries| && Visible(entries[k], relevant, cutoff) ==> entries[k] in s)
  {
    if entries != [] {
      var n := |entries| - 1;
      var front := entries[..n];
      SelectHolds(front, relevant, cutoff);
      var s := Select(entries, relevant, cutoff);
      var t := Select(front, relevant, cutoff);
      forall i | 0 <= i < |s|
        ensures Visible(s[i], relevant, cutoff) && exists k :: 0 <= k < |entries| && entries[k] == s[i]
      {
        if i < |t| {
          var k :| 0 <= k < |front| && front[k] == t[i];
          assert entries[k] == s[i];
        } else {
          assert entries[n] == s[i];
        }
      }
      forall k | 0 <= k < |entries| && Visible(entries[k], relevant, cutoff) ensures entries[k] in s {
        if k < n { assert front[k] in t; }
      }
    }
  }

  predicate Below<C>(items: seq<Entry<C>>, bound: int) {
    forall i :: 0 <= i < |items| ==> items[i].sequence < bound
  }

  lemma {:induction false} SelectBelow<C>(entries: seq<Entry<C>>, relevant: Relevance<C>, cutoff: Option<Instant>, bound: int)
    requires Below(entries, bound)
    ensures Below(Select(entries, relevant, cutoff), bound)
  {
    if entries != [] { SelectBelow(entries[..|entries| - 1], relevant, cutoff, bound); }
  }

  lemma {:induction false} SelectAscends<C>(entries: seq<Entry<C>>, relevant: Relevance<C>, cutoff: Option<Instant>)
    requires Ascends(entries)
    ensures Ascends(Select(entries, relevant, cutoff))
  {
    if entries != [] {
      SelectAscends(entries[..|entries| - 1], relevant, cutoff);
      SelectBelow(entries[..|entries| - 1], relevant, cutoff, entries[|entries| - 1].sequence);
    }
  }

  /** Sorting a selection from a validated history changes nothing. */
  lemma {:induction false} AscendingIsSorted<C>(items: seq<Entry<C>>)
    requires Ascends(items)
    ensures SortBySequence(items) == items
  {
    if items != [] {
      var front, last := items[..|items| - 1], items[|items| - 1];
      AscendingIsSorted(front);
      assert SortBySequence(items) == Insert(last, front);
      InsertLast(last, front);
    }
  }

  lemma {:induction false} InsertLast<C>(item: Entry<C>, sorted: seq<Entry<C>>)
    requires sorted != [] ==> sorted[|sorted| - 1].sequence <= item.sequence
    ensures Insert(item, sorted) == sorted + [item]
  {
  }

  predicate InSequence<C>(items: seq<Entry<C>>) {
    forall i, j :: 0 <= i < j < |items| ==> items[i].sequence <= items[j].sequence
  }

  predicate AtMost<C>(items: seq<Entry<C>>, bound: int) {
    forall i :: 0 <= i < |items| ==> items[i].sequence <= bound
  }

  lemma {:induction false} InsertKeepsBound<C>(item: Entry<C>, sorted: seq<Entry<C>>, bound: int)
    requires AtMost(sorted, bound) && item.sequence <= bound
    ensures AtMost(Insert(item, sorted), bound)
  {
    if sorted != [] && sorted[|sorted| - 1].sequence > item.sequence {
      InsertKeepsBound(item, sorted[..|sorted| - 1], bound);
    }
  }

  lemma {:induction false} InsertKeepsOrder<C>(item: Entry<C>, sorted: seq<Entry<C>>)
    requires InSequence(sorted)
    ensures InSequence(Insert(item, sorted))
  {
    if sorted != [] && sorted[|sorted| - 1].sequence > item.sequence {
      var front, last := sorted[..|sorted| - 1], sorted[|sorted| - 1];
      InsertKeepsOrder(item, front);
      InsertKeepsBound(item, front, last.sequence);
    }
  }

  lemma {:induction false} InsertKeepsItems<C>(item: Entry<C>, sorted: seq<Entry<C>>)
    ensures multiset(Insert(item, sorted)) == multiset(sorted) + multiset{item}
  {
    if sorted != [] && sorted[|sorted| - 1].sequence > item.sequence {
      InsertKeepsItems(item, sorted[..|sorted| - 1]);
      assert sorted == sorted[..|sorted| - 1] + [sorted[|sorted| - 1]];
    }
  }

  /** The sort keeps every entry and puts them in order, whatever they are. */
  lemma {:induction false} SortsExactly<C>(items: seq<Entry<C>>)
    ensures InSequence(SortBySequence(items)) && multiset(SortBySequence(items)) == multiset(items)
  {
    if items != [] {
      var front, last := items[..|items| - 1], items[|items| - 1];
      SortsExactly(front);
      InsertKeepsOrder(last, SortBySequence(front));
      InsertKeepsItems(last, SortBySequence(front));
      assert items == front + [last];
    }
  }

  // ---- Growth with the cutoff and with publications ----

  lemma {:induction false} SelectAppend<C>(a: seq<Entry<C>>, b: seq<Entry<C>>, relevant: Relevance<C>, cutoff: Option<Instant>)
    ensures Select(a + b, relevant, cutoff) == Select(a, relevant, cutoff) + Select(b, relevant, cutoff)
    decreases |b|
  {
    if b == [] {
      assert a + b == a;
    } else {
      var front := b[..|b| - 1];
      SelectAppend(a, front, relevant, cutoff);
      assert (a + b)[..|a + b| - 1] == a + front;
    }
  }

  /** Wherever an entry stands among others, it is kept in its place exactly when it is
      relevant and was available by the cutoff. */
  lemma {:induction false} SelectsExactly<C>(before: seq<Entry<C>>, item: Entry<C>, after: seq<Entry<C>>,
      relevant: Relevance<C>, cutoff: Option<Instant>)
    ensures Select([], relevant, cutoff) == []
    ensures Select(before + [item] + after, relevant, cutoff) == Select(before, relevant, cutoff)
      + (if relevant(item) && (cutoff == None || item.available <= cutoff.value) then [item] else [])
      + Select(after, relevant, cutoff)
  {
    SelectAppend(before + [item], after, relevant, cutoff);
    SelectAppend(before, [item], relevant, cutoff);
    assert [item][..0] == [];
  }

  lemma {:induction false} SameRelevance<C>(entries: seq<Entry<C>>, a: Relevance<C>, b: Relevance<C>, cutoff: Option<Instant>)
    requires forall i :: 0 <= i < |entries| ==> a(entries[i]) == b(entries[i])
    ensures Select(entries, a, cutoff) == Select(entries, b, cutoff)
  {
    if entries != [] { SameRelevance(entries[..|entries| - 1], a, b, cutoff); }
  }

  predicate NoneVisible<C>(entries: seq<Entry<C>>, relevant: Relevance<C>, cutoff: Option<Instant>) {
    forall i :: 0 <= i < |entries| ==> !Visible(entries[i], relevant, cutoff)
  }

  lemma {:induction false} SelectNothing<C>(entries: seq<Entry<C>>, relevant: Relevance<C>, cutoff: Option<Instant>)
    ensures Select(entries, relevant, cutoff) == [] <==> NoneVisible(entries, relevant, cutoff)
  {
    SelectHolds(entries, relevant, cutoff);
    var s := Select(entries, relevant, cutoff);
    if s != [] {
      var i :| 0 <= i < |entries| && entries[i] == s[0];
    }
  }

  /** Availability splits an ordered history: first everything known by the cutoff. */
  lemma {:induction false} CutPoint<C>(entries: seq<Entry<C>>, cutoff: Instant) returns (k: nat)
    requires AvailabilityOrdered(entries)
    ensures k <= |entries|
    ensures forall i :: 0 <= i < |entries| ==> (entries[i].available <= cutoff <==> i < k)
  {
    if entries == [] || entries[|entries| - 1].available <= cutoff {
      k := |entries|;
    } else {
      k := CutPoint(entries[..|entries| - 1], cutoff);
    }
  }

  lemma {:induction false} CutoffDropsNothing<C>(entries: seq<Entry<C>>, relevant: Relevance<C>, cutoff: Instant, later: Option<Instant>)
    requires forall i :: 0 <= i < |entries| ==> entries[i].available <= cutoff
    requires later.Some? ==> cutoff <= later.value
    ensures Select(entries, relevant, Some(cutoff)) == Select(entries, relevant, later)
  {
    if entries != [] { CutoffDropsNothing(entries[..|entries| - 1], relevant, cutoff, later); }
  }

  /** The later answer is the earlier one, and then what became visible after the cut. */
  lemma {:induction false} AnswersSplit<C>(entries: seq<Entry<C>>, relevant: Relevance<C>, cutoff: Instant, later: Option<Instant>)
    returns (k: nat)
    requires AvailabilityOrdered(entries) && (later.Some? ==> cutoff <= later.value)
    ensures k <= |entries| && forall i :: 0 <= i < |entries| ==> (entries[i].available <= cutoff <==> i < k)
    ensures Select(entries, relevant, later) == Select(entries, relevant, Some(cutoff)) + Select(entries[k..], relevant, later)
  {
    k := CutPoint(entries, cutoff);
    var early, rest := entries[..k], entries[k..];
    assert entries == early + rest;
    SelectAppend(early, rest, relevant, Some(cutoff));
    SelectAppend(early, rest, relevant, later);
    CutoffDropsNothing(early, relevant, cutoff, later);
    SelectNothing(rest, relevant, Some(cutoff));
  }

  /** An as-of answer is a prefix of the answer for any later cutoff, and of the whole
      history of the artifact (no cutoff). */
  lemma {:induction false} LaterCutoffExtends<C>(entries: seq<Entry<C>>, relevant: Relevance<C>, cutoff: Instant, later: Option<Instant>)
    requires AvailabilityOrdered(entries) && (later.Some? ==> cutoff <= later.value)
    ensures Select(entries, relevant, Some(cutoff)) <= Select(entries, relevant, later)
  {
    var k := AnswersSplit(entries, relevant, cutoff, later);
  }

  /** Nothing relevant became available after the cutoff and up to now. */
  predicate NothingBetween<C>(entries: seq<Entry<C>>, relevant: Relevance<C>, cutoff: Instant, now: Instant) {
    forall i :: 0 <= i < |entries| && relevant(entries[i]) ==> !(cutoff < entries[i].available <= now)
  }

  /** The two answers are equal exactly when nothing relevant became available in between. */
  lemma {:induction false} EqualAnswersExactly<C>(entries: seq<Entry<C>>, relevant: Relevance<C>, cutoff: Instant, now: Instant)
    requires AvailabilityOrdered(entries) && cutoff <= now
    ensures Select(entries, relevant, Some(cutoff)) == Select(entries, relevant, Some(now))
      <==> NothingBetween(entries, relevant, cutoff, now)
  {
    var k := AnswersSplit(entries, relevant, cutoff, Some(now));
    var rest := entries[k..];
    SelectNothing(rest, relevant, Some(now));
    assert |Select(entries, relevant, Some(now))|
        == |Select(entries, relevant, Some(cutoff))| + |Select(rest, relevant, Some(now))|;
    if i :| 0 <= i < |entries| && relevant(entries[i]) && cutoff < entries[i].available <= now {
      assert entries[i] == rest[i - k] && Visible(rest[i - k], relevant, Some(now));
    } else {
      assert forall j :: 0 <= j < |rest| ==> rest[j] == entries[k + j];
    }
  }

  /** Once any entry of the store is available after the cutoff, whatever is published
      later leaves the answer as it is. */
  lemma {:induction false} AnswerIsFrozen<C>(family: Family, namespace: string, st: State<C>, attempts: seq<Attempt<C>>,
      relevant: Relevance<C>, cutoff: Instant, at: nat)
    requires Sound(namespace, st) && at < |st.entries| && st.entries[at].available > cutoff
    ensures Select(AfterAll(family, namespace, st, attempts).entries, relevant, Some(cutoff))
         == Select(st.entries, relevant, Some(cutoff))
  {
    var end := AfterAll(family, namespace, st, attempts).entries;
    RunGrowsInOrder(family, namespace, st, attempts);
    var rest := end[|st.entries|..];
    assert end == st.entries + rest;
    SelectAppend(st.entries, rest, relevant, Some(cutoff));
    forall i | 0 <= i < |rest| ensures !Visible(rest[i], relevant, Some(cutoff)) {
      assert rest[i] == end[|st.entries| + i] && end[at] == st.entries[at];
    }
    SelectNothing(rest, relevant, Some(cutoff));
  }

  lemma {:induction false} RunGrowsInOrder<C>(family: Family, namespace: string, st: State<C>, attempts: seq<Attempt<C>>)
    requires Sound(namespace, st)
    ensures Extends(st, AfterAll(family, namespace, st, attempts))
    ensures AvailabilityOrdered(AfterAll(family, namespace, st, attempts).entries)
  {
    if family.Pinned? {
      PinnedRunStaysSound(namespace, st, attempts);
    } else {
      RunIsSoundIffIdsDistinct(family, namespace, st, attempts);
    }
  }

  /** Until then the answer is still open: a relevant publication available by the
      cutoff extends it by exactly that entry. */
  lemma {:induction false} AnswerIsOpen<C>(family: Family, namespace: string, st: State<C>, a: Attempt<C>,
      relevant: Relevance<C>, cutoff: Instant)
    requires Publishes(family, namespace, st, a)
    requires var published := Published(namespace, st, a); Visible(published, relevant, Some(cutoff))
    ensures Select(After(family, namespace, st, a).entries, relevant, Some(cutoff))
         == Select(st.entries, relevant, Some(cutoff)) + [Published(namespace, st, a)]
    ensures forall i :: 0 <= i < |st.entries| ==> st.entries[i].available <= cutoff
  {
    var entries, published := st.entries, Published(namespace, st, a);
    SelectAppend(entries, [published], relevant, Some(cutoff));
    AppendKeepsSound(family, namespace, st, a);
    var after := After(family, namespace, st, a).entries;
    forall i | 0 <= i < |entries| ensures entries[i].available <= cutoff {
      assert after[i] == entries[i] && after[|entries|] == published;
    }
  }

  // ---- The same answer after later publications ----

  /** Nothing that was added is visible at the cutoff. */
  predicate NoLateArrival<C>(before: seq<Entry<C>>, after: seq<Entry<C>>, relevant: Relevance<C>, cutoff: Instant) {
    forall i :: |before| <= i < |after| ==> !Visible(after[i], relevant, Some(cutoff))
  }

  /** An answer is found again exactly then. */
  lemma {:induction false} SameSelectionExactly<C>(before: seq<Entry<C>>, after: seq<Entry<C>>, relevant: Relevance<C>, cutoff: Instant)
    requires before <= after
    ensures Select(before, relevant, Some(cutoff)) == Select(after, relevant, Some(cutoff))
      <==> NoLateArrival(before, after, relevant, cutoff)
  {
    var added := after[|before|..];
    assert after == before + added;
    SelectAppend(before, added, relevant, Some(cutoff));
    SelectNothing(added, relevant, Some(cutoff));
    assert forall i :: |before| <= i < |after| ==> after[i] == added[i - |before|];
    assert forall i :: 0 <= i < |added| ==> added[i] == after[|before| + i];
    assert |Select(after, relevant, Some(cutoff))|
        == |Select(before, relevant, Some(cutoff))| + |Select(added, relevant, Some(cutoff))|;
  }

  /** One attempt adds something visible exactly when it publishes and its entry is. */
  lemma {:induction false} AppendedIsLast<C>(family: Family, namespace: string, st: State<C>, a: Attempt<C>,
      relevant: Relevance<C>, cutoff: Instant)
    ensures st.entries <= After(family, namespace, st, a).entries
    ensures NoLateArrival(st.entries, After(family, namespace, st, a).entries, relevant, cutoff)
       <==> !(Publishes(family, namespace, st, a) && Visible(Published(namespace, st, a), relevant, Some(cutoff)))
  {
    if Publishes(family, namespace, st, a) {
      assert After(family, namespace, st, a).entries[|st.entries|] == Published(namespace, st, a);
    }
  }

  lemma {:induction false} UntouchedHistory<C>(entries: seq<Entry<C>>, relevant: Relevance<C>, cutoff: Instant)
    ensures NoLateArrival(entries, entries, relevant, cutoff)
  {
  }
}
