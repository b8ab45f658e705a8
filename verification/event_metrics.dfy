/** build_kpis, parts 8 and 9: event_metrics_monthly and
    reporting_delay_bins. Both left-join the safety events with the fact
    table's (encounter_id, service_line, month) columns and count the joined
    rows per group; an event whose encounter is not in the facts gets NaN
    group columns and the group-by drops it. */
module EventMetrics {
  import opened Domain
  import opened Tables

  /** The fact columns an event is joined with. */
  datatype Link = Link(service: ServiceLine, month: Month)

  /** A row of the left merge: the event and the matched fact's columns, or
      None where pandas fills them with NaN. */
  datatype JoinedEvent = JoinedEvent(event: SafetyEvent, link: Option<Link>)

  datatype MetricKey = MetricKey(month: Month, service: ServiceLine, eventType: EventType)

  /** The reporting-delay categories of pd.cut over the right-closed bins
      (-1, 1], (1, 3], (3, 7], (7, 14], (14, 30], (30, 999]. */
  datatype DelayBin = Days0To1 | Days2To3 | Days4To7 | Days8To14 | Days15To30 | Days31Plus

  datatype DelayKey = DelayKey(month: Month, service: ServiceLine, bin: DelayBin)

  /** The bin edges, lowest first. */
  const DelayEdges: seq<int> := [-1, 1, 3, 7, 14, 30, 999]

  /** The position of a bin among the edges: it covers
      (DelayEdges[i], DelayEdges[i + 1]]. */
  function BinIndex(b: DelayBin): (i: nat)
    ensures i < 6
  {
    match b
    case Days0To1 => 0
    case Days2To3 => 1
    case Days4To7 => 2
    case Days8To14 => 3
    case Days15To30 => 4
    case Days31Plus => 5
  }

  /** The category label written to reporting_delay_bins. */
  function BinLabel(b: DelayBin): string
  {
    match b
    case Days0To1 => "0-1"
    case Days2To3 => "2-3"
    case Days4To7 => "4-7"
    case Days8To14 => "8-14"
    case Days15To30 => "15-30"
    case Days31Plus => "31+"
  }

  /** pd.cut of one delay: the bin whose right-closed interval holds it, or
      None (NaN) at or below the first edge and above the last. */
  function DelayBinOf(delay: int): (r: Option<DelayBin>)
    ensures r.Some? <==> DelayEdges[0] < delay <= DelayEdges[6]
    ensures r.Some? ==> DelayEdges[BinIndex(r.value)] < delay <= DelayEdges[BinIndex(r.value) + 1]
  {
    if delay <= -1 || delay > 999 then None
    else if delay <= 1 then Some(Days0To1)
    else if delay <= 3 then Some(Days2To3)
    else if delay <= 7 then Some(Days4To7)
    else if delay <= 14 then Some(Days8To14)
    else if delay <= 30 then Some(Days15To30)
    else Some(Days31Plus)
  }

  /** A delay inside a bin's interval lands in that bin and no other. */
  lemma DelayBinExact(delay: int, b: DelayBin)
    ensures DelayBinOf(delay) == Some(b) <==> DelayEdges[BinIndex(b)] < delay <= DelayEdges[BinIndex(b) + 1]
  {
  }

  /** The edges are right-closed: 1, 3, 7, 14 and 30 close their bins, a
      negative delay and one above 999 get no bin. */
  lemma DelayBinEdges()
    ensures DelayBinOf(0) == Some(Days0To1) && DelayBinOf(1) == Some(Days0To1)
    ensures DelayBinOf(2) == Some(Days2To3) && DelayBinOf(7) == Some(Days4To7)
    ensures DelayBinOf(8) == Some(Days8To14) && DelayBinOf(30) == Some(Days15To30)
    ensures DelayBinOf(31) == Some(Days31Plus) && DelayBinOf(999) == Some(Days31Plus)
    ensures DelayBinOf(-1) == None && DelayBinOf(1000) == None
  {
  }

  /** Different bins carry different labels. */
  lemma BinLabelsDistinct(b1: DelayBin, b2: DelayBin)
    ensures BinLabel(b1) == BinLabel(b2) <==> b1 == b2
  {
  }

  /** facts['encounter_id']. */
  function FactIds(facts: seq<EncounterFact>): (ids: seq<EncounterId>)
    ensures |ids| == |facts|
    ensures forall i :: 0 <= i < |facts| ==> ids[i] == facts[i].id
  {
    seq(|facts|, i requires 0 <= i < |facts| => facts[i].id)
  }

  function LinkOf(f: EncounterFact): Link
  {
    Link(f.service, FactMonth(f))
  }

  /** The joined columns of the fact rows with encounter id `id`, in fact
      order. */
  function LinksWithId(facts: seq<EncounterFact>, id: EncounterId): seq<Link>
  {
    if facts == [] then []
    else LinksWithId(facts[..|facts| - 1], id) +
         (if facts[|facts| - 1].id == id then [LinkOf(facts[|facts| - 1])] else [])
  }

  /** The left merge of one event: a row per matching fact, or one row
      with no fact. */
  function JoinOne(e: SafetyEvent, facts: seq<EncounterFact>): seq<JoinedEvent>
  {
    var links := LinksWithId(facts, e.encounter);
    if links == [] then [JoinedEvent(e, None)]
    else seq(|links|, i requires 0 <= i < |links| => JoinedEvent(e, Some(links[i])))
  }

  /** safety_events.merge(facts[...], on='encounter_id', how='left'): the
      events in order, each followed by its matches. */
  function LeftJoin(events: seq<SafetyEvent>, facts: seq<EncounterFact>): seq<JoinedEvent>
  {
    if events == [] then []
    else LeftJoin(events[..|events| - 1], facts) + JoinOne(events[|events| - 1], facts)
  }

  /** The events whose encounter id is not among the fact ids. */
  function Orphans(events: seq<SafetyEvent>, facts: seq<EncounterFact>): (r: seq<SafetyEvent>)
    ensures |r| <= |events|
    ensures forall e :: e in r <==> e in events && e.encounter !in FactIds(facts)
  {
    if events == [] then []
    else
      var last := events[|events| - 1];
      assert events == events[..|events| - 1] + [last];
      Orphans(events[..|events| - 1], facts) + (if last.encounter in FactIds(facts) then [] else [last])
  }

  /** The number of joined rows without a fact. */
  function Unlinked(joined: seq<JoinedEvent>): nat
  {
    if joined == [] then 0
    else Unlinked(joined[..|joined| - 1]) + (if joined[|joined| - 1].link.None? then 1 else 0)
  }

  /** The group keys of the joined rows that have a fact and a key: the
      group-by drops every row with a NaN key. */
  function GroupKeys<K>(joined: seq<JoinedEvent>, key: (SafetyEvent, Link) -> Option<K>): seq<K>
  {
    if joined == [] then []
    else
      var r := joined[|joined| - 1];
      GroupKeys(joined[..|joined| - 1], key) +
      (if r.link.Some? && key(r.event, r.link.value).Some? then [key(r.event, r.link.value).value] else [])
  }

  /** The group key of event_metrics_monthly. */
  function MetricKeyOf(e: SafetyEvent, l: Link): Option<MetricKey>
  {
    Some(MetricKey(l.month, l.service, e.eventType))
  }

  /** The group key of reporting_delay_bins; a delay outside the bins has
      none. */
  function DelayKeyOf(e: SafetyEvent, l: Link): Option<DelayKey>
  {
    match DelayBinOf(e.reportDelay)
    case None => None
    case Some(b) => Some(DelayKey(l.month, l.service, b))
  }

  /** The encounter's joined columns when exactly one fact row has the id,
      as in a fact table with unique ids. */
  function EventLink(e: SafetyEvent, facts: seq<EncounterFact>): Option<Link>
  {
    var links := LinksWithId(facts, e.encounter);
    if links == [] then None else Some(links[0])
  }

  /** The reference count of a group: the events with a fact whose key is
      k. */
  function CountEvents<K(==)>(events: seq<SafetyEvent>, facts: seq<EncounterFact>, key: (SafetyEvent, Link) -> Option<K>, k: K): nat
  {
    if events == [] then 0
    else
      var e := events[|events| - 1];
      var l := EventLink(e, facts);
      CountEvents(events[..|events| - 1], facts, key, k) + (if l.Some? && key(e, l.value) == Some(k) then 1 else 0)
  }

  /** No id matches nothing, and an id that some fact has matches it. */
  lemma {:induction false} LinksWithIdEmpty(facts: seq<EncounterFact>, id: EncounterId)
    ensures LinksWithId(facts, id) == [] <==> id !in FactIds(facts)
  {
    if facts != [] {
      var n := |facts|;
      LinksWithIdEmpty(facts[..n - 1], id);
      assert FactIds(facts) == FactIds(facts[..n - 1]) + [facts[n - 1].id];
    }
  }

  /** With unique fact ids an event matches at most one fact. */
  lemma {:induction false} LinksWithIdUnique(facts: seq<EncounterFact>, id: EncounterId)
    requires NoDuplicates(FactIds(facts))
    ensures |LinksWithId(facts, id)| <= 1
  {
    if facts != [] {
      var n := |facts|;
      var init := facts[..n - 1];
      assert FactIds(init) == FactIds(facts)[..n - 1];
      LinksWithIdUnique(init, id);
      if facts[n - 1].id == id {
        assert id !in FactIds(init);
        LinksWithIdEmpty(init, id);
      }
    }
  }

  lemma {:induction false} UnlinkedAppend(a: seq<JoinedEvent>, b: seq<JoinedEvent>)
    ensures Unlinked(a + b) == Unlinked(a) + Unlinked(b)
    decreases |b|
  {
    if b != [] {
      var ab := a + b;
      assert ab[..|ab| - 1] == a + b[..|b| - 1];
      assert ab[|ab| - 1] == b[|b| - 1];
      UnlinkedAppend(a, b[..|b| - 1]);
    } else {
      assert a + b == a;
    }
  }

  lemma {:induction false} UnlinkedAllLinked(e: SafetyEvent, links: seq<Link>)
    ensures Unlinked(seq(|links|, i requires 0 <= i < |links| => JoinedEvent(e, Some(links[i])))) == 0
  {
    if links != [] {
      var n := |links|;
      var s := seq(|links|, i requires 0 <= i < |links| => JoinedEvent(e, Some(links[i])));
      assert s[..n - 1] == seq(n - 1, i requires 0 <= i < n - 1 => JoinedEvent(e, Some(links[..n - 1][i])));
      UnlinkedAllLinked(e, links[..n - 1]);
    }
  }

  /** The rows the merge leaves without a fact are exactly the orphan
      events, one row each, whatever the fact ids. */
  lemma {:induction false} UnlinkedAreOrphans(events: seq<SafetyEvent>, facts: seq<EncounterFact>)
    ensures Unlinked(LeftJoin(events, facts)) == |Orphans(events, facts)|
  {
    if events != [] {
      var n := |events|;
      var e := events[n - 1];
      UnlinkedAreOrphans(events[..n - 1], facts);
      UnlinkedAppend(LeftJoin(events[..n - 1], facts), JoinOne(e, facts));
      LinksWithIdEmpty(facts, e.encounter);
      var links := LinksWithId(facts, e.encounter);
      if links != [] {
        UnlinkedAllLinked(e, links);
      }
    }
  }

  /** With unique fact ids the merge keeps one row per event, carrying the
      event's fact if it has one. */
  lemma JoinOneUnique(e: SafetyEvent, facts: seq<EncounterFact>)
    requires NoDuplicates(FactIds(facts))
    ensures JoinOne(e, facts) == [JoinedEvent(e, EventLink(e, facts))]
  {
    LinksWithIdUnique(facts, e.encounter);
  }

  /** With unique fact ids, the merge of one more event adds exactly its
      row. */
  lemma LeftJoinUnique(events: seq<SafetyEvent>, facts: seq<EncounterFact>)
    requires events != [] && NoDuplicates(FactIds(facts))
    ensures LeftJoin(events, facts) ==
            LeftJoin(events[..|events| - 1], facts) + [JoinedEvent(events[|events| - 1], EventLink(events[|events| - 1], facts))]
  {
    JoinOneUnique(events[|events| - 1], facts);
  }

  /** Group keys of a concatenation. */
  lemma GroupKeysAppend<K>(a: seq<JoinedEvent>, r: JoinedEvent, key: (SafetyEvent, Link) -> Option<K>)
    ensures GroupKeys(a + [r], key) ==
            GroupKeys(a, key) + (if r.link.Some? && key(r.event, r.link.value).Some? then [key(r.event, r.link.value).value] else [])
  {
    assert (a + [r])[..|a|] == a;
  }

  /** With unique fact ids, the size of every group of the joined table is
      the number of events with a fact whose key is that group's. */
  lemma {:induction false} GroupCountIsEventCount<K>(events: seq<SafetyEvent>, facts: seq<EncounterFact>,
                                                     key: (SafetyEvent, Link) -> Option<K>, k: K)
    requires NoDuplicates(FactIds(facts))
    ensures SumFor(GroupKeys(LeftJoin(events, facts), key), Ones(|GroupKeys(LeftJoin(events, facts), key)|), k) ==
            CountEvents(events, facts, key, k)
  {
    if events != [] {
      var n := |events|;
      var e := events[n - 1];
      var l := EventLink(e, facts);
      var prev := LeftJoin(events[..n - 1], facts);
      var ks := GroupKeys(prev, key);
      GroupCountIsEventCount(events[..n - 1], facts, key, k);
      assert SumFor(ks, Ones(|ks|), k) == CountEvents(events[..n - 1], facts, key, k);
      LeftJoinUnique(events, facts);
      GroupKeysAppend(prev, JoinedEvent(e, l), key);
      if l.Some? && key(e, l.value).Some? {
        CountAppend(ks, key(e, l.value).value, k);
      } else {
        assert GroupKeys(LeftJoin(events, facts), key) == ks;
      }
    }
  }

  /** With unique fact ids, every event with a fact has a metric key, so
      the metric rows number the events minus the orphans. */
  lemma {:induction false} MetricKeysCount(events: seq<SafetyEvent>, facts: seq<EncounterFact>)
    requires NoDuplicates(FactIds(facts))
    ensures |GroupKeys(LeftJoin(events, facts), MetricKeyOf)| + |Orphans(events, facts)| == |events|
  {
    if events != [] {
      var n := |events|;
      var e := events[n - 1];
      var prev := LeftJoin(events[..n - 1], facts);
      MetricKeysCount(events[..n - 1], facts);
      JoinOneUnique(e, facts);
      var r := JoinedEvent(e, EventLink(e, facts));
      assert LeftJoin(events, facts) == prev + [r];
      GroupKeysAppend(prev, r, MetricKeyOf);
      LinksWithIdEmpty(facts, e.encounter);
    }
  }

  /** An event whose delay has no bin is counted in no delay group. */
  lemma UnbinnedNotCounted(events: seq<SafetyEvent>, e: SafetyEvent, facts: seq<EncounterFact>, k: DelayKey)
    requires DelayBinOf(e.reportDelay).None?
    ensures CountEvents(events + [e], facts, DelayKeyOf, k) == CountEvents(events, facts, DelayKeyOf, k)
  {
    assert (events + [e])[..|events|] == events;
  }

  /** event_metrics_monthly: per (month, service_line, event_type), the
      number of joined events. */
  method BuildEventMetrics(events: seq<SafetyEvent>, facts: seq<EncounterFact>) returns (rows: seq<CountRow<MetricKey>>)
    ensures IsCountTable(GroupKeys(LeftJoin(events, facts), MetricKeyOf), rows)
    ensures forall a :: 0 <= a < |rows| ==> rows[a].count >= 1
    ensures NoDuplicates(FactIds(facts)) ==>
              forall a :: 0 <= a < |rows| ==> rows[a].count == CountEvents(events, facts, MetricKeyOf, rows[a].key)
    ensures NoDuplicates(FactIds(facts)) ==> CountTotal(rows) + |Orphans(events, facts)| == |events|
  {
    var joined := LeftJoin(events, facts);
    rows := CountBy(GroupKeys(joined, MetricKeyOf));
    if NoDuplicates(FactIds(facts)) {
      forall a | 0 <= a < |rows|
        ensures rows[a].count == CountEvents(events, facts, MetricKeyOf, rows[a].key)
      {
        GroupCountIsEventCount(events, facts, MetricKeyOf, rows[a].key);
      }
      MetricKeysCount(events, facts);
    }
  }

  /** reporting_delay_bins: per (month, service_line, delay_bin), the
      number of joined events whose delay falls in the bin. */
  method BuildDelayBins(events: seq<SafetyEvent>, facts: seq<EncounterFact>) returns (rows: seq<CountRow<DelayKey>>)
    ensures IsCountTable(GroupKeys(LeftJoin(events, facts), DelayKeyOf), rows)
    ensures forall a :: 0 <= a < |rows| ==> rows[a].count >= 1
    ensures NoDuplicates(FactIds(facts)) ==>
              forall a :: 0 <= a < |rows| ==> rows[a].count == CountEvents(events, facts, DelayKeyOf, rows[a].key)
  {
    var joined := LeftJoin(events, facts);
    rows := CountBy(GroupKeys(joined, DelayKeyOf));
    if NoDuplicates(FactIds(facts)) {
      forall a | 0 <= a < |rows|
        ensures rows[a].count == CountEvents(events, facts, DelayKeyOf, rows[a].key)
      {
        GroupCountIsEventCount(events, facts, DelayKeyOf, rows[a].key);
      }
    }
  }
}
