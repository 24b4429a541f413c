/** The inactive-tab tracker of src/background/background.js.

    The tracker keeps an object from tab id to {title, url, inactiveFrom}.
    Being a JavaScript object, its property keys are strings: the handlers
    index it with String(tab.id) and the stale sweep reads a key back with
    parseInt. The browser calls are inputs: the result of
    chrome.tabs.query (or its failure), Date.now() as `now`, and what
    chrome.storage.local.get returned at start-up. Every call of
    saveInactiveTabsData is recorded in the ghost log `writes`. */
module Background {
  import opened JsNumbers
  import opened JsValues

  /** A tab as chrome.tabs.query lists it */
  datatype Tab = Tab(id: int, title: string, url: string)

  /** What the tracker keeps for an inactive tab */
  datatype Entry = Entry(title: string, url: string, inactiveFrom: int)

  /** The tracking object: property key to entry */
  type TabMap = map<string, Entry>

  /** The outcome of chrome.tabs.query({}) */
  datatype TabQuery = Tabs(tabs: seq<Tab>) | QueryFailed

  /** The outcome of the start-up read of inactiveTabsData and
      inactiveThreshold. `tabsData` is None when nothing, or a falsy value,
      is stored under inactiveTabsData. */
  datatype StoredState =
    | StoreReadFailed
    | Stored(tabsData: Option<TabMap>, threshold: JsValue)

  /** The threshold, in seconds, before any is restored */
  const InitialThreshold: JsValue := Num(Finite(10.0))

  /** The property key a tab id is stored under: String(id), which the
      sweep's parseInt reads back as the same id (ParseIntOfString) */
  function KeyOf(id: int): string {
    IntToString(id)
  }

  function Ids(tabs: seq<Tab>): set<int> {
    set i | 0 <= i < |tabs| :: tabs[i].id
  }

  function KeysOf(tabs: seq<Tab>): set<string> {
    set i | 0 <= i < |tabs| :: KeyOf(tabs[i].id)
  }

  /** The keys of the listed tabs other than the activated one */
  function OtherKeys(tabs: seq<Tab>, active: int): set<string> {
    set i | 0 <= i < |tabs| && tabs[i].id != active :: KeyOf(tabs[i].id)
  }

  /** The key the activation handler deletes: the activated tab's, if listed */
  function ClearedKeys(tabs: seq<Tab>, active: int): set<string> {
    if active in Ids(tabs) then {KeyOf(active)} else {}
  }

  /** The position of the first listed tab stored under key k */
  function FirstIndex(tabs: seq<Tab>, k: string): (i: nat)
    requires k in KeysOf(tabs)
    ensures i < |tabs| && KeyOf(tabs[i].id) == k
    ensures forall j :: 0 <= j < i ==> KeyOf(tabs[j].id) != k
  {
    if KeyOf(tabs[0].id) == k then 0
    else
      assert k in KeysOf(tabs[1..]) by {
        var i :| 0 <= i < |tabs| && KeyOf(tabs[i].id) == k;
        assert tabs[1..][i - 1] == tabs[i];
      }
      1 + FirstIndex(tabs[1..], k)
  }

  function NewEntry(tab: Tab, now: int): Entry {
    Entry(tab.title, tab.url, now)
  }

  /** The tracking object after the activation handler has run over the
      listed tabs: entries already present are kept, a listed tab other than
      the activated one that has none gets one (from its first listing,
      stamped now), and the activated tab's entry is gone if it is listed. */
  function Activated(m: TabMap, tabs: seq<Tab>, active: int, now: int): TabMap {
    map k | k in (m.Keys + OtherKeys(tabs, active)) - ClearedKeys(tabs, active) ::
      if k in m then m[k] else NewEntry(tabs[FirstIndex(tabs, k)], now)
  }

  lemma ActivatedOfNoTabs(m: TabMap, active: int, now: int)
    ensures Activated(m, [], active, now) == m
  {
  }

  lemma {:induction false} FirstIndexOfSnoc(p: seq<Tab>, t: Tab, k: string)
    requires k in KeysOf(p + [t])
    ensures k in KeysOf(p) ==> FirstIndex(p + [t], k) == FirstIndex(p, k)
    ensures k !in KeysOf(p) ==> FirstIndex(p + [t], k) == |p|
  {
    var q := p + [t];
    assert forall x :: 0 <= x < |p| ==> q[x] == p[x];
    if k in KeysOf(p) {
      var j := FirstIndex(p, k);
      assert q[j] == p[j];
    }
  }

  lemma KeysOfSnoc(p: seq<Tab>, t: Tab, active: int)
    ensures Ids(p + [t]) == Ids(p) + {t.id}
    ensures KeysOf(p + [t]) == KeysOf(p) + {KeyOf(t.id)}
    ensures OtherKeys(p + [t], active) ==
              OtherKeys(p, active) + (if t.id != active then {KeyOf(t.id)} else {})
  {
    var q := p + [t];
    assert q[|p|] == t;
    assert forall i :: 0 <= i < |p| ==> q[i] == p[i];
  }

  /** An entry present before and after one more listed tab is unchanged */
  lemma ActivatedSnocKeepsValue(m: TabMap, p: seq<Tab>, t: Tab, active: int, now: int, k: string)
    requires k in Activated(m, p + [t], active, now) && k in Activated(m, p, active, now)
    ensures Activated(m, p + [t], active, now)[k] == Activated(m, p, active, now)[k]
  {
    if k !in m {
      assert k in OtherKeys(p, active);
      assert k in KeysOf(p);
      FirstIndexOfSnoc(p, t, k);
    }
  }

  /** The keys of the activated object */
  lemma ActivatedKeys(m: TabMap, tabs: seq<Tab>, active: int, now: int)
    ensures Activated(m, tabs, active, now).Keys ==
              (m.Keys + OtherKeys(tabs, active)) - ClearedKeys(tabs, active)
  {
  }

  /** Listing the activated tab once more drops its key */
  lemma ActivatedSnocKeysActive(m: TabMap, p: seq<Tab>, t: Tab, active: int, now: int)
    requires t.id == active
    ensures Activated(m, p + [t], active, now).Keys == Activated(m, p, active, now).Keys - {KeyOf(active)}
  {
    KeysOfSnoc(p, t, active);
    ActivatedKeys(m, p, active, now);
    ActivatedKeys(m, p + [t], active, now);
    assert ClearedKeys(p + [t], active) == {KeyOf(active)};
    assert ClearedKeys(p, active) <= {KeyOf(active)};
  }

  /** Listing a tab other than the activated one adds its key */
  lemma ActivatedSnocKeysOther(m: TabMap, p: seq<Tab>, t: Tab, active: int, now: int)
    requires t.id != active
    ensures Activated(m, p + [t], active, now).Keys == Activated(m, p, active, now).Keys + {KeyOf(t.id)}
  {
    KeysOfSnoc(p, t, active);
    ActivatedKeys(m, p, active, now);
    ActivatedKeys(m, p + [t], active, now);
    assert ClearedKeys(p + [t], active) == ClearedKeys(p, active);
    IntToStringInjective(t.id, active);
    assert KeyOf(t.id) !in ClearedKeys(p, active);
  }

  /** Two tracking objects with the same keys and the same entries are equal */
  lemma TabMapsEqual(a: TabMap, b: TabMap)
    requires a.Keys == b.Keys
    requires forall k :: k in a ==> a[k] == b[k]
    ensures a == b
  {
  }

  lemma ActivatedSnocActive(m: TabMap, p: seq<Tab>, t: Tab, active: int, now: int)
    requires t.id == active
    ensures Activated(m, p + [t], active, now) == Activated(m, p, active, now) - {KeyOf(active)}
  {
    var r := Activated(m, p, active, now);
    var r' := Activated(m, p + [t], active, now);
    ActivatedSnocKeysActive(m, p, t, active, now);
    forall k | k in r' ensures r'[k] == (r - {KeyOf(active)})[k] {
      ActivatedSnocKeepsValue(m, p, t, active, now, k);
    }
    TabMapsEqual(r', r - {KeyOf(active)});
  }

  lemma ActivatedSnocTracked(m: TabMap, p: seq<Tab>, t: Tab, active: int, now: int)
    requires t.id != active && KeyOf(t.id) in Activated(m, p, active, now)
    ensures Activated(m, p + [t], active, now) == Activated(m, p, active, now)
  {
    var r := Activated(m, p, active, now);
    var r' := Activated(m, p + [t], active, now);
    ActivatedSnocKeysOther(m, p, t, active, now);
    forall k | k in r' ensures r'[k] == r[k] {
      ActivatedSnocKeepsValue(m, p, t, active, now, k);
    }
    TabMapsEqual(r', r);
  }

  lemma ActivatedSnocUntracked(m: TabMap, p: seq<Tab>, t: Tab, active: int, now: int)
    requires t.id != active && KeyOf(t.id) !in Activated(m, p, active, now)
    ensures Activated(m, p + [t], active, now) ==
              Activated(m, p, active, now)[KeyOf(t.id) := NewEntry(t, now)]
  {
    var r := Activated(m, p, active, now);
    var r' := Activated(m, p + [t], active, now);
    var key := KeyOf(t.id);
    var expected := r[key := NewEntry(t, now)];
    ActivatedSnocKeysOther(m, p, t, active, now);
    ActivatedSnocNewValue(m, p, t, active, now);
    forall k | k in r' ensures r'[k] == expected[k] {
      if k != key {
        ActivatedSnocKeepsValue(m, p, t, active, now, k);
      }
    }
    TabMapsEqual(r', expected);
  }

  /** A newly listed, untracked tab other than the activated one gets a
      fresh entry from this listing */
  lemma ActivatedSnocNewValue(m: TabMap, p: seq<Tab>, t: Tab, active: int, now: int)
    requires t.id != active && KeyOf(t.id) !in Activated(m, p, active, now)
    ensures KeyOf(t.id) in Activated(m, p + [t], active, now)
    ensures Activated(m, p + [t], active, now)[KeyOf(t.id)] == NewEntry(t, now)
  {
    var key := KeyOf(t.id);
    ActivatedSnocKeysOther(m, p, t, active, now);
    ActivatedKeys(m, p, active, now);
    IntToStringInjective(t.id, active);
    assert key !in m && key !in OtherKeys(p, active);
    assert (p + [t])[|p|] == t;
    assert key in KeysOf(p + [t]);
    FirstIndexOfSnoc(p, t, key);
  }

  /** After activation every listed tab other than the activated one is tracked */
  lemma ActivationTracksOtherTabs(m: TabMap, tabs: seq<Tab>, active: int, now: int)
    ensures forall i :: 0 <= i < |tabs| && tabs[i].id != active ==>
              KeyOf(tabs[i].id) in Activated(m, tabs, active, now)
  {
    forall i | 0 <= i < |tabs| && tabs[i].id != active
      ensures KeyOf(tabs[i].id) in Activated(m, tabs, active, now)
    {
      IntToStringInjective(tabs[i].id, active);
    }
  }

  /** After activation a listed activated tab is not tracked */
  lemma ActivationUntracksActiveTab(m: TabMap, tabs: seq<Tab>, active: int, now: int)
    ensures active in Ids(tabs) ==> KeyOf(active) !in Activated(m, tabs, active, now)
  {
  }

  /** Activation never overwrites an entry: every entry other than the
      listed activated tab's keeps its title, url and inactiveFrom, whether
      or not its tab is listed */
  lemma ActivationKeepsEntries(m: TabMap, tabs: seq<Tab>, active: int, now: int)
    ensures forall k :: k in m && (k != KeyOf(active) || active !in Ids(tabs)) ==>
              k in Activated(m, tabs, active, now) && Activated(m, tabs, active, now)[k] == m[k]
  {
  }

  /** Activation creates entries only for listed tabs other than the
      activated one that had none, from the tab's first listing and
      stamped with the current time */
  lemma ActivationCreatesOnlyMissingEntries(m: TabMap, tabs: seq<Tab>, active: int, now: int)
    ensures forall k :: k in Activated(m, tabs, active, now) && k !in m ==>
              exists i :: 0 <= i < |tabs| && tabs[i].id != active && KeyOf(tabs[i].id) == k
                && Activated(m, tabs, active, now)[k] == Entry(tabs[i].title, tabs[i].url, now)
                && forall j :: 0 <= j < i ==> tabs[j].id != tabs[i].id
  {
    var r := Activated(m, tabs, active, now);
    forall k | k in r && k !in m
      ensures exists i :: 0 <= i < |tabs| && tabs[i].id != active && KeyOf(tabs[i].id) == k
                && r[k] == Entry(tabs[i].title, tabs[i].url, now)
                && forall j :: 0 <= j < i ==> tabs[j].id != tabs[i].id
    {
      var i := FirstIndex(tabs, k);
      assert k in OtherKeys(tabs, active);
      var i' :| 0 <= i' < |tabs| && tabs[i'].id != active && KeyOf(tabs[i'].id) == k;
      IntToStringInjective(tabs[i].id, tabs[i'].id);
    }
  }

  /** No entry is stamped later than now, if none was before */
  lemma ActivationStampsNoFutureTime(m: TabMap, tabs: seq<Tab>, active: int, now: int)
    requires forall k :: k in m ==> m[k].inactiveFrom <= now
    ensures forall k :: k in Activated(m, tabs, active, now) ==>
              Activated(m, tabs, active, now)[k].inactiveFrom <= now
  {
  }

  // ---------------------------------------------------------------------
  // Stale sweep

  /** currentTabIds.has(parseInt(key)) */
  predicate IsLiveKey(k: string, live: set<int>) {
    ParseInt(k).Some? && ParseInt(k).value in live
  }

  /** The keys the sweep deletes */
  function StaleKeys(m: TabMap, live: set<int>): set<string> {
    set k | k in m && !IsLiveKey(k, live)
  }

  /** The tracking object after the sweep against the live tab ids */
  function Swept(m: TabMap, live: set<int>): TabMap {
    map k | k in m && IsLiveKey(k, live) :: m[k]
  }

  /** The sweep never drops the entry of a live tab */
  lemma SweepKeepsLiveTabs(m: TabMap, live: set<int>)
    ensures forall id :: id in live && KeyOf(id) in m ==>
              KeyOf(id) in Swept(m, live) && Swept(m, live)[KeyOf(id)] == m[KeyOf(id)]
  {
    forall id | id in live && KeyOf(id) in m
      ensures KeyOf(id) in Swept(m, live)
    {
      ParseIntOfString(id);
    }
  }

  /** The sweep deletes exactly the stale keys and keeps only live ones */
  lemma SweepRemovesExactlyStale(m: TabMap, live: set<int>)
    ensures StaleKeys(m, live) <= m.Keys
    ensures Swept(m, live) == m - StaleKeys(m, live)
    ensures forall k :: k in Swept(m, live) ==>
              ParseInt(k).Some? && ParseInt(k).value in live && Swept(m, live)[k] == m[k]
  {
  }

  /** The number of deleted keys is the number of entries that disappear */
  lemma SweepCount(m: TabMap, live: set<int>)
    ensures |StaleKeys(m, live)| == |m| - |Swept(m, live)|
  {
    SweepRemovesExactlyStale(m, live);
    assert m.Keys == Swept(m, live).Keys + StaleKeys(m, live);
  }

  // ---------------------------------------------------------------------
  // Threshold review

  /** inactiveThreshold * 1000 */
  function ThresholdMs(threshold: JsValue): NumVal {
    Mul(ToNumber(threshold), Finite(1000.0))
  }

  /** currentTime - data.inactiveFrom >= inactiveThresholdMs: a NaN or
      +Infinity threshold is never reached, -Infinity always is */
  predicate Due(e: Entry, now: int, thresholdMs: NumVal)
    ensures thresholdMs.NaN? || thresholdMs.PosInf? ==> !Due(e, now, thresholdMs)
    ensures thresholdMs.NegInf? ==> Due(e, now, thresholdMs)
  {
    GreaterEq(Finite((now - e.inactiveFrom) as real), thresholdMs)
  }

  /** The keys of the entries past the threshold */
  function DueKeys(m: TabMap, now: int, threshold: JsValue): set<string> {
    set k | k in m && Due(m[k], now, ThresholdMs(threshold))
  }

  /** With a numeric threshold of s seconds, an entry is due exactly when it
      has been inactive for at least s * 1000 ms */
  lemma DueForNumericThreshold(e: Entry, now: int, s: real)
    ensures Due(e, now, ThresholdMs(Num(Finite(s)))) <==> (now - e.inactiveFrom) as real >= s * 1000.0
  {
  }

  /** A threshold restored as the decimal string of n seconds (say "30")
      makes the same entries due as the number n: `*` coerces it */
  lemma StringThresholdActsAsNumber(e: Entry, now: int, n: nat)
    ensures Due(e, now, ThresholdMs(Str(IntToString(n)))) <==> (now - e.inactiveFrom) as real >= n as real * 1000.0
  {
    StringToNumberOfDecimal(n);
  }

  /** A due entry stays due as time goes on */
  lemma DueStaysDue(e: Entry, now: int, later: int, thresholdMs: NumVal)
    requires now <= later && Due(e, now, thresholdMs)
    ensures Due(e, later, thresholdMs)
  {
  }

  /** A restored threshold that coerces to NaN (an object, say) makes no
      entry ever due */
  lemma NaNThresholdNeverDue(e: Entry, now: int, threshold: JsValue)
    requires ToNumber(threshold).NaN?
    ensures !Due(e, now, ThresholdMs(threshold))
  {
  }

  /** after is before followed by n copies of m */
  ghost predicate AppendedCopies(before: seq<TabMap>, after: seq<TabMap>, m: TabMap, n: nat) {
    && |after| == |before| + n
    && after[..|before|] == before
    && forall i :: |before| <= i < |after| ==> after[i] == m
  }

  /** Visiting one more key of a loop that works through `pending` and
      collects the keys of `chosen` it has already met */
  lemma VisitedStep(chosen: set<string>, pending: set<string>, key: string)
    requires key in pending
    ensures key in chosen ==>
              chosen - (pending - {key}) == (chosen - pending) + {key} && key !in chosen - pending
    ensures key !in chosen ==> chosen - (pending - {key}) == chosen - pending
  {
  }

  /** Deleting keys one at a time is deleting them all */
  lemma RemoveOneMore(m: TabMap, removed: set<string>, key: string)
    ensures (m - removed) - {key} == m - (removed + {key})
  {
  }

  /** One visit of the sweep's loop: a stale key joins the removed ones
      and is deleted, a live key changes nothing */
  lemma SweepStep(m: TabMap, live: set<int>, stale: set<string>, pending: set<string>,
                  removed: set<string>, key: string)
    requires stale == StaleKeys(m, live) && key in pending && pending <= m.Keys
    requires removed == stale - pending
    ensures !IsLiveKey(key, live) ==>
              && removed + {key} == stale - (pending - {key})
              && |removed + {key}| == |removed| + 1
              && (m - removed) - {key} == m - (removed + {key})
    ensures IsLiveKey(key, live) ==> removed == stale - (pending - {key})
  {
    VisitedStep(stale, pending, key);
    RemoveOneMore(m, removed, key);
  }

  /** One more copy appended */
  lemma AppendedCopiesStep(before: seq<TabMap>, after: seq<TabMap>, m: TabMap, n: nat)
    requires AppendedCopies(before, after, m, n)
    ensures AppendedCopies(before, after + [m], m, n + 1)
  {
    assert (after + [m])[..|before|] == after[..|before|];
  }

  // ---------------------------------------------------------------------
  // The tracker

  class Tracker {
    /** inactiveTabsData */
    var entries: TabMap
    /** inactiveThreshold, in seconds */
    var threshold: JsValue
    /** every object passed to chrome.storage.local.set, oldest first */
    ghost var writes: seq<TabMap>

    constructor ()
      ensures entries == map[] && threshold == InitialThreshold && writes == []
    {
      entries := map[];
      threshold := InitialThreshold;
      writes := [];
    }

    /** restoreState: the stored tracking object and threshold replace the
        current ones when they are truthy; a failed read changes nothing */
    method RestoreState(stored: StoredState)
      modifies this`entries, this`threshold
      ensures Truthy(old(threshold)) ==> Truthy(threshold)
      ensures stored.StoreReadFailed? ==> entries == old(entries) && threshold == old(threshold)
      ensures stored.Stored? ==>
                && entries == (if stored.tabsData.Some? then stored.tabsData.value else old(entries))
                && threshold == (if Truthy(stored.threshold) then stored.threshold else old(threshold))
    {
      if stored.StoreReadFailed? {
        return;
      }
      if stored.tabsData.Some? {
        entries := stored.tabsData.value;
      }
      if Truthy(stored.threshold) {
        threshold := stored.threshold;
      }
    }

    /** saveInactiveTabsData: hands the current object to storage */
    method SaveInactiveTabsData()
      modifies this`writes
      ensures writes == old(writes) + [entries]
    {
      writes := writes + [entries];
    }

    /** The tabs.onActivated listener. A failed tab query leaves everything
        as it was; otherwise the object becomes Activated(...) and is saved
        exactly once. */
    method OnActivated(activeTabId: int, query: TabQuery, now: int)
      modifies this`entries, this`writes
      ensures query.QueryFailed? ==> entries == old(entries) && writes == old(writes)
      ensures query.Tabs? ==>
                && entries == Activated(old(entries), query.tabs, activeTabId, now)
                && writes == old(writes) + [entries]
    {
      if query.QueryFailed? {
        return;
      }
      var tabs := query.tabs;
      ActivatedOfNoTabs(entries, activeTabId, now);
      var i := 0;
      while i < |tabs|
        invariant 0 <= i <= |tabs|
        invariant entries == Activated(old(entries), tabs[..i], activeTabId, now)
        invariant writes == old(writes)
      {
        var tab := tabs[i];
        assert tabs[..i + 1] == tabs[..i] + [tab];
        if tab.id != activeTabId {
          if KeyOf(tab.id) !in entries {
            ActivatedSnocUntracked(old(entries), tabs[..i], tab, activeTabId, now);
            entries := entries[KeyOf(tab.id) := NewEntry(tab, now)];
          } else {
            ActivatedSnocTracked(old(entries), tabs[..i], tab, activeTabId, now);
          }
        } else {
          ActivatedSnocActive(old(entries), tabs[..i], tab, activeTabId, now);
          entries := entries - {KeyOf(tab.id)};
        }
        i := i + 1;
      }
      assert tabs[..|tabs|] == tabs;
      SaveInactiveTabsData();
    }

    /** The tabs.onRemoved listener: deletes the tab's entry and saves, only
        when there was one */
    method OnRemoved(tabId: int)
      modifies this`entries, this`writes
      ensures entries == old(entries) - {KeyOf(tabId)}
      ensures writes == if KeyOf(tabId) in old(entries) then old(writes) + [entries] else old(writes)
    {
      if KeyOf(tabId) in entries {
        entries := entries - {KeyOf(tabId)};
        SaveInactiveTabsData();
      }
    }

    /** tabs.onRemoved delivered twice for the same tab: the second call
        changes nothing and saves nothing */
    method OnRemovedTwice(tabId: int)
      modifies this`entries, this`writes
      ensures entries == old(entries) - {KeyOf(tabId)}
      ensures writes == if KeyOf(tabId) in old(entries) then old(writes) + [entries] else old(writes)
    {
      OnRemoved(tabId);
      OnRemoved(tabId);
    }

    /** The five-minute sweep: deletes every entry whose key does not parse
        to a live tab id, counting the deletions, and saves once if any was
        made. A failed tab query changes nothing. */
    method SweepStaleEntries(query: TabQuery) returns (removedCount: nat)
      modifies this`entries, this`writes
      ensures query.QueryFailed? ==> removedCount == 0 && entries == old(entries)
      ensures query.Tabs? ==>
                && entries == Swept(old(entries), Ids(query.tabs))
                && removedCount == |StaleKeys(old(entries), Ids(query.tabs))|
      ensures writes == if removedCount > 0 then old(writes) + [entries] else old(writes)
    {
      if query.QueryFailed? {
        return 0;
      }
      var live := Ids(query.tabs);
      removedCount := 0;
      var pending := entries.Keys;
      ghost var stale := StaleKeys(entries, live);
      ghost var removed: set<string> := {};
      while pending != {}
        invariant pending <= old(entries).Keys
        invariant removed == stale - pending
        invariant removedCount == |removed|
        invariant entries == old(entries) - removed
        invariant writes == old(writes)
        decreases pending
      {
        var key :| key in pending;
        SweepStep(old(entries), live, stale, pending, removed, key);
        if !IsLiveKey(key, live) {
          entries := entries - {key};
          removedCount := removedCount + 1;
          removed := removed + {key};
        }
        pending := pending - {key};
      }
      SweepRemovesExactlyStale(old(entries), live);
      if removedCount > 0 {
        SaveInactiveTabsData();
      }
    }

    /** The one-second review: saves once per entry past the threshold and
        changes nothing in the tracking object */
    method ReviewThresholds(now: int)
      modifies this`writes
      ensures entries == old(entries)
      ensures AppendedCopies(old(writes), writes, entries, |DueKeys(entries, now, threshold)|)
    {
      var thresholdMs := ThresholdMs(threshold);
      var pending := entries.Keys;
      ghost var due := DueKeys(entries, now, threshold);
      ghost var saved: set<string> := {};
      while pending != {}
        invariant pending <= entries.Keys
        invariant saved == due - pending
        invariant AppendedCopies(old(writes), writes, entries, |saved|)
        decreases pending
      {
        var key :| key in pending;
        assert key in due <==> Due(entries[key], now, thresholdMs);
        VisitedStep(due, pending, key);
        if Due(entries[key], now, thresholdMs) {
          AppendedCopiesStep(old(writes), writes, entries, |saved|);
          SaveInactiveTabsData();
          saved := saved + {key};
        }
        pending := pending - {key};
      }
    }
  }

  // ---------------------------------------------------------------------
  // Scenarios

  const TabOne := Tab(1, "One", "https://one.example/")
  const TabTwo := Tab(2, "Two", "https://two.example/")
  const TabThree := Tab(3, "Three", "https://three.example/")

  lemma DistinctScenarioKeys()
    ensures KeyOf(1) != KeyOf(2) && KeyOf(1) != KeyOf(3) && KeyOf(2) != KeyOf(3)
  {
    IntToStringInjective(1, 2);
    IntToStringInjective(1, 3);
    IntToStringInjective(2, 3);
  }

  /** Activating tab 2 with tabs 1, 2 and 3 open and nothing tracked */
  lemma {:induction false} SwitchToTwo(now: int)
    ensures Activated(map[], [TabOne, TabTwo, TabThree], 2, now) ==
              map[KeyOf(1) := NewEntry(TabOne, now), KeyOf(3) := NewEntry(TabThree, now)]
  {
    DistinctScenarioKeys();
    var first := map[KeyOf(1) := NewEntry(TabOne, now)];
    ActivatedOfNoTabs(map[], 2, now);
    assert [] + [TabOne] == [TabOne];
    ActivatedSnocUntracked(map[], [], TabOne, 2, now);
    assert Activated(map[], [TabOne], 2, now) == first;
    assert [TabOne] + [TabTwo] == [TabOne, TabTwo];
    ActivatedSnocActive(map[], [TabOne], TabTwo, 2, now);
    assert first - {KeyOf(2)} == first;
    assert Activated(map[], [TabOne, TabTwo], 2, now) == first;
    assert [TabOne, TabTwo] + [TabThree] == [TabOne, TabTwo, TabThree];
    ActivatedSnocUntracked(map[], [TabOne, TabTwo], TabThree, 2, now);
  }

  /** Closing tab 3 when tabs 1 and 3 are tracked */
  lemma CloseThree(e1: Entry, e3: Entry)
    ensures map[KeyOf(1) := e1, KeyOf(3) := e3] - {KeyOf(3)} == map[KeyOf(1) := e1]
    ensures map[KeyOf(1) := e1].Keys == {KeyOf(1)}
  {
    DistinctScenarioKeys();
  }

  /** Activating tab 1 with tabs 1 and 2 open and only tab 1 tracked */
  lemma {:induction false} ReturnToOne(m: TabMap, now: int)
    requires m.Keys == {KeyOf(1)}
    ensures Activated(m, [TabOne, TabTwo], 1, now) == map[KeyOf(2) := NewEntry(TabTwo, now)]
  {
    DistinctScenarioKeys();
    ActivatedOfNoTabs(m, 1, now);
    assert [] + [TabOne] == [TabOne];
    ActivatedSnocActive(m, [], TabOne, 1, now);
    assert [TabOne] + [TabTwo] == [TabOne, TabTwo];
    ActivatedSnocUntracked(m, [TabOne], TabTwo, 1, now);
  }

  /** Tabs 1, 2 and 3 are open with tab 1 focused and nothing tracked.
      Activating tab 2 tracks tabs 1 and 3 from that moment; closing tab 3
      drops its entry and keeps tab 1's; activating tab 1 again, with tabs
      1 and 2 open, untracks tab 1 and tracks tab 2. */
  method TabLifecycle(t1: int, t2: int) returns (afterSwitch: TabMap, afterClose: TabMap, afterReturn: TabMap)
    ensures afterSwitch == map[KeyOf(1) := NewEntry(TabOne, t1), KeyOf(3) := NewEntry(TabThree, t1)]
    ensures afterClose == map[KeyOf(1) := NewEntry(TabOne, t1)]
    ensures afterReturn == map[KeyOf(2) := NewEntry(TabTwo, t2)]
  {
    DistinctScenarioKeys();
    SwitchToTwo(t1);
    var tracker := new Tracker();
    tracker.OnActivated(2, Tabs([TabOne, TabTwo, TabThree]), t1);
    afterSwitch := tracker.entries;
    tracker.OnRemoved(3);
    afterClose := tracker.entries;
    CloseThree(NewEntry(TabOne, t1), NewEntry(TabThree, t1));
    ReturnToOne(afterClose, t2);
    tracker.OnActivated(1, Tabs([TabOne, TabTwo]), t2);
    afterReturn := tracker.entries;
    assert afterReturn == Activated(afterClose, [TabOne, TabTwo], 1, t2);
  }

  /** With the default threshold of 10 seconds, an entry inactive since t0
      is not due 9 seconds later and is due 10 seconds later */
  lemma DefaultThresholdCrossing(m: TabMap, key: string, e: Entry)
    requires m == map[key := e]
    ensures DueKeys(m, e.inactiveFrom + 9000, InitialThreshold) == {}
    ensures DueKeys(m, e.inactiveFrom + 10000, InitialThreshold) == {key}
  {
  }
}
