/**
 `DefaultImpressionState` with its coroutine plumbing removed: an immutable
 state (visible table, sent table, loop counter) and pure transitions. The
 clock is the explicit `now` argument; one iteration of the polling loop is
 `Step`, which returns the new state together with the keys it emits on the
 shared flow, in emission order.
 */
module ImpressionState {

  import opened Wrappers
  import opened Sequences
  import opened Geometry
  import opened VisibleTable

  /** An entry of `mutableAlreadySentItems`: the loop iteration that impressed the key. */
  datatype Impression<K> = Impression(key: K, impressionLoopCount: int)

  /**
   Construction parameters. `checkIntervalMs` only paces the loop (the `delay`
   between iterations) and plays no part in a single `Step`.
   */
  datatype Config = Config(impressionDurationMs: int, checkIntervalMs: int, visibleRatio: real)

  const DefaultImpressionDurationMs: int := 1000
  const DefaultCheckIntervalMs: int := 1000
  const DefaultVisibleRatio: real := 0.5

  const DefaultConfig: Config := Config(DefaultImpressionDurationMs, DefaultCheckIntervalMs, DefaultVisibleRatio)

  datatype State<K> = State(visible: Table<K>, sent: map<K, Impression<K>>, currentLoopCount: int)

  /** A freshly constructed state: both tables empty, `currentLoopCount = -1`. */
  function Init<K>(): State<K>
  {
    State([], map[], -1)
  }

  /** One loop iteration's outcome: the new state and the keys emitted, in order. */
  datatype StepResult<K> = StepResult(state: State<K>, emitted: seq<K>)

  /**
   What every reachable state satisfies: the visible table is a map, each sent
   entry is filed under its own key and stamped with an iteration that has
   already run, and the counter has not gone below its initial value.
   */
  predicate Valid<K(==)>(s: State<K>)
  {
    && DistinctKeys(s.visible)
    && s.currentLoopCount >= -1
    && forall k | k in s.sent ::
         && s.sent[k].key == k
         && 0 <= s.sent[k].impressionLoopCount <= s.currentLoopCount
  }

  /** `onDispose(key)`: forgets the key's visible-since timer and nothing else. */
  function OnDispose<K(==)>(s: State<K>, key: K): (r: State<K>)
    ensures Keys(r.visible) == Keys(s.visible) - {key}
    ensures forall x | x in Keys(s.visible) && x != key :: Get(r.visible, x) == Get(s.visible, x)
    ensures IsSubsequence(r.visible, s.visible)
    ensures r.sent == s.sent && r.currentLoopCount == s.currentLoopCount
    ensures Valid(s) ==> Valid(r)
  {
    s.(visible := Remove(s.visible, key))
  }

  /** `clearSentItems()`: forgets which keys were impressed; the visible table is kept. */
  function ClearSentItems<K(==)>(s: State<K>): (r: State<K>)
    ensures r.sent == map[]
    ensures r.visible == s.visible && r.currentLoopCount == s.currentLoopCount
    ensures Valid(s) ==> Valid(r)
  {
    s.(sent := map[])
  }

  /**
   `setCurrentTimeToVisibleItemStartTime()`: every visible key restarts its
   timer at `now`; the set of keys, their order and the sent table are kept.
   */
  function SetCurrentTimeToVisibleItemStartTime<K(==)>(s: State<K>, now: int): (r: State<K>)
    ensures KeySeq(r.visible) == KeySeq(s.visible)
    ensures Keys(r.visible) == Keys(s.visible)
    ensures forall k | k in Keys(s.visible) :: Get(r.visible, k) == Some(now)
    ensures r.sent == s.sent && r.currentLoopCount == s.currentLoopCount
    ensures Valid(s) ==> Valid(r)
  {
    s.(visible := Restamp(s.visible, now))
  }

  /**
   `onLayoutCoordinatesChange(key, size, boundsRect, composeViewRect)` at
   clock time `now`. An impressed key is ignored. Otherwise a key that passes
   the geometry test starts its timer unless it already runs, and a key that
   fails it loses its timer. The sent table and the counter are never touched.
   */
  function OnLayoutCoordinatesChange<K(==)>(cfg: Config, s: State<K>, key: K, size: IntSize,
                                            bounds: Rect, view: Rect, now: int): (r: State<K>)
    ensures key in s.sent ==> r == s
    ensures r.sent == s.sent && r.currentLoopCount == s.currentLoopCount
    ensures key !in s.sent && SufficientlyVisible(size, bounds, view, cfg.visibleRatio) ==>
              && Keys(r.visible) == Keys(s.visible) + {key}
              && Get(r.visible, key) == (if key in Keys(s.visible) then Get(s.visible, key) else Some(now))
              && (key in Keys(s.visible) ==> r == s)
              && (key !in Keys(s.visible) ==> r.visible == s.visible + [VisibleItem(key, now)])
    ensures key !in s.sent && !SufficientlyVisible(size, bounds, view, cfg.visibleRatio) ==>
              && Keys(r.visible) == Keys(s.visible) - {key}
              && r == OnDispose(s, key)
    ensures forall x | x in Keys(s.visible) && x != key :: Get(r.visible, x) == Get(s.visible, x)
    ensures Valid(s) ==> Valid(r)
  {
    if key in s.sent then s
    else if SufficientlyVisible(size, bounds, view, cfg.visibleRatio) then
      s.(visible := GetOrPut(s.visible, key, now))
    else
      OnDispose(s, key)
  }

  /**
   The entries the loop selects: those whose timer started at or before
   `threshold` and whose key is not yet sent, in table order.
   */
  function Due<K(==)>(t: Table<K>, threshold: int, sent: map<K, Impression<K>>): (r: Table<K>)
    ensures forall x | x in r :: x in t && x.startTime <= threshold && x.key !in sent
    ensures forall x | x in t && x.startTime <= threshold && x.key !in sent :: x in r
  {
    if t == [] then []
    else
      var rest := Due(t[1..], threshold, sent);
      assert forall x | x in t[1..] :: x in t;
      assert forall x | x in t && x != t[0] :: x in t[1..];
      if t[0].startTime <= threshold && t[0].key !in sent then [t[0]] + rest else rest
  }

  /** Selecting entries from a table with distinct keys keeps the keys distinct. */
  lemma {:induction false} DueDistinct<K>(t: Table<K>, threshold: int, sent: map<K, Impression<K>>)
    requires DistinctKeys(t)
    ensures DistinctKeys(Due(t, threshold, sent))
  {
    if t != [] {
      var rest := Due(t[1..], threshold, sent);
      assert DistinctKeys(t[1..]);
      DueDistinct(t[1..], threshold, sent);
      forall x | x in rest ensures x.key != t[0].key {
        var i :| 0 <= i < |t[1..]| && t[1..][i] == x;
        assert t[i + 1] == x;
      }
    }
  }

  /**
   `impressions.forEach { mutableAlreadySentItems[it.key] = Impression(it.key, loopCount) }`:
   files each selected key under `loopCount`, in order.
   */
  function Record<K(==)>(due: Table<K>, sent: map<K, Impression<K>>, loopCount: int): (r: map<K, Impression<K>>)
    ensures r.Keys == sent.Keys + Keys(due)
    ensures forall k | k in Keys(due) :: r[k] == Impression(k, loopCount)
    ensures forall k | k in sent && k !in Keys(due) :: r[k] == sent[k]
  {
    map k | k in sent.Keys + Keys(due) :: if k in Keys(due) then Impression(k, loopCount) else sent[k]
  }

  /** The key is selected by a loop iteration at clock time `now`. */
  predicate IsDue<K(==)>(cfg: Config, s: State<K>, now: int, k: K)
  {
    && k !in s.sent
    && Get(s.visible, k).Some?
    && Get(s.visible, k).value <= now - cfg.impressionDurationMs
  }

  /**
   One iteration of the polling loop at clock time `now`: increments
   `currentLoopCount`, then promotes every visible key whose timer started at
   least `impressionDurationMs` ago and that is not sent yet, recording it
   under the new loop count and emitting it. Promoted keys stay in the visible
   table.
   */
  function Step<K(==)>(cfg: Config, s: State<K>, now: int): (r: StepResult<K>)
    ensures r.state.currentLoopCount == s.currentLoopCount + 1
    ensures r.state.visible == s.visible
    ensures forall k | k in s.sent :: k in r.state.sent && r.state.sent[k] == s.sent[k]
    ensures forall k | k in r.emitted :: k !in s.sent && k in Keys(s.visible)
    ensures forall k | k in r.emitted :: k in r.state.sent && r.state.sent[k] == Impression(k, r.state.currentLoopCount)
    ensures forall k | k in r.state.sent :: k in s.sent || k in r.emitted
    ensures Valid(s) ==> forall k | k in r.emitted :: IsDue(cfg, s, now, k)
    ensures Valid(s) ==> forall k | k in Keys(s.visible) && IsDue(cfg, s, now, k) :: k in r.emitted
    ensures Valid(s) ==> NoDuplicates(r.emitted)
    ensures Valid(s) ==> Valid(r.state)
    ensures IsSubsequence(r.emitted, KeySeq(s.visible))
  {
    var loopCount := s.currentLoopCount + 1;
    var due := Due(s.visible, now - cfg.impressionDurationMs, s.sent);
    var r := StepResult(State(s.visible, Record(due, s.sent, loopCount), loopCount), KeySeq(due));
    StepFacts(cfg, s, now, due, r);
    SelectionInTableOrder(s.visible, now - cfg.impressionDurationMs, s.sent, r.emitted);
    if Valid(s) then
      EmissionFacts(cfg, s, now, due, r.emitted);
      RecordKeepsValid(s, due);
      r
    else r
  }

  /** How the new sent table and the emitted keys relate to the old state. */
  lemma StepFacts<K>(cfg: Config, s: State<K>, now: int, due: Table<K>, r: StepResult<K>)
    requires due == Due(s.visible, now - cfg.impressionDurationMs, s.sent)
    requires r.emitted == KeySeq(due)
    requires r.state == State(s.visible, Record(due, s.sent, s.currentLoopCount + 1), s.currentLoopCount + 1)
    ensures forall k | k in s.sent :: k in r.state.sent && r.state.sent[k] == s.sent[k]
    ensures forall k | k in r.emitted :: k !in s.sent && k in Keys(s.visible)
    ensures forall k | k in r.emitted :: k in r.state.sent && r.state.sent[k] == Impression(k, r.state.currentLoopCount)
    ensures forall k | k in r.state.sent :: k in s.sent || k in r.emitted
  {
    KeySeqMembers(due);
    DueKeysSelected(s.visible, now - cfg.impressionDurationMs, s.sent);
  }

  /** On a table with distinct keys every selected key is due. */
  lemma SelectedAreDue<K>(cfg: Config, s: State<K>, now: int)
    requires DistinctKeys(s.visible)
    ensures forall k | k in KeySeq(Due(s.visible, now - cfg.impressionDurationMs, s.sent)) :: IsDue(cfg, s, now, k)
  {
    var threshold := now - cfg.impressionDurationMs;
    KeySeqMembers(Due(s.visible, threshold, s.sent));
    DueKeysSelected(s.visible, threshold, s.sent);
    DueKeysExact(s.visible, threshold, s.sent);
  }

  /** On a table with distinct keys every due key is selected. */
  lemma DueAreSelected<K>(cfg: Config, s: State<K>, now: int)
    requires DistinctKeys(s.visible)
    ensures forall k | k in Keys(s.visible) && IsDue(cfg, s, now, k) ::
              k in KeySeq(Due(s.visible, now - cfg.impressionDurationMs, s.sent))
  {
    var threshold := now - cfg.impressionDurationMs;
    var due := Due(s.visible, threshold, s.sent);
    forall k | k in Keys(s.visible) && IsDue(cfg, s, now, k) ensures k in KeySeq(due) {
      var j :| 0 <= j < |s.visible| && s.visible[j].key == k;
      assert s.visible[j] in due;
      var i :| 0 <= i < |due| && due[i] == s.visible[j];
      assert KeySeq(due)[i] == k;
    }
  }

  /** On a table with distinct keys no key is selected twice. */
  lemma SelectedOnce<K>(t: Table<K>, threshold: int, sent: map<K, Impression<K>>)
    requires DistinctKeys(t)
    ensures NoDuplicates(KeySeq(Due(t, threshold, sent)))
  {
    DueDistinct(t, threshold, sent);
    DistinctKeySeq(Due(t, threshold, sent));
  }

  /** On a table with distinct keys an iteration emits exactly the due keys, each once. */
  lemma EmissionFacts<K>(cfg: Config, s: State<K>, now: int, due: Table<K>, emitted: seq<K>)
    requires DistinctKeys(s.visible)
    requires due == Due(s.visible, now - cfg.impressionDurationMs, s.sent)
    requires emitted == KeySeq(due)
    ensures forall k | k in emitted :: IsDue(cfg, s, now, k)
    ensures forall k | k in Keys(s.visible) && IsDue(cfg, s, now, k) :: k in emitted
    ensures NoDuplicates(emitted)
  {
    SelectedAreDue(cfg, s, now);
    DueAreSelected(cfg, s, now);
    SelectedOnce(s.visible, now - cfg.impressionDurationMs, s.sent);
    assert emitted == KeySeq(Due(s.visible, now - cfg.impressionDurationMs, s.sent));
  }

  /** Recording any selection under the next loop count keeps the state valid. */
  lemma RecordKeepsValid<K>(s: State<K>, due: Table<K>)
    requires Valid(s)
    ensures Valid(State(s.visible, Record(due, s.sent, s.currentLoopCount + 1), s.currentLoopCount + 1))
  {
  }

  /** Every selected key is unsent and has an entry. */
  lemma DueKeysSelected<K>(t: Table<K>, threshold: int, sent: map<K, Impression<K>>)
    ensures forall k | k in Keys(Due(t, threshold, sent)) :: k !in sent && k in Keys(t)
  {
    var due := Due(t, threshold, sent);
    forall k | k in Keys(due) ensures k !in sent && k in Keys(t) {
      var i :| 0 <= i < |due| && due[i].key == k;
      var j :| 0 <= j < |t| && t[j] == due[i];
    }
  }

  /** With distinct keys, a key is selected exactly when its timer started by `threshold`. */
  lemma DueKeysExact<K>(t: Table<K>, threshold: int, sent: map<K, Impression<K>>)
    requires DistinctKeys(t)
    ensures forall k | k in Keys(Due(t, threshold, sent)) :: Get(t, k).Some? && Get(t, k).value <= threshold
    ensures forall k | k in Keys(t) && k !in sent && Get(t, k).value <= threshold :: k in Keys(Due(t, threshold, sent))
  {
    var due := Due(t, threshold, sent);
    forall k | k in Keys(due) ensures Get(t, k).Some? && Get(t, k).value <= threshold {
      var i :| 0 <= i < |due| && due[i].key == k;
      var j :| 0 <= j < |t| && t[j] == due[i];
    }
    forall k | k in Keys(t) && k !in sent && Get(t, k).value <= threshold ensures k in Keys(due) {
      var j :| 0 <= j < |t| && t[j].key == k;
      assert t[j] in due;
    }
  }

  /**
   The timer is armed once: a second report that still passes the geometry
   test, at any later time, changes nothing.
   */
  lemma RepeatedVisibleReportKeepsTimer<K>(cfg: Config, s: State<K>, key: K,
                                           size1: IntSize, bounds1: Rect, view1: Rect, t1: int,
                                           size2: IntSize, bounds2: Rect, view2: Rect, t2: int)
    requires SufficientlyVisible(size1, bounds1, view1, cfg.visibleRatio)
    requires SufficientlyVisible(size2, bounds2, view2, cfg.visibleRatio)
    ensures var s1 := OnLayoutCoordinatesChange(cfg, s, key, size1, bounds1, view1, t1);
            OnLayoutCoordinatesChange(cfg, s1, key, size2, bounds2, view2, t2) == s1
  {
  }

  /**
   Losing visibility discards the elapsed time: after a report that fails the
   geometry test, an unsent key has no timer, whatever it had before.
   */
  lemma LossRemovesTimer<K>(cfg: Config, s: State<K>, key: K,
                            size: IntSize, bounds: Rect, view: Rect, t: int)
    requires key !in s.sent
    requires !SufficientlyVisible(size, bounds, view, cfg.visibleRatio)
    ensures Get(OnLayoutCoordinatesChange(cfg, s, key, size, bounds, view, t).visible, key) == None
  {
  }

  /**
   After a disposal (or a failing report, see `LossRemovesTimer`), the next
   passing report of an unsent key restarts its timer at its own time.
   */
  lemma ReArmAfterLoss<K>(cfg: Config, s: State<K>, key: K,
                          size: IntSize, bounds: Rect, view: Rect, t: int)
    requires key !in s.sent
    requires Get(s.visible, key) == None
    requires SufficientlyVisible(size, bounds, view, cfg.visibleRatio)
    ensures Get(OnLayoutCoordinatesChange(cfg, s, key, size, bounds, view, t).visible, key) == Some(t)
    ensures Get(OnLayoutCoordinatesChange(cfg, OnDispose(s, key), key, size, bounds, view, t).visible, key) == Some(t)
  {
  }

  /**
   Debounce: a key whose timer started less than `impressionDurationMs`
   before `now` is neither emitted nor recorded by the iteration at `now`.
   */
  lemma NotImpressedBeforeDuration<K>(cfg: Config, s: State<K>, now: int, key: K)
    requires Valid(s)
    requires key !in s.sent
    requires Get(s.visible, key).Some? ==> now - Get(s.visible, key).value < cfg.impressionDurationMs
    ensures key !in Step(cfg, s, now).emitted
    ensures key !in Step(cfg, s, now).state.sent
  {
  }

  /**
   With `impressionDurationMs = 0` every unsent visible key whose timer
   started at or before `now` is impressed by the iteration at `now`.
   */
  lemma ZeroDurationImpressesStartedKeys<K>(cfg: Config, s: State<K>, now: int, key: K)
    requires cfg.impressionDurationMs == 0
    requires Valid(s)
    requires key !in s.sent
    requires Get(s.visible, key).Some? && Get(s.visible, key).value <= now
    ensures key in Step(cfg, s, now).emitted
    ensures Step(cfg, s, now).state.sent[key] == Impression(key, s.currentLoopCount + 1)
  {
  }

  /**
   `clearSentItems` makes impressed keys eligible again. Promoted keys stay
   in the visible table with their old timer, so a key whose timer is old
   enough is impressed again by the very next iteration, under a loop count
   larger than the one it was first recorded with.
   */
  lemma ClearMakesKeysEligibleAgain<K>(cfg: Config, s: State<K>, now: int, key: K)
    requires Valid(s)
    requires key in s.sent
    requires Get(s.visible, key).Some? && Get(s.visible, key).value <= now - cfg.impressionDurationMs
    ensures key in Step(cfg, ClearSentItems(s), now).emitted
    ensures Step(cfg, ClearSentItems(s), now).state.sent[key].impressionLoopCount > s.sent[key].impressionLoopCount
  {
  }

  /** `DueInTableOrder` for a key sequence `e` known to be the selection's keys. */
  lemma SelectionInTableOrder<K>(t: Table<K>, threshold: int, sent: map<K, Impression<K>>, e: seq<K>)
    requires e == KeySeq(Due(t, threshold, sent))
    ensures IsSubsequence(e, KeySeq(t))
  {
    DueInTableOrder(t, threshold, sent);
  }

  /**
   The selection keeps the table's insertion order, as `filter` over the
   `LinkedHashMap` does, so keys are emitted in the order they became visible.
   */
  lemma {:induction false} DueInTableOrder<K>(t: Table<K>, threshold: int, sent: map<K, Impression<K>>)
    ensures IsSubsequence(KeySeq(Due(t, threshold, sent)), KeySeq(t))
  {
    if t != [] {
      var due := Due(t, threshold, sent);
      var rest := Due(t[1..], threshold, sent);
      DueInTableOrder(t[1..], threshold, sent);
      assert KeySeq(t)[1..] == KeySeq(t[1..]);
      if t[0].startTime <= threshold && t[0].key !in sent {
        assert due == [t[0]] + rest;
        assert KeySeq(due)[1..] == KeySeq(rest);
      } else {
        assert due == rest;
      }
    }
  }

  /** A freshly constructed state is valid. */
  lemma InitValid<K>()
    ensures Valid(Init<K>())
  {
  }

}
