/**
 The unit-test scenarios of the library, replayed against the model for an
 arbitrary key. The loop is driven by hand: each `Step` is one iteration,
 with the clock value the test's time producer returns at that point. The
 tests' `advanceTimeBy(t)` sets that clock to `t` (it does not add `t`), while
 the loop's own virtual time advances by `t`, so an iteration can run with a
 clock reading smaller than its virtual time. Where
 the tests expect a promoted key to leave the visible table, the model (like
 the code it follows) keeps it there, and the lemmas say so.
 */
module Scenarios {

  import opened Wrappers
  import opened Sequences
  import opened Geometry
  import opened VisibleTable
  import opened ImpressionState

  /** The tests' element: 10 x 10 pixels, its bounds and the viewport both `Rect(0, 0, 10, 10)`. */
  lemma TestElementVisible(size: IntSize, rect: Rect, visibleRatio: real)
    requires size == IntSize(10, 10) && rect == Rect(0.0, 0.0, 10.0, 10.0)
    requires visibleRatio <= 1.0
    ensures SufficientlyVisible(size, rect, rect, visibleRatio)
  {
    TestElementArea(size);
    FullRectArea(rect);
    FullOverlapVisible(size, rect, visibleRatio);
  }

  lemma TestElementArea(size: IntSize)
    requires size == IntSize(10, 10)
    ensures ComponentArea(size) == 100
  {
  }

  lemma FullRectArea(rect: Rect)
    requires rect == Rect(0.0, 0.0, 10.0, 10.0)
    ensures RectArea(rect) == 100.0
  {
  }

  lemma SmallOverlap(outRect: Rect)
    requires outRect == Rect(0.0, 0.0, 3.0, 3.0)
    ensures VisibleWidth(outRect, outRect) == 3.0 && VisibleHeight(outRect, outRect) == 3.0
  {
    SelfOverlap(outRect);
  }

  lemma SelfOverlap(r: Rect)
    ensures VisibleWidth(r, r) == r.right - r.left
    ensures VisibleHeight(r, r) == r.bottom - r.top
  {
  }

  /** A 3 x 3 overlap of the 10 x 10 element (ratio 0.09) fails the threshold 0.5. */
  lemma SmallOverlapNotVisible(size: IntSize, outRect: Rect, visibleRatio: real)
    requires size == IntSize(10, 10) && outRect == Rect(0.0, 0.0, 3.0, 3.0)
    requires visibleRatio == 0.5
    ensures !SufficientlyVisible(size, outRect, outRect, visibleRatio)
  {
    TestElementArea(size);
    SmallOverlap(outRect);
    NineOfHundredBelowHalf(size, outRect, visibleRatio);
  }

  lemma NineOfHundredBelowHalf(size: IntSize, r: Rect, visibleRatio: real)
    requires ComponentArea(size) == 100
    requires VisibleWidth(r, r) == 3.0 && VisibleHeight(r, r) == 3.0
    requires visibleRatio == 0.5
    ensures !SufficientlyVisible(size, r, r, visibleRatio)
  {
  }

  /** The element reported with its bounds equal to the viewport. */
  function Report<K(==)>(cfg: Config, s: State<K>, key: K, size: IntSize, rect: Rect, now: int): State<K>
  {
    OnLayoutCoordinatesChange(cfg, s, key, size, rect, rect, now)
  }

  /** The first visible report of a key on a fresh state starts its timer and nothing else. */
  lemma FirstReport<K>(cfg: Config, key: K, size: IntSize, rect: Rect, now: int)
    requires SufficientlyVisible(size, rect, rect, cfg.visibleRatio)
    ensures var s := Report(cfg, Init(), key, size, rect, now);
            && Valid(s)
            && Keys(s.visible) == {key}
            && Get(s.visible, key) == Some(now)
            && s.sent == map[] && s.currentLoopCount == -1
  {
    var s0: State<K> := Init();
    assert Keys(s0.visible) == {};
  }

  /** An iteration over a state with one visible key, unsent and due, emits exactly that key. */
  lemma SingleDueKeyStep<K>(cfg: Config, s: State<K>, now: int, key: K)
    requires Valid(s)
    requires Keys(s.visible) == {key}
    requires key !in s.sent
    requires Get(s.visible, key).Some? && Get(s.visible, key).value <= now - cfg.impressionDurationMs
    ensures Step(cfg, s, now).emitted == [key]
    ensures Step(cfg, s, now).state.sent == s.sent[key := Impression(key, s.currentLoopCount + 1)]
  {
    var r := Step(cfg, s, now);
    SingletonSeq(r.emitted, key);
  }

  /** An iteration in which nothing is due emits nothing and records nothing. */
  lemma NothingDueStep<K>(cfg: Config, s: State<K>, now: int)
    requires Valid(s)
    requires forall k | k in Keys(s.visible) :: !IsDue(cfg, s, now, k)
    ensures Step(cfg, s, now).emitted == []
    ensures Step(cfg, s, now).state.sent == s.sent
  {
    var e := Step(cfg, s, now).emitted;
    assert forall x | x in multiset(e) :: x in e;
    assert multiset(e) == multiset{};
  }

  /** Reported at 0 and polled at 500: the timer runs, nothing is impressed yet. */
  lemma ImpressingScenario<K>(key: K, size: IntSize, rect: Rect)
    requires SufficientlyVisible(size, rect, rect, DefaultVisibleRatio)
    ensures var s1 := Report(DefaultConfig, Init(), key, size, rect, 0);
            var r := Step(DefaultConfig, s1, 500);
            && r.emitted == []
            && r.state.sent == map[]
            && Keys(r.state.visible) == {key}
            && Get(r.state.visible, key) == Some(0)
  {
    FirstReport(DefaultConfig, key, size, rect, 0);
    NothingDueStep(DefaultConfig, Report(DefaultConfig, Init(), key, size, rect, 0), 500);
  }

  /**
   Reported at 0 and polled at 1000: impressed by iteration 0 and emitted.
   The key also stays in the visible table with its timer.
   */
  lemma ImpressedScenario<K>(key: K, size: IntSize, rect: Rect)
    requires SufficientlyVisible(size, rect, rect, DefaultVisibleRatio)
    ensures var s1 := Report(DefaultConfig, Init(), key, size, rect, 0);
            var r := Step(DefaultConfig, s1, 1000);
            && r.emitted == [key]
            && r.state.sent == map[key := Impression(key, 0)]
            && Keys(r.state.visible) == {key}
            && Get(r.state.visible, key) == Some(0)
  {
    FirstReport(DefaultConfig, key, size, rect, 0);
    SingleDueKeyStep(DefaultConfig, Report(DefaultConfig, Init(), key, size, rect, 0), 1000, key);
  }

  /**
   The impression is stamped with the loop count observed right after the
   report, plus one: the iteration that runs next.
   */
  lemma CaptureNextImpressionScenario<K>(key: K, size: IntSize, rect: Rect)
    requires SufficientlyVisible(size, rect, rect, DefaultVisibleRatio)
    ensures var s1 := Report(DefaultConfig, Init(), key, size, rect, 0);
            var r := Step(DefaultConfig, s1, 1000);
            && key in r.state.sent
            && r.state.sent[key].impressionLoopCount == s1.currentLoopCount + 1
  {
    ImpressedScenario(key, size, rect);
    FirstReport(DefaultConfig, key, size, rect, 0);
  }

  /**
   A 3 x 3 overlap of the 10 x 10 element at 500 drops the timer, so the
   next iteration impresses nothing. The second `advanceTimeBy(500)` sets
   the clock to 500 again, so that iteration also reads 500.
   */
  lemma NotImpressedWhenOutScenario<K>(key: K, size: IntSize, rect: Rect, outRect: Rect)
    requires SufficientlyVisible(size, rect, rect, DefaultVisibleRatio)
    requires !SufficientlyVisible(size, outRect, outRect, DefaultVisibleRatio)
    ensures var s1 := Report(DefaultConfig, Init(), key, size, rect, 0);
            var s2 := Step(DefaultConfig, s1, 500).state;
            var s3 := Report(DefaultConfig, s2, key, size, outRect, 500);
            var r := Step(DefaultConfig, s3, 500);
            && Keys(s3.visible) == {}
            && r.emitted == []
            && r.state.sent == map[]
  {
    ImpressingScenario(key, size, rect);
    var s2 := Step(DefaultConfig, Report(DefaultConfig, Init(), key, size, rect, 0), 500).state;
    NothingDueStep(DefaultConfig, Report(DefaultConfig, s2, key, size, outRect, 500), 500);
  }

  /**
   Disposed at 500 before its duration elapsed: never impressed. The next
   iteration again reads the clock as 500.
   */
  lemma NotImpressedWhenDisposedScenario<K>(key: K, size: IntSize, rect: Rect)
    requires SufficientlyVisible(size, rect, rect, DefaultVisibleRatio)
    ensures var s1 := Report(DefaultConfig, Init(), key, size, rect, 0);
            var s2 := OnDispose(Step(DefaultConfig, s1, 500).state, key);
            var r := Step(DefaultConfig, s2, 500);
            && Keys(s2.visible) == {}
            && r.emitted == []
            && r.state.sent == map[]
  {
    ImpressingScenario(key, size, rect);
    var s1 := Report(DefaultConfig, Init(), key, size, rect, 0);
    NothingDueStep(DefaultConfig, OnDispose(Step(DefaultConfig, s1, 500).state, key), 500);
  }

  /** Two keys reported at 0 are impressed by the same iteration (iteration 0), in report order. */
  lemma MultipleImpressScenario<K>(key1: K, key2: K, size: IntSize, rect: Rect)
    requires key1 != key2
    requires SufficientlyVisible(size, rect, rect, DefaultVisibleRatio)
    ensures var s1 := Report(DefaultConfig, Report(DefaultConfig, Init(), key1, size, rect, 0), key2, size, rect, 0);
            var r := Step(DefaultConfig, s1, 1000);
            && r.emitted == [key1, key2]
            && r.state.sent == map[key1 := Impression(key1, 0), key2 := Impression(key2, 0)]
  {
    TwoReports(DefaultConfig, key1, key2, size, rect, 0);
    var s1 := Report(DefaultConfig, Report(DefaultConfig, Init(), key1, size, rect, 0), key2, size, rect, 0);
    TwoDueKeysStep(DefaultConfig, s1, 1000, key1, key2);
  }

  /** Two distinct keys reported visible on a fresh state are timed in report order. */
  lemma TwoReports<K>(cfg: Config, key1: K, key2: K, size: IntSize, rect: Rect, now: int)
    requires key1 != key2
    requires SufficientlyVisible(size, rect, rect, cfg.visibleRatio)
    ensures var s1 := Report(cfg, Report(cfg, Init(), key1, size, rect, now), key2, size, rect, now);
            && Valid(s1)
            && s1.visible == [VisibleItem(key1, now), VisibleItem(key2, now)]
            && s1.sent == map[] && s1.currentLoopCount == -1
  {
    FirstReport(cfg, key1, size, rect, now);
    var s0 := Report(cfg, Init(), key1, size, rect, now);
    SingleEntry(s0.visible, key1);
    assert key2 !in Keys(s0.visible);
  }

  /** An iteration over a fresh-sent state with two due keys emits both, in table order. */
  lemma TwoDueKeysStep<K>(cfg: Config, s: State<K>, now: int, key1: K, key2: K)
    requires Valid(s)
    requires key1 != key2
    requires s.visible == [VisibleItem(key1, now - cfg.impressionDurationMs), VisibleItem(key2, now - cfg.impressionDurationMs)]
    requires s.sent == map[]
    ensures Step(cfg, s, now).emitted == [key1, key2]
    ensures Step(cfg, s, now).state.sent
            == map[key1 := Impression(key1, s.currentLoopCount + 1), key2 := Impression(key2, s.currentLoopCount + 1)]
  {
    var threshold := now - cfg.impressionDurationMs;
    PairTable(s.visible, key1, key2, threshold);
    assert Due(s.visible[1..], threshold, s.sent) == [s.visible[1]] by {
      assert s.visible[1..][1..] == [];
    }
    assert Due(s.visible, threshold, s.sent) == s.visible;
    var r := Step(cfg, s, now);
    assert r.state.sent.Keys == {key1, key2};
  }

  /** Lookups in a two-entry table. */
  lemma PairTable<K>(t: Table<K>, key1: K, key2: K, start: int)
    requires key1 != key2
    requires t == [VisibleItem(key1, start), VisibleItem(key2, start)]
    ensures Keys(t) == {key1, key2}
    ensures KeySeq(t) == [key1, key2]
    ensures Get(t, key1) == Some(start) && Get(t, key2) == Some(start)
  {
    assert t[0].key == key1 && t[1].key == key2;
    assert t[1..] == [VisibleItem(key2, start)];
    KeysOfCons(t);
    KeysOfCons(t[1..]);
    assert t[1..][1..] == [];
  }

  /** A table whose only key is `key` is the one entry for it. */
  lemma SingleEntry<K>(t: Table<K>, key: K)
    requires DistinctKeys(t)
    requires Keys(t) == {key}
    ensures t == [VisibleItem(key, Get(t, key).value)]
  {
    DistinctKeySeq(t);
    KeySeqMembers(t);
    SingletonSeq(KeySeq(t), key);
    assert t[0].key == KeySeq(t)[0];
  }

  /**
   Once impressed, reports that hide or show the key again change nothing,
   and later iterations never re-impress it: its loop count stays 0.
   */
  lemma NotImpressedTwiceScenario<K>(key: K, size: IntSize, rect: Rect, zero: Rect)
    requires SufficientlyVisible(size, rect, rect, DefaultVisibleRatio)
    ensures var s1 := Step(DefaultConfig, Report(DefaultConfig, Init(), key, size, rect, 0), 1000).state;
            var s2 := Report(DefaultConfig, s1, key, size, zero, 1000);
            var r2 := Step(DefaultConfig, s2, 2000);
            var s3 := Report(DefaultConfig, r2.state, key, size, rect, 2000);
            var r3 := Step(DefaultConfig, s3, 2000);
            && s2 == s1
            && s3 == r2.state
            && r2.emitted == [] && r3.emitted == []
            && r3.state.sent == map[key := Impression(key, 0)]
  {
    ImpressedScenario(key, size, rect);
    FirstReport(DefaultConfig, key, size, rect, 0);
    var s1 := Step(DefaultConfig, Report(DefaultConfig, Init(), key, size, rect, 0), 1000).state;
    NothingDueStep(DefaultConfig, s1, 2000);
    var r2 := Step(DefaultConfig, s1, 2000);
    NothingDueStep(DefaultConfig, r2.state, 2000);
  }

  /**
   After `clearSentItems` the key is impressed again. Its old timer is still in
   the visible table, so the re-report keeps it and the next iteration
   (iteration 2) impresses the key.
   */
  lemma ClearSentItemsScenario<K>(key: K, size: IntSize, rect: Rect)
    requires SufficientlyVisible(size, rect, rect, DefaultVisibleRatio)
    ensures var r0 := Step(DefaultConfig, Report(DefaultConfig, Init(), key, size, rect, 0), 1000);
            var r1 := Step(DefaultConfig, r0.state, 1000);
            var s2 := Report(DefaultConfig, ClearSentItems(r1.state), key, size, rect, 1000);
            var r2 := Step(DefaultConfig, s2, 2000);
            && r0.emitted == [key] && r1.emitted == []
            && Get(s2.visible, key) == Some(0)
            && r2.emitted == [key]
            && r2.state.sent == map[key := Impression(key, 2)]
  {
    ImpressedScenario(key, size, rect);
    FirstReport(DefaultConfig, key, size, rect, 0);
    var r0 := Step(DefaultConfig, Report(DefaultConfig, Init(), key, size, rect, 0), 1000);
    NothingDueStep(DefaultConfig, r0.state, 1000);
    var r1 := Step(DefaultConfig, r0.state, 1000);
    var s2 := Report(DefaultConfig, ClearSentItems(r1.state), key, size, rect, 1000);
    SingleDueKeyStep(DefaultConfig, s2, 2000, key);
  }

  /** With a zero duration the first iteration after the report impresses the key. */
  lemma ZeroDurationScenario<K>(key: K, size: IntSize, rect: Rect)
    requires SufficientlyVisible(size, rect, rect, DefaultVisibleRatio)
    ensures var cfg := DefaultConfig.(impressionDurationMs := 0);
            var r := Step(cfg, Report(cfg, Init(), key, size, rect, 0), 1);
            && r.emitted == [key]
            && r.state.sent == map[key := Impression(key, 0)]
  {
    var cfg := DefaultConfig.(impressionDurationMs := 0);
    FirstReport(cfg, key, size, rect, 0);
    SingleDueKeyStep(cfg, Report(cfg, Init(), key, size, rect, 0), 1, key);
  }

  /**
   With `visibleRatio = 1` the tests' element, whose bounds coincide with the
   viewport, still qualifies because the test is `>=`, and is impressed.
   */
  lemma CompleteVisibleScenario<K>(key: K)
    ensures var cfg := DefaultConfig.(visibleRatio := 1.0);
            var r := Step(cfg, Report(cfg, Init(), key, IntSize(10, 10), Rect(0.0, 0.0, 10.0, 10.0), 0), 1000);
            && r.emitted == [key]
            && r.state.sent == map[key := Impression(key, 0)]
  {
    var cfg := DefaultConfig.(visibleRatio := 1.0);
    var size := IntSize(10, 10);
    var rect := Rect(0.0, 0.0, 10.0, 10.0);
    TestElementVisible(size, rect, 1.0);
    FirstReport(cfg, key, size, rect, 0);
    SingleDueKeyStep(cfg, Report(cfg, Init(), key, size, rect, 0), 1000, key);
  }

}
