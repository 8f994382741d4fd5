/**
 Runs of the engine: an interleaving of layout reports, disposals, loop
 iterations, timer restarts and `clearSentItems` calls, each applied in turn
 to the state, with the emissions of every loop iteration concatenated. The
 source serialises nothing; a run is one sequential interleaving.
 */
module Trace {

  import opened Wrappers
  import opened Sequences
  import opened Geometry
  import opened VisibleTable
  import opened ImpressionState

  datatype Event<K> =
    | LayoutChanged(key: K, size: IntSize, bounds: Rect, view: Rect, now: int)
    | Disposed(key: K)
    | LoopIteration(now: int)
    | TimersRestarted(now: int)
    | SentCleared

  /** Applies one event; only a loop iteration emits. */
  function Apply<K(==)>(cfg: Config, s: State<K>, e: Event<K>): (r: StepResult<K>)
    ensures !e.LoopIteration? ==> r.emitted == []
    ensures !e.SentCleared? ==> forall k | k in s.sent :: k in r.state.sent && r.state.sent[k] == s.sent[k]
    ensures !e.SentCleared? ==> forall k | k in r.state.sent :: k in s.sent || k in r.emitted
    ensures forall k | k in r.emitted :: k !in s.sent && k in r.state.sent
    ensures Valid(s) ==> NoDuplicates(r.emitted) && Valid(r.state)
  {
    match e
    case LayoutChanged(key, size, bounds, view, now) =>
      StepResult(OnLayoutCoordinatesChange(cfg, s, key, size, bounds, view, now), [])
    case Disposed(key) => StepResult(OnDispose(s, key), [])
    case LoopIteration(now) => Step(cfg, s, now)
    case TimersRestarted(now) => StepResult(SetCurrentTimeToVisibleItemStartTime(s, now), [])
    case SentCleared => StepResult(ClearSentItems(s), [])
  }

  /** Applies the events in order, concatenating what they emit. */
  function Run<K(==)>(cfg: Config, s: State<K>, es: seq<Event<K>>): StepResult<K>
    decreases |es|
  {
    if es == [] then StepResult(s, [])
    else
      var first := Apply(cfg, s, es[0]);
      var rest := Run(cfg, first.state, es[1..]);
      StepResult(rest.state, first.emitted + rest.emitted)
  }

  /**
   Every state reachable from a valid one is valid, whatever the events,
   clears included; with `InitValid` this covers every state a freshly
   constructed engine reaches.
   */
  lemma {:induction false} RunKeepsValid<K>(cfg: Config, s: State<K>, es: seq<Event<K>>)
    requires Valid(s)
    ensures Valid(Run(cfg, s, es).state)
    decreases |es|
  {
    if es != [] {
      RunKeepsValid(cfg, Apply(cfg, s, es[0]).state, es[1..]);
    }
  }

  /** Every state a freshly constructed engine reaches is valid. */
  lemma ReachableValid<K>(cfg: Config, es: seq<Event<K>>)
    ensures Valid(Run(cfg, Init(), es).state)
  {
    InitValid<K>();
    RunKeepsValid(cfg, Init(), es);
  }

  predicate NoClear<K>(es: seq<Event<K>>)
  {
    forall i | 0 <= i < |es| :: !es[i].SentCleared?
  }

  /**
   What a run from `s` to `r` without `clearSentItems` guarantees: no key is
   emitted twice, no key impressed before the run is emitted again, every
   impression recorded before the run keeps its loop count, every emitted key
   ends up recorded under a loop count of an iteration within the run, and
   nothing else is recorded.
   */
  predicate FiresOnce<K(==)>(s: State<K>, r: StepResult<K>)
  {
    && NoDuplicates(r.emitted)
    && (forall k | k in r.emitted :: k !in s.sent)
    && (forall k | k in s.sent :: k in r.state.sent && r.state.sent[k] == s.sent[k])
    && (forall k | k in r.emitted ::
          k in r.state.sent && s.currentLoopCount < r.state.sent[k].impressionLoopCount)
    && (forall k | k in r.state.sent :: k in s.sent || k in r.emitted)
  }

  /** Fire-once holds of every run from a reachable state that does not clear the sent table. */
  lemma {:induction false} FireOnce<K>(cfg: Config, s: State<K>, es: seq<Event<K>>)
    requires Valid(s)
    requires NoClear(es)
    ensures FiresOnce(s, Run(cfg, s, es))
    ensures Valid(Run(cfg, s, es).state)
    decreases |es|
  {
    if es != [] {
      var first := Apply(cfg, s, es[0]);
      var rest := Run(cfg, first.state, es[1..]);
      assert NoClear(es[1..]) by {
        forall i | 0 <= i < |es[1..]| ensures !es[1..][i].SentCleared? {
          assert es[1..][i] == es[i + 1];
        }
      }
      FireOnce(cfg, first.state, es[1..]);
      FiresOnceCompose(cfg, s, es[0], rest);
    }
  }

  /** One event followed by a fire-once run is a fire-once run. */
  lemma FiresOnceCompose<K>(cfg: Config, s: State<K>, e: Event<K>, rest: StepResult<K>)
    requires Valid(s)
    requires !e.SentCleared?
    requires FiresOnce(Apply(cfg, s, e).state, rest)
    ensures FiresOnce(s, StepResult(rest.state, Apply(cfg, s, e).emitted + rest.emitted))
  {
    var first := Apply(cfg, s, e);
    var r := StepResult(rest.state, first.emitted + rest.emitted);
    LoopCountGrows(cfg, s, e);
    forall k | k in first.emitted ensures k !in rest.emitted {
      assert k in first.state.sent;
    }
    ConcatNoDuplicates(first.emitted, rest.emitted);
    forall k | k in r.emitted
      ensures k !in s.sent
      ensures k in r.state.sent && s.currentLoopCount < r.state.sent[k].impressionLoopCount
    {
      if k in first.emitted {
        assert k in first.state.sent;
      }
    }
  }

  /** An event never lowers the loop counter, and every new impression is stamped above the old counter. */
  lemma LoopCountGrows<K>(cfg: Config, s: State<K>, e: Event<K>)
    requires Valid(s)
    ensures Apply(cfg, s, e).state.currentLoopCount >= s.currentLoopCount
    ensures forall k | k in Apply(cfg, s, e).emitted ::
              Apply(cfg, s, e).state.sent[k].impressionLoopCount > s.currentLoopCount
  {
  }

}
