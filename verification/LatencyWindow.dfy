/** The query host's window of latency samples and the p99 it reports. */
module LatencyWindow {
  import opened Bytes
  import opened Sequences
  import opened Sorting

  const LAT_SAMPLES_CAP: nat := 12288

  /** The window after one more sample: a full one first loses its oldest quarter. */
  function Record(window: seq<nat>, latency: nat): (w: seq<nat>) {
    (if |window| >= LAT_SAMPLES_CAP then window[|window| / 4..] else window) + [latency]
  }

  function Window(history: seq<nat>): (w: seq<nat>) {
    if history == [] then [] else Record(Window(history[..|history| - 1]), history[|history| - 1])
  }

  lemma WindowStep(history: seq<nat>, latency: nat)
    ensures Window(history + [latency]) == Record(Window(history), latency)
  {
    assert (history + [latency])[..|history|] == history;
  }

  ghost predicate IsSuffix(w: seq<nat>, history: seq<nat>) {
    |w| <= |history| && history[|history| - |w|..] == w
  }

  lemma DropKeepsSuffix(w: seq<nat>, history: seq<nat>, k: nat)
    requires IsSuffix(w, history) && k <= |w|
    ensures IsSuffix(w[k..], history)
  {
  }

  lemma SnocKeepsSuffix(w: seq<nat>, history: seq<nat>, x: nat)
    requires IsSuffix(w, history)
    ensures IsSuffix(w + [x], history + [x])
  {
  }

  /** The window's length: everything until it is first full, then it cycles through
      9217..12288. */
  lemma {:induction false} WindowLength(history: seq<nat>)
    ensures |Window(history)|
         == if |history| <= LAT_SAMPLES_CAP then |history|
            else 9217 + (|history| - LAT_SAMPLES_CAP - 1) % 3072
  {
    if history != [] {
      WindowLength(history[..|history| - 1]);
    }
  }

  lemma {:induction false} Suffix(history: seq<nat>)
    ensures IsSuffix(Window(history), history)
  {
    if history != [] {
      var (before, x) := (history[..|history| - 1], history[|history| - 1]);
      Suffix(before);
      var w := Window(before);
      var k := if |w| >= LAT_SAMPLES_CAP then |w| / 4 else 0;
      DropKeepsSuffix(w, before, k);
      SnocKeepsSuffix(w[k..], before, x);
      assert history == before + [x] && w[0..] == w;
    }
  }

  /** The window is always a suffix of everything recorded: all of it until the first
      trim, and between 9217 and 12288 samples ever after. */
  lemma {:induction false} WindowIsSuffix(history: seq<nat>)
    ensures IsSuffix(Window(history), history)
    ensures |history| <= 12288 ==> Window(history) == history
    ensures |history| > 12288 ==> 9217 <= |Window(history)| <= 12288
  {
    WindowLength(history);
    Suffix(history);
  }

  /** min(floor(99/100 n), n - 1) */
  function P99Index(n: nat): (i: nat)
    requires n > 0
    ensures i < n
  {
    var i := 99 * n / 100;
    if i < n - 1 then i else n - 1
  }

  /** More than 99 in 100 samples are at most `v`, and at most 99 in 100 are below it: only one
      sample is so placed. */
  ghost predicate IsP99(window: seq<nat>, v: nat)
    requires window != []
  {
    && v in window
    && 100 * CountIf(AtMost(v), window) > 99 * |window|
    && 100 * CountIf(LessThan(v), window) <= 99 * |window|
  }

  lemma CountGrows(window: seq<nat>, v: nat, w: nat)
    requires v < w
    ensures CountIf(AtMost(v), window) <= CountIf(LessThan(w), window)
  {
    if window != [] {
      CountGrows(window[..|window| - 1], v, w);
    }
  }

  lemma P99Once(window: seq<nat>, v: nat, w: nat)
    requires window != [] && IsP99(window, v) && IsP99(window, w)
    ensures v == w
  {
    if v < w {
      CountGrows(window, v, w);
    } else if w < v {
      CountGrows(window, w, v);
    }
  }

  lemma SortedFacts(window: seq<nat>)
    ensures Sorted(NatLeq, Sort(NatLeq, window))
    ensures |Sort(NatLeq, window)| == |window|
  {
    NatOrder();
    SortSorted(NatLeq, window);
    assert |Sort(NatLeq, window)| == |multiset(Sort(NatLeq, window))| == |window|;
  }

  /** `v` stands at index `i` of the window's ascending arrangement, of which there is only one. */
  ghost predicate RankedIn(window: seq<nat>, v: nat, i: nat) {
    exists sorted: seq<nat> :: IsArrangement(sorted, window) && i < |sorted| && sorted[i] == v
  }

  ghost predicate IsArrangement(sorted: seq<nat>, window: seq<nat>) {
    Sorted(NatLeq, sorted) && multiset(sorted) == multiset(window)
  }

  /** The rank determines the sample. */
  lemma RankedOnce(window: seq<nat>, v: nat, w: nat, i: nat)
    requires RankedIn(window, v, i) && RankedIn(window, w, i)
    ensures v == w
  {
    NatOrder();
    var a: seq<nat> :| IsArrangement(a, window) && i < |a| && a[i] == v;
    var b: seq<nat> :| IsArrangement(b, window) && i < |b| && b[i] == w;
    SortedUnique(NatLeq, a, b);
  }

  /** The sample at the computed rank is a 99th percentile. */
  lemma RankIsP99(window: seq<nat>, v: nat)
    requires window != [] && RankedIn(window, v, P99Index(|window|))
    ensures IsP99(window, v)
  {
    var i := P99Index(|window|);
    var sorted: seq<nat> :| IsArrangement(sorted, window) && i < |sorted| && sorted[i] == v;
    ArrangementIsP99(sorted, window, i);
  }

  lemma ArrangementIsP99(sorted: seq<nat>, window: seq<nat>, i: nat)
    requires window != [] && i == P99Index(|window|) && IsArrangement(sorted, window) && i < |sorted|
    ensures IsP99(window, sorted[i])
  {
    NatOrder();
    SameMembers(sorted, window);
    CountPermutation(AtMost(sorted[i]), sorted, window);
    CountPermutation(LessThan(sorted[i]), sorted, window);
    CountAround(sorted, i, sorted[i]);
  }

  function Micros(ns: nat): (us: real) {
    ns as real / 1000.0
  }

  class Agg {
    var latNs: seq<nat>
    var queriesTotal: u64
    ghost var history: seq<nat>

    ghost predicate Valid()
      reads this
    {
      latNs == Window(history) && queriesTotal == |history| % U64
    }

    constructor ()
      ensures Valid() && history == []
    {
      latNs, queriesTotal, history := [], 0, [];
    }

    method RecordQuery(latency: u64)
      requires Valid()
      modifies this
      ensures Valid() && history == old(history) + [latency]
      ensures latNs == Record(old(latNs), latency)
    {
      WindowStep(history, latency);
      WrapAdd(|history|, 1);
      queriesTotal := (queriesTotal + 1) % U64;
      if |latNs| >= LAT_SAMPLES_CAP {
        latNs := latNs[|latNs| / 4..];
      }
      latNs := latNs + [latency];
      history := history + [latency];
    }

    /** The sample at the rank in the sorted window, in microseconds; 0 for an empty window. */
    method P99LatencyUs() returns (us: real, ghost p99: nat)
      requires Valid()
      ensures history == [] ==> us == 0.0
      ensures history != [] ==> latNs != [] && us * 1000.0 == p99 as real && IsP99(latNs, p99)
      ensures history != [] ==> RankedIn(latNs, p99, P99Index(|latNs|))
    {
      if |latNs| == 0 {
        return 0.0, 0;
      }
      SortedFacts(latNs);
      var v := Sort(NatLeq, latNs);
      var idx := P99Index(|v|);
      assert IsArrangement(v, latNs);
      RankIsP99(latNs, v[idx]);
      return Micros(v[idx]), v[idx];
    }
  }
}
