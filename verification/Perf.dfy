/**
 Per-thread timing histograms and the report that merges them.
 */
module Perf {
  import opened Words

  const BINS: nat := 64
  const CLOCK: nat := 0x1_0000_0000_0000_0000

  // Counters are taken below the width at which they wrap.
  datatype Stats = Stats(num: nat, min: nat, max: nat, hist: seq<nat>)

  function Zeros(n: nat): (h: seq<nat>)
    ensures |h| == n && forall k :: 0 <= k < n ==> h[k] == 0
  {
    seq(n, _ => 0)
  }

  function Empty(): Stats {
    Stats(0, 0, 0, Zeros(BINS))
  }

  function Sum(a: seq<nat>, b: seq<nat>): (h: seq<nat>)
    requires |a| == |b|
    ensures |h| == |a| && forall k :: 0 <= k < |a| ==> h[k] == a[k] + b[k]
  {
    seq(|a|, k requires 0 <= k < |a| => a[k] + b[k])
  }

  // jbpf_get_time_diff_ns on 64-bit clock values
  function Elapsed(start: nat, end: nat): (d: nat)
    requires start < CLOCK && end < CLOCK
    ensures d < CLOCK && (start + d) % CLOCK == end
  {
    if start == end then 0
    else if end >= start then end - start
    else CLOCK - 1 - start + end + 1
  }

  // JBPF_NUM_HIST_BINS - 1 - clzll(t), capped at the last bin
  function BinOf(t: nat): (k: nat)
    requires t > 0
    ensures k < BINS
  {
    var k := Width(t) - 1;
    if k >= BINS then BINS - 1 else k
  }

  /** Bin k holds the times in [2^k, 2^(k+1)). */
  lemma BinSpec(t: nat, k: nat)
    requires 0 < t < CLOCK && k < BINS
    ensures BinOf(t) == k <==> Pow2(k) <= t < Pow2(k + 1)
  {
    Pow2Of64();
    WidthBound(t, k);
    WidthBound(t, k + 1);
    WidthBound(t, BINS);
  }

  lemma Pow2Of64()
    ensures Pow2(64) == CLOCK
  {
    Pow2Of32();
    Pow2Add(32, 32);
  }

  // ---------- logging ----------

  predicate Wf(s: Stats) {
    |s.hist| == BINS
  }

  // _jbpf_perf_log with a measured time t; a time of 0 is not a sample.
  function Log(s: Stats, t: nat): Stats
    requires Wf(s)
  {
    if t == 0 then s
    else Stats(s.num + 1,
               if t < s.min || s.min == 0 then t else s.min,
               if t > s.max then t else s.max,
               s.hist[BinOf(t) := s.hist[BinOf(t)] + 1])
  }

  function LogAll(ts: seq<nat>): (s: Stats)
    ensures Wf(s)
  {
    if ts == [] then Empty() else Log(LogAll(ts[..|ts| - 1]), ts[|ts| - 1])
  }

  // ---------- what a log holds ----------

  function Count(ts: seq<nat>): nat {
    if ts == [] then 0 else Count(ts[..|ts| - 1]) + (if ts[|ts| - 1] > 0 then 1 else 0)
  }

  function CountBin(ts: seq<nat>, k: nat): nat {
    if ts == [] then 0
    else CountBin(ts[..|ts| - 1], k) + (if ts[|ts| - 1] > 0 && BinOf(ts[|ts| - 1]) == k then 1 else 0)
  }

  ghost predicate LeastPositive(ts: seq<nat>, m: nat) {
    if Count(ts) == 0 then m == 0 else m > 0 && m in ts && forall i :: 0 <= i < |ts| && ts[i] > 0 ==> m <= ts[i]
  }

  ghost predicate Greatest(ts: seq<nat>, m: nat) {
    if Count(ts) == 0 then m == 0 else m in ts && forall i :: 0 <= i < |ts| ==> ts[i] <= m
  }

  lemma {:induction false} NoSamples(ts: seq<nat>)
    ensures Count(ts) == 0 <==> forall i :: 0 <= i < |ts| ==> ts[i] == 0
  {
    if ts != [] {
      var h := ts[..|ts| - 1];
      NoSamples(h);
      assert forall i :: 0 <= i < |h| ==> h[i] == ts[i];
    }
  }

  /** A log of a stream of times holds its number of samples, least and greatest, and the number
      of samples in each bin. */
  lemma {:induction false} LogIsSummary(ts: seq<nat>, k: nat)
    requires k < BINS
    ensures var s := LogAll(ts);
            s.num == Count(ts) && LeastPositive(ts, s.min) && Greatest(ts, s.max) && s.hist[k] == CountBin(ts, k)
  {
    if ts != [] {
      var h, t := ts[..|ts| - 1], ts[|ts| - 1];
      LogIsSummary(h, k);
      NoSamples(h);
      assert ts == h + [t];
    }
  }

  // ---------- merging ----------

  // One round of the loops of jbpf_report_perf_stats.
  function Merge(acc: Stats, s: Stats): Stats
    requires Wf(acc) && Wf(s)
  {
    Stats(acc.num + s.num,
          if acc.min == 0 || (acc.min > s.min && s.min > 0) then s.min else acc.min,
          if acc.max < s.max then s.max else acc.max,
          Sum(acc.hist, s.hist))
  }

  function MergeAll(parts: seq<Stats>): (s: Stats)
    requires forall i :: 0 <= i < |parts| ==> Wf(parts[i])
    ensures Wf(s)
  {
    if parts == [] then Empty() else Merge(MergeAll(parts[..|parts| - 1]), parts[|parts| - 1])
  }

  function Concat(streams: seq<seq<nat>>): seq<nat> {
    if streams == [] then [] else Concat(streams[..|streams| - 1]) + streams[|streams| - 1]
  }

  function LogEach(streams: seq<seq<nat>>): (parts: seq<Stats>)
    ensures |parts| == |streams| && forall i :: 0 <= i < |parts| ==> parts[i] == LogAll(streams[i]) && Wf(parts[i])
  {
    seq(|streams|, i requires 0 <= i < |streams| => LogAll(streams[i]))
  }

  lemma MergeZero(a: Stats)
    requires Wf(a) && (a.num == 0 ==> a == Empty())
    ensures Merge(a, Empty()) == a
  {
    assert Merge(a, Empty()).hist == a.hist;
  }

  // Logging into the last part is logging into the merged whole.
  lemma MergeLog(a: Stats, b: Stats, t: nat)
    requires Wf(a) && Wf(b)
    ensures Log(Merge(a, b), t) == Merge(a, Log(b, t))
  {
    if t > 0 { assert Log(Merge(a, b), t).hist == Merge(a, Log(b, t)).hist; }
  }

  lemma {:induction false} EmptyLog(ts: seq<nat>)
    ensures LogAll(ts).num == 0 ==> LogAll(ts) == Empty()
  {
    if ts != [] { EmptyLog(ts[..|ts| - 1]); }
  }

  lemma {:induction false} LogConcat(a: seq<nat>, b: seq<nat>)
    ensures LogAll(a + b) == Merge(LogAll(a), LogAll(b))
  {
    if b == [] {
      assert a + b == a;
      EmptyLog(a);
      MergeZero(LogAll(a));
    } else {
      var h, t := b[..|b| - 1], b[|b| - 1];
      assert (a + b)[..|a + b| - 1] == a + h;
      LogConcat(a, h);
      MergeLog(LogAll(a), LogAll(h), t);
    }
  }

  /** The merged report of all threads is the log of all their samples in one stream. */
  lemma {:induction false} MergedReportIsOneLog(streams: seq<seq<nat>>)
    ensures MergeAll(LogEach(streams)) == LogAll(Concat(streams))
  {
    if streams != [] {
      var n := |streams| - 1;
      MergedReportIsOneLog(streams[..n]);
      assert LogEach(streams)[..n] == LogEach(streams[..n]);
      LogConcat(Concat(streams[..n]), streams[n]);
    }
  }

  // ---------- the objects ----------

  // One thread's entry of hook->perf_data.
  class ThreadStats {
    var num: nat
    var min: nat
    var max: nat
    const hist: array<nat>

    ghost function View(): Stats
      reads this, hist
    {
      Stats(num, min, max, hist[..])
    }

    constructor ()
      ensures hist.Length == BINS && View() == Empty() && fresh(hist)
    {
      num, min, max := 0, 0, 0;
      hist := new nat[BINS](_ => 0);
    }

    /** _jbpf_perf_log */
    method LogTime(start: nat, end: nat) returns (ret: int)
      requires hist.Length == BINS && start < CLOCK && end < CLOCK
      modifies this, hist
      ensures View() == Log(old(View()), Elapsed(start, end))
      ensures ret == if start == end then -1 else 0
    {
      var t := Elapsed(start, end);
      if t == 0 {
        return -1;
      }
      var bin := BinOf(t);
      num := num + 1;
      if t < min || min == 0 {
        min := t;
      }
      if t > max {
        max := t;
      }
      hist[bin] := hist[bin] + 1;
      ret := 0;
    }
  }

  /** The merging loops of jbpf_report_perf_stats for one hook. */
  method Report(parts: seq<ThreadStats>, ghost views: seq<Stats>) returns (report: Stats)
    requires |views| == |parts|
    requires forall i :: 0 <= i < |parts| ==> parts[i].hist.Length == BINS && parts[i].View() == views[i]
    requires forall i :: 0 <= i < |views| ==> Wf(views[i])
    ensures report == MergeAll(views)
  {
    report := Empty();
    for j := 0 to |parts|
      invariant Wf(report) && report == MergeAll(views[..j])
    {
      var p := parts[j];
      var least := report.min;
      if report.min == 0 || (report.min > p.min && p.min > 0) {
        least := p.min;
      }
      var most := report.max;
      if report.max < p.max {
        most := p.max;
      }
      var hist := report.hist;
      for k := 0 to BINS
        invariant |hist| == BINS
        invariant forall i :: 0 <= i < BINS ==> hist[i] == if i < k then report.hist[i] + p.hist[i] else report.hist[i]
      {
        hist := hist[k := hist[k] + p.hist[k]];
      }
      assert hist == Sum(report.hist, views[j].hist);
      assert views[..j + 1][..j] == views[..j];
      report := Stats(report.num + p.num, least, most, hist);
    }
    assert views[..|parts|] == views;
  }
}
