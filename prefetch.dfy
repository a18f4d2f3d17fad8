/**
 * The picker of `prefetchTransformed` in
 * lib/convert-api/docx-to-pdf/document-helper.ts: queued URLs are started
 * earliest first, skipping those whose host already has
 * `hostConcurrency` downloads running, while fewer than `concurrency`
 * downloads run in all. The download itself is not part of this model;
 * `Finish` is its completion handler.
 */
module Prefetch {
  import opened Wrappers
  import opened Concurrency
  const DefaultConcurrency := 10
  const DefaultHostConcurrency := 10

  /** `byHostActive.get(h) || 0`. */
  function CountIn(counts: map<string, int>, h: string): int
  {
    if h in counts then counts[h] else 0
  }

  /**
   * `byHostActive.set(h, Math.max(0, (byHostActive.get(h) || 1) - 1))`:
   * a missing or zero count reads as 1, so the host's count drops by one
   * and never below 0.
   */
  function Released(counts: map<string, int>, h: string): (r: map<string, int>)
    ensures CountIn(r, h) == if CountIn(counts, h) >= 1 then CountIn(counts, h) - 1 else 0
    ensures forall g :: g != h ==> CountIn(r, g) == CountIn(counts, g)
  {
    var c := if h in counts && counts[h] != 0 then counts[h] else 1;
    counts[h := if c - 1 < 0 then 0 else c - 1]
  }

  /** Every URL in `q` has a host at or above `cap`. */
  predicate AtCap(q: seq<string>, counts: map<string, int>, hostOf: string -> string, cap: int)
  {
    forall k :: 0 <= k < |q| ==> CountIn(counts, hostOf(q[k])) >= cap
  }

  /** The index of the earliest URL in `q` whose host is below `cap`, or -1 when there is none. */
  function Earliest(q: seq<string>, counts: map<string, int>, hostOf: string -> string, cap: int): (r: int)
    ensures -1 <= r < |q|
    decreases |q|
  {
    if q == [] then -1
    else if CountIn(counts, hostOf(q[0])) < cap then 0
    else
      var r := Earliest(q[1..], counts, hostOf, cap);
      if r < 0 then -1 else r + 1
  }

  /** `Earliest` is -1 exactly when every host is at the cap, and otherwise no earlier host is under it. */
  lemma {:induction false} EarliestIsFirst(q: seq<string>, counts: map<string, int>, hostOf: string -> string, cap: int)
    ensures var r := Earliest(q, counts, hostOf, cap);
      && (r == -1 <==> AtCap(q, counts, hostOf, cap))
      && (r >= 0 ==>
            && CountIn(counts, hostOf(q[r])) < cap
            && forall i :: 0 <= i < r ==> CountIn(counts, hostOf(q[i])) >= cap)
    decreases |q|
  {
    if q != [] && CountIn(counts, hostOf(q[0])) >= cap {
      EarliestIsFirst(q[1..], counts, hostOf, cap);
      assert forall i :: 1 <= i < |q| ==> q[i] == q[1..][i - 1];
    }
  }

  /** Any index with the properties of the earliest under-cap URL is `Earliest`. */
  lemma EarliestUnique(q: seq<string>, counts: map<string, int>, hostOf: string -> string, cap: int, i: int)
    requires -1 <= i < |q|
    requires i == -1 ==> AtCap(q, counts, hostOf, cap)
    requires i >= 0 ==>
      && CountIn(counts, hostOf(q[i])) < cap
      && forall k :: 0 <= k < i ==> CountIn(counts, hostOf(q[k])) >= cap
    ensures Earliest(q, counts, hostOf, cap) == i
  {
    EarliestIsFirst(q, counts, hostOf, cap);
  }

  /** `hostOf` of every URL, in order. */
  function Hosts(urls: seq<string>, hostOf: string -> string): (r: seq<string>)
    ensures |r| == |urls| && forall i :: 0 <= i < |urls| ==> r[i] == hostOf(urls[i])
  {
    seq(|urls|, i requires 0 <= i < |urls| => hostOf(urls[i]))
  }

  lemma HostsAppend(a: seq<string>, b: seq<string>, hostOf: string -> string)
    ensures Hosts(a + b, hostOf) == Hosts(a, hostOf) + Hosts(b, hostOf)
  {
  }

  /** Starting `url` ahead of `more` adds its host once to the hosts of `more`. */
  lemma HostsCons(url: string, more: seq<string>, hostOf: string -> string)
    ensures multiset(Hosts([url] + more, hostOf)) == multiset{hostOf(url)} + multiset(Hosts(more, hostOf))
  {
    HostsAppend([url], more, hostOf);
    assert Hosts([url], hostOf) == [hostOf(url)];
  }

  /** What a chain of `tryStart` calls leaves: the URLs started in order, the queue and the host counts. */
  datatype Round = Round(started: seq<string>, queue: seq<string>, byHost: map<string, int>)

  /** `more` after the URLs `first` were started. */
  function Then(first: seq<string>, more: Round): Round
  {
    Round(first + more.started, more.queue, more.byHost)
  }

  /** `queue.splice(i, 1)` on a copy: the queue without its `i`-th URL. */
  function Splice(q: seq<string>, i: int): (r: seq<string>)
    requires 0 <= i < |q|
    ensures |r| == |q| - 1
  {
    q[..i] + q[i + 1..]
  }

  /** `byHostActive.set(h, (byHostActive.get(h) || 0) + 1)`. */
  function Bump(counts: map<string, int>, h: string): (r: map<string, int>)
    ensures CountIn(r, h) == CountIn(counts, h) + 1
    ensures forall g :: g != h ==> CountIn(r, g) == CountIn(counts, g)
  {
    counts[h := CountIn(counts, h) + 1]
  }

  /** The two limits of the picker and the host of a URL. */
  datatype Limits = Limits(concurrency: int, hostConcurrency: int, hostOf: string -> string)

  /**
   * The chain of `tryStart` calls from queue `q`, `g` downloads running
   * and host counts `counts`: nothing at the global cap; otherwise the
   * earliest URL whose host is under its cap is taken out of the queue,
   * both counts go up, and `tryStart` runs again. It stops when nothing
   * can start.
   */
  function StartRun(lim: Limits, q: seq<string>, g: int, counts: map<string, int>): Round
    decreases |q|, 1
  {
    if g >= lim.concurrency then Round([], q, counts)
    else StartAt(lim, q, g, counts, Earliest(q, counts, lim.hostOf, lim.hostConcurrency))
  }

  /** The chain once the scan has found `i`: nothing when it is -1, otherwise start `q[i]` and go on. */
  function StartAt(lim: Limits, q: seq<string>, g: int, counts: map<string, int>, i: int): Round
    requires -1 <= i < |q|
    decreases |q|, 0
  {
    if i < 0 then Round([], q, counts)
    else Then([q[i]], StartRun(lim, Splice(q, i), g + 1, Bump(counts, lim.hostOf(q[i]))))
  }

  /** One round of the chain: the earliest under-cap URL starts, then the chain goes on from there. */
  lemma StartRunStep(lim: Limits, q: seq<string>, g: int, counts: map<string, int>, i: int)
    requires g < lim.concurrency
    requires 0 <= i < |q| && CountIn(counts, lim.hostOf(q[i])) < lim.hostConcurrency
    requires forall j :: 0 <= j < i ==> CountIn(counts, lim.hostOf(q[j])) >= lim.hostConcurrency
    ensures StartRun(lim, q, g, counts)
      == Then([q[i]], StartRun(lim, Splice(q, i), g + 1, Bump(counts, lim.hostOf(q[i]))))
  {
    EarliestUnique(q, counts, lim.hostOf, lim.hostConcurrency, i);
  }

  /** The chain stops at once when every queued URL's host is at its cap. */
  lemma StartRunAllAtCap(lim: Limits, q: seq<string>, g: int, counts: map<string, int>)
    requires AtCap(q, counts, lim.hostOf, lim.hostConcurrency)
    ensures StartRun(lim, q, g, counts) == Round([], q, counts)
  {
    EarliestUnique(q, counts, lim.hostOf, lim.hostConcurrency, -1);
  }

  /** The chain starts no URL twice and loses none: the started URLs and the rest make up the queue. */
  lemma {:induction false} StartRunPermutes(lim: Limits, q: seq<string>, g: int, counts: map<string, int>)
    ensures var r := StartRun(lim, q, g, counts); multiset(q) == multiset(r.queue) + multiset(r.started)
    decreases |q|
  {
    var i := Earliest(q, counts, lim.hostOf, lim.hostConcurrency);
    assert g < lim.concurrency ==> StartRun(lim, q, g, counts) == StartAt(lim, q, g, counts, i);
    if g < lim.concurrency && i >= 0 {
      var url := q[i];
      var q1, c1 := Splice(q, i), Bump(counts, lim.hostOf(url));
      StartRunPermutes(lim, q1, g + 1, c1);
      var r1 := StartRun(lim, q1, g + 1, c1);
      assert StartRun(lim, q, g, counts) == Then([url], r1);
      PermutesStep(q, i, r1);
    }
  }

  /** Taking `q[i]` out of `q` and putting it in front of the started URLs keeps the multiset. */
  lemma PermutesStep(q: seq<string>, i: int, r1: Round)
    requires 0 <= i < |q|
    requires multiset(Splice(q, i)) == multiset(r1.queue) + multiset(r1.started)
    ensures multiset(q) == multiset(r1.queue) + multiset([q[i]] + r1.started)
  {
    SpliceMultiset(q, i);
    assert multiset([q[i]] + r1.started) == multiset{q[i]} + multiset(r1.started);
  }

  /** The chain starts at most as many URLs as there are free slots. */
  lemma {:induction false} StartRunBounded(lim: Limits, q: seq<string>, g: int, counts: map<string, int>)
    requires g < lim.concurrency
    ensures g + |StartRun(lim, q, g, counts).started| <= lim.concurrency
    decreases |q|
  {
    var i := Earliest(q, counts, lim.hostOf, lim.hostConcurrency);
    assert g < lim.concurrency ==> StartRun(lim, q, g, counts) == StartAt(lim, q, g, counts, i);
    if i >= 0 && g + 1 < lim.concurrency {
      StartRunBounded(lim, Splice(q, i), g + 1, Bump(counts, lim.hostOf(q[i])));
    }
  }

  /** The chain stops only when nothing more can start: every slot is taken or every queued host is at its cap. */
  lemma {:induction false} StartRunSaturates(lim: Limits, q: seq<string>, g: int, counts: map<string, int>)
    ensures var r := StartRun(lim, q, g, counts);
      g + |r.started| >= lim.concurrency || AtCap(r.queue, r.byHost, lim.hostOf, lim.hostConcurrency)
    decreases |q|
  {
    var i := Earliest(q, counts, lim.hostOf, lim.hostConcurrency);
    assert g < lim.concurrency ==> StartRun(lim, q, g, counts) == StartAt(lim, q, g, counts, i);
    if g < lim.concurrency && i >= 0 {
      StartRunSaturates(lim, Splice(q, i), g + 1, Bump(counts, lim.hostOf(q[i])));
    } else if g < lim.concurrency {
      EarliestIsFirst(q, counts, lim.hostOf, lim.hostConcurrency);
    }
  }

  /** Each host's count goes up by the number of started URLs on that host. */
  lemma {:induction false} StartRunCounts(lim: Limits, q: seq<string>, g: int, counts: map<string, int>, h: string)
    ensures var r := StartRun(lim, q, g, counts);
      CountIn(r.byHost, h) == CountIn(counts, h) + multiset(Hosts(r.started, lim.hostOf))[h]
    decreases |q|
  {
    var i := Earliest(q, counts, lim.hostOf, lim.hostConcurrency);
    assert g < lim.concurrency ==> StartRun(lim, q, g, counts) == StartAt(lim, q, g, counts, i);
    if g < lim.concurrency && i >= 0 {
      var url := q[i];
      var q1, c1 := Splice(q, i), Bump(counts, lim.hostOf(url));
      StartRunCounts(lim, q1, g + 1, c1, h);
      HostsAppend([url], StartRun(lim, q1, g + 1, c1).started, lim.hostOf);
    }
  }

  /**
   * The scan of `tryStart`: the index of the earliest queued URL whose host
   * is below `cap`, or -1 when there is none.
   */
  method FirstUnderCap(queue: seq<string>, counts: map<string, int>, hostOf: string -> string, cap: int)
    returns (idx: int)
    ensures idx == Earliest(queue, counts, hostOf, cap)
    ensures -1 <= idx < |queue|
    ensures idx == -1 ==> forall i :: 0 <= i < |queue| ==> CountIn(counts, hostOf(queue[i])) >= cap
    ensures idx >= 0 ==>
      && CountIn(counts, hostOf(queue[idx])) < cap
      && forall i :: 0 <= i < idx ==> CountIn(counts, hostOf(queue[i])) >= cap
  {
    idx := -1;
    for i := 0 to |queue|
      invariant forall k :: 0 <= k < i ==> CountIn(counts, hostOf(queue[k])) >= cap
    {
      var used := CountIn(counts, hostOf(queue[i]));
      if used < cap {
        EarliestUnique(queue, counts, hostOf, cap, i);
        return i;
      }
    }
    EarliestUnique(queue, counts, hostOf, cap, -1);
  }

  lemma SpliceMultiset(q: seq<string>, idx: nat)
    requires idx < |q|
    ensures multiset(q) == multiset(q[..idx] + q[idx + 1..]) + multiset{q[idx]}
  {
    assert q == q[..idx] + [q[idx]] + q[idx + 1..];
  }

  class Prefetcher {
    var queue: seq<string>
    var globalActive: int
    var byHost: map<string, int>
    /** The hosts of the downloads started and not yet finished. */
    ghost var active: multiset<string>
    const concurrency: int
    const hostConcurrency: int
    const hostOf: string -> string

    function Count(h: string): int
      reads this
    {
      CountIn(byHost, h)
    }

    /** The counters agree with the running downloads and stay within both limits. */
    ghost predicate Valid()
      reads this
    {
      && concurrency >= 1 && hostConcurrency >= 1
      && globalActive == |active| <= concurrency
      && (forall h :: Count(h) == active[h])
      && (forall h :: Count(h) <= hostConcurrency)
    }

    function Lim(): Limits
    {
      Limits(concurrency, hostConcurrency, hostOf)
    }

    /** The hosts of `urls`, counted with repetition. */
    ghost function HostsOf(urls: seq<string>): multiset<string>
    {
      multiset(Hosts(urls, hostOf))
    }

    /** Every queued URL's host is at its cap. */
    predicate AllAtCap()
      reads this
    {
      AtCap(queue, byHost, hostOf, hostConcurrency)
    }

    /** Nothing more can start: all slots are taken, or every queued URL's host is at its cap. */
    predicate Saturated()
      reads this
    {
      globalActive >= concurrency || AllAtCap()
    }

    /**
     * `queue = urls.slice()` with both counters at zero; the limits are
     * `IMG_PREFETCH_CONCURRENCY` and `IMG_HOST_CONCURRENCY`, 10 each when unset
     * or empty, raised to at least 1.
     */
    constructor (urls: seq<string>, envConcurrency: Option<int>, envHostConcurrency: Option<int>, hostOf: string -> string)
      ensures Valid()
      ensures queue == urls && globalActive == 0 && byHost == map[] && active == multiset{}
      ensures concurrency == LimitOf(envConcurrency, DefaultConcurrency)
      ensures hostConcurrency == LimitOf(envHostConcurrency, DefaultHostConcurrency)
      ensures this.hostOf == hostOf
    {
      queue := urls;
      globalActive := 0;
      byHost := map[];
      active := multiset{};
      concurrency := LimitOf(envConcurrency, DefaultConcurrency);
      hostConcurrency := LimitOf(envHostConcurrency, DefaultHostConcurrency);
      this.hostOf := hostOf;
    }

    /** Starting the queued URL at `idx`: it leaves the queue and both counters go up. */
    method Start(idx: nat) returns (url: string)
      requires Valid()
      requires idx < |queue| && globalActive < concurrency
      requires Count(hostOf(queue[idx])) < hostConcurrency
      modifies this
      ensures Valid()
      ensures url == old(queue)[idx]
      ensures queue == old(queue)[..idx] + old(queue)[idx + 1..]
      ensures globalActive == old(globalActive) + 1
      ensures byHost == Bump(old(byHost), hostOf(url))
      ensures active == old(active) + multiset{hostOf(url)}
    {
      url := queue[idx];
      SpliceMultiset(queue, idx);
      queue := queue[..idx] + queue[idx + 1..];
      var h := hostOf(url);
      globalActive := globalActive + 1;
      byHost := Bump(byHost, h);
      active := active + multiset{h};
    }

    /** One round of `tryStart` with a slot free: the scan, then `queue.splice(pickedIdx, 1)` and the increments. */
    method StartNext() returns (url: string, picked: bool, pickedIdx: int)
      requires Valid() && globalActive < concurrency
      modifies this
      ensures Valid()
      ensures !picked <==> old(AllAtCap())
      ensures !picked ==> queue == old(queue) && byHost == old(byHost) && globalActive == old(globalActive)
      ensures picked ==> PickedAt(old(queue), old(byHost), pickedIdx, url)
      ensures picked ==>
        && multiset(old(queue)) == multiset(queue) + multiset{url}
        && |queue| == |old(queue)| - 1
        && globalActive == old(globalActive) + 1
        && byHost == Bump(old(byHost), hostOf(url))
        && active == old(active) + multiset{hostOf(url)}
      ensures !picked ==> active == old(active)
      ensures picked ==> StartRun(Lim(), old(queue), old(globalActive), old(byHost)) == Then([url], StartRun(Lim(), queue, globalActive, byHost))
      ensures !picked ==> StartRun(Lim(), old(queue), old(globalActive), old(byHost)) == Round([], queue, byHost)
    {
      var idx := FirstUnderCap(queue, byHost, hostOf, hostConcurrency);
      if idx < 0 {
        return "", false, idx;
      }
      SpliceMultiset(queue, idx);
      StartRunStep(Lim(), queue, globalActive, byHost, idx);
      ghost var q0 := queue;
      url := Start(idx);
      assert queue == Splice(q0, idx);
      picked := true;
      pickedIdx := idx;
    }

    /**
     * `url` was taken from `queue` at `i`: the earliest URL whose host is
     * below the cap, and the queue has closed up over it.
     */
    ghost predicate PickedAt(q: seq<string>, counts: map<string, int>, i: int, url: string)
      reads this
    {
      && 0 <= i < |q| && url == q[i]
      && CountIn(counts, hostOf(url)) < hostConcurrency
      && (forall j :: 0 <= j < i ==> CountIn(counts, hostOf(q[j])) >= hostConcurrency)
      && queue == q[..i] + q[i + 1..]
    }

    /**
     * `tryStart()`: nothing at the global cap; otherwise start the earliest
     * URL whose host is under its cap and, while slots remain and the queue
     * is not empty, call itself again.
     */
    method TryStart() returns (started: seq<string>)
      requires Valid()
      modifies this
      ensures Valid()
      ensures Saturated()
      ensures Round(started, queue, byHost) == StartRun(Lim(), old(queue), old(globalActive), old(byHost))
      ensures active == old(active) + HostsOf(started)
      ensures old(Saturated()) ==> started == [] && queue == old(queue) && byHost == old(byHost)
      ensures multiset(old(queue)) == multiset(queue) + multiset(started)
      ensures globalActive == old(globalActive) + |started|
      decreases |queue|
    {
      if globalActive >= concurrency {
        started := [];
        assert Hosts(started, hostOf) == [];
      } else {
        var url, picked, _ := StartNext();
        if !picked {
          started := [];
          assert Hosts(started, hostOf) == [];
        } else {
          ghost var afterOne := active;
          if globalActive < concurrency && |queue| > 0 {
            var more := TryStart();
            HostsCons(url, more, hostOf);
            started := [url] + more;
            assert Round(started, queue, byHost) == Then([url], Round(more, queue, byHost));
            assert active == afterOne + HostsOf(more);
            assert HostsOf(started) == multiset{hostOf(url)} + HostsOf(more);
            assert active == old(active) + (multiset{hostOf(url)} + HostsOf(more));
          } else {
            assert StartRun(Lim(), queue, globalActive, byHost) == StartAt(Lim(), queue, globalActive, byHost, -1);
            HostsCons(url, [], hostOf);
            started := [url];
            assert [url] + [] == started;
            assert HostsOf(started) == multiset{hostOf(url)};
            assert active == old(active) + multiset{hostOf(url)};
          }
        }
      }
      StartRunPermutes(Lim(), old(queue), old(globalActive), old(byHost));
    }

    /**
     * The counter updates when a download of `url` completes: the global
     * count goes down by one and the host's is set to
     * `Math.max(0, (get(h) || 1) - 1)`; the queue is untouched.
     */
    method Complete(url: string)
      requires Valid()
      requires hostOf(url) in active
      modifies this
      ensures Valid()
      ensures globalActive == old(globalActive) - 1
      ensures byHost == Released(old(byHost), hostOf(url))
      ensures Count(hostOf(url)) == old(Count(hostOf(url))) - 1
      ensures active == old(active) - multiset{hostOf(url)}
      ensures queue == old(queue)
    {
      var h := hostOf(url);
      globalActive := globalActive - 1;
      byHost := Released(byHost, h);
      active := active - multiset{h};
      assert forall g :: g != h ==> Count(g) == old(Count(g));
    }

    /** The completion handler of a download of `url`: `Complete`, then `tryStart` runs again. */
    method Finish(url: string) returns (started: seq<string>)
      requires Valid()
      requires hostOf(url) in active
      modifies this
      ensures Valid()
      ensures Saturated()
      ensures Round(started, queue, byHost) == StartRun(Lim(), old(queue), old(globalActive) - 1, Released(old(byHost), hostOf(url)))
      ensures active == old(active) - multiset{hostOf(url)} + HostsOf(started)
      ensures multiset(old(queue)) == multiset(queue) + multiset(started)
      ensures globalActive == old(globalActive) - 1 + |started|
    {
      Complete(url);
      started := TryStart();
    }

    /**
     * The start of `prefetchTransformed`: `min(concurrency, queue.length)`
     * calls of `tryStart`; the first already starts all it can.
     */
    method StartAll() returns (started: seq<string>)
      requires Valid()
      modifies this
      ensures Valid()
      ensures Saturated()
      ensures Round(started, queue, byHost) == StartRun(Lim(), old(queue), old(globalActive), old(byHost))
      ensures active == old(active) + HostsOf(started)
      ensures multiset(old(queue)) == multiset(queue) + multiset(started)
      ensures globalActive == old(globalActive) + |started|
    {
      var starters := if concurrency <= |queue| then concurrency else |queue|;
      started := [];
      if starters == 0 {
        assert StartRun(Lim(), queue, globalActive, byHost) == StartAt(Lim(), queue, globalActive, byHost, -1);
        assert Hosts(started, hostOf) == [];
        return;
      }
      started := TryStart();
      ghost var q, counts, hosts, g := queue, byHost, active, globalActive;
      for s := 1 to starters
        invariant Valid() && Saturated()
        invariant queue == q && byHost == counts && active == hosts && globalActive == g
      {
        var more := TryStart();
        assert more == [] && Hosts(more, hostOf) == [];
        assert HostsOf(more) == multiset{};
      }
    }
  }
}
