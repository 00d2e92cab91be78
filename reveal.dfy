/**
 * The two scroll-triggered reveal mechanisms (script.js:173-262). The
 * browser's intersection observer is the environment: it hands the callback
 * a batch of entries, each naming an observed element and whether it is now
 * intersecting. Timers are pending events, in no particular order; `Fire`
 * is one of them running. Elements are identified by number.
 */
module Reveal {

  datatype Entry = Entry(target: nat, isIntersecting: bool)

  /** The reveals the first `n` entries of a batch schedule: one per intersecting entry. */
  function Scheduled(entries: seq<Entry>, n: nat): (m: multiset<nat>)
    requires n <= |entries|
    ensures |m| <= n
  {
    if n == 0 then multiset{}
    else Scheduled(entries, n - 1)
         + (if entries[n - 1].isIntersecting then multiset{entries[n - 1].target} else multiset{})
  }

  /** The elements that have an intersecting entry among the first `n` of the batch. */
  function Entered(entries: seq<Entry>, n: nat): set<nat>
    requires n <= |entries|
  {
    if n == 0 then {}
    else Entered(entries, n - 1) + (if entries[n - 1].isIntersecting then {entries[n - 1].target} else {})
  }

  /** The elements that have a non-intersecting entry among the first `n` of the batch. */
  function Exited(entries: seq<Entry>, n: nat): set<nat>
    requires n <= |entries|
  {
    if n == 0 then {}
    else Exited(entries, n - 1) + (if entries[n - 1].isIntersecting then {} else {entries[n - 1].target})
  }

  /** An element is in `Entered` exactly when one of those entries reports it intersecting. */
  lemma {:induction false} EnteredMeansIntersectingEntry(entries: seq<Entry>, n: nat, t: nat)
    requires n <= |entries|
    ensures t in Entered(entries, n) <==> exists k :: 0 <= k < n && entries[k] == Entry(t, true)
  {
    if n > 0 {
      EnteredMeansIntersectingEntry(entries, n - 1, t);
    }
  }

  /** An element is in `Exited` exactly when one of those entries reports it not intersecting. */
  lemma {:induction false} ExitedMeansLeavingEntry(entries: seq<Entry>, n: nat, t: nat)
    requires n <= |entries|
    ensures t in Exited(entries, n) <==> exists k :: 0 <= k < n && entries[k] == Entry(t, false)
  {
    if n > 0 {
      ExitedMeansLeavingEntry(entries, n - 1, t);
    }
  }

  /** A batch schedules a reveal for an element exactly as often as the element is reported intersecting. */
  lemma {:induction false} ScheduledCountsEntries(entries: seq<Entry>, n: nat, t: nat)
    requires n <= |entries|
    ensures Scheduled(entries, n)[t] == |set k | 0 <= k < n && entries[k] == Entry(t, true)|
  {
    if n > 0 {
      ScheduledCountsEntries(entries, n - 1, t);
      IntersectingCountStep(entries, n, t);
    }
  }

  lemma IntersectingCountStep(entries: seq<Entry>, n: nat, t: nat)
    requires 0 < n <= |entries|
    ensures |set k | 0 <= k < n && entries[k] == Entry(t, true)|
            == |set k | 0 <= k < n - 1 && entries[k] == Entry(t, true)|
               + (if entries[n - 1] == Entry(t, true) then 1 else 0)
  {
    var before := set k | 0 <= k < n - 1 && entries[k] == Entry(t, true);
    var now := set k | 0 <= k < n && entries[k] == Entry(t, true);
    if entries[n - 1] == Entry(t, true) {
      assert now == before + {n - 1} by {
        forall k | k in now ensures k in before + {n - 1} { }
      }
    } else {
      assert now == before by {
        forall k | k in now ensures k in before { }
      }
    }
  }

  /**
   * `initAOSAnimations`: `data-aos` elements are observed until their first
   * intersecting entry, then get `aos-animate` once their timer fires.
   */
  class OneShotReveal {
    var observed: set<nat>
    /** The elements carrying `aos-animate`. */
    var animated: set<nat>
    /** One event per scheduled `setTimeout` that has not run yet. */
    var pending: multiset<nat>

    /** An element is observed, or waiting for its reveal, or revealed; never observed again once left. */
    ghost predicate Valid()
      reads this
    {
      && observed !! animated
      && (forall t :: t in pending ==> t !in observed)
    }

    /** `animatedElements.forEach(el => observer.observe(el))` */
    constructor (elements: set<nat>)
      ensures Valid()
      ensures observed == elements && animated == {} && pending == multiset{}
    {
      observed := elements;
      animated := {};
      pending := multiset{};
    }

    /**
     * The observer callback. An intersecting entry schedules the reveal and
     * unobserves its element; a non-intersecting one changes nothing.
     */
    method OnEntries(entries: seq<Entry>)
      requires Valid()
      requires forall k :: 0 <= k < |entries| ==> entries[k].target in observed
      modifies this
      ensures Valid()
      ensures observed == old(observed) - Entered(entries, |entries|)
      ensures pending == old(pending) + Scheduled(entries, |entries|)
      ensures animated == old(animated)
    {
      var watching, timers := observed, pending;
      var i := 0;
      while i < |entries|
        invariant 0 <= i <= |entries|
        invariant watching !! animated
        invariant forall t :: t in timers ==> t !in watching
        invariant watching == old(observed) - Entered(entries, i)
        invariant timers == old(pending) + Scheduled(entries, i)
      {
        var entry := entries[i];
        if entry.isIntersecting {
          timers := timers + multiset{entry.target};
          watching := watching - {entry.target};
          assert Entered(entries, i + 1) == Entered(entries, i) + {entry.target};
        } else {
          assert Entered(entries, i + 1) == Entered(entries, i);
        }
        i := i + 1;
      }
      observed, pending := watching, timers;
    }

    /** A scheduled timer runs: `entry.target.classList.add('aos-animate')`. */
    method Fire(t: nat)
      requires Valid()
      requires t in pending
      modifies this
      ensures Valid()
      ensures animated == old(animated) + {t}
      ensures pending == old(pending) - multiset{t}
      ensures observed == old(observed)
    {
      animated := animated + {t};
      pending := pending - multiset{t};
    }
  }

  /**
   * `initDecorativePlanets`: planets stay observed for ever; entering
   * schedules adding `visible`, leaving removes it at once, and a timer
   * that is still pending is never cancelled.
   */
  class PlanetReveal {
    const observed: set<nat>
    /** The elements carrying `visible`. */
    var visible: set<nat>
    var pending: multiset<nat>

    constructor (planets: set<nat>)
      ensures observed == planets && visible == {} && pending == multiset{}
    {
      observed := planets;
      visible := {};
      pending := multiset{};
    }

    /** The observer callback: schedule on entry, remove `visible` on exit. */
    method OnEntries(entries: seq<Entry>)
      requires forall k :: 0 <= k < |entries| ==> entries[k].target in observed
      modifies this
      ensures visible == old(visible) - Exited(entries, |entries|)
      ensures pending == old(pending) + Scheduled(entries, |entries|)
    {
      var i := 0;
      while i < |entries|
        invariant 0 <= i <= |entries|
        invariant visible == old(visible) - Exited(entries, i)
        invariant pending == old(pending) + Scheduled(entries, i)
      {
        var entry := entries[i];
        if entry.isIntersecting {
          pending := pending + multiset{entry.target};
          assert Exited(entries, i + 1) == Exited(entries, i);
          assert Scheduled(entries, i + 1) == Scheduled(entries, i) + multiset{entry.target};
        } else {
          visible := visible - {entry.target};
          assert Exited(entries, i + 1) == Exited(entries, i) + {entry.target};
          assert Scheduled(entries, i + 1) == Scheduled(entries, i);
        }
        i := i + 1;
      }
    }

    /** A scheduled timer runs: `entry.target.classList.add('visible')`, whether or not the planet is still in view. */
    method Fire(t: nat)
      requires t in pending
      modifies this
      ensures visible == old(visible) + {t}
      ensures pending == old(pending) - multiset{t}
    {
      visible := visible + {t};
      pending := pending - multiset{t};
    }
  }

  /** A one-shot element ignores leaving entries, is unobserved on entering, and keeps `aos-animate` once its timer runs. */
  method OneShotScenario() returns (observedAfter: bool, animatedAfter: bool)
    ensures !observedAfter && animatedAfter
  {
    var aos := new OneShotReveal({0, 1});
    aos.OnEntries([Entry(0, false)]);
    assert Entered([Entry(0, false)], 1) == {};
    assert 0 in aos.observed && 0 !in aos.animated;
    aos.OnEntries([Entry(0, true)]);
    assert Entered([Entry(0, true)], 1) == {0};
    assert Scheduled([Entry(0, true)], 1) == multiset{0};
    aos.Fire(0);
    aos.OnEntries([Entry(1, false)]);
    assert Entered([Entry(1, false)], 1) == {};
    observedAfter := 0 in aos.observed;
    animatedAfter := 0 in aos.animated;
  }

  /**
   * The never-cancelled timer: a planet that enters and leaves before its
   * delay elapses is shown anyway once the timer runs, although it is out of view.
   */
  method LateRevealAfterExit() returns (hiddenOnExit: bool, visibleAtEnd: bool)
    ensures hiddenOnExit && visibleAtEnd
  {
    var planets := new PlanetReveal({0});
    planets.OnEntries([Entry(0, true)]);
    assert Scheduled([Entry(0, true)], 1) == multiset{0};
    planets.OnEntries([Entry(0, false)]);
    assert Exited([Entry(0, false)], 1) == {0};
    assert Scheduled([Entry(0, false)], 1) == multiset{};
    hiddenOnExit := 0 !in planets.visible;
    planets.Fire(0);
    visibleAtEnd := 0 in planets.visible;
  }
}
