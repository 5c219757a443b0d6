/** The fixed-window rate limiter with its occasional sweep of dead entries. */
module RateLimit {
  datatype RateWindow = RateWindow(start: int, n: nat)

  datatype Rules = Rules(limit: int, window: int)

  datatype Event = Event(key: string, time: int)

  const SWEEP_SIZE := 1024

  type Counts = map<string, RateWindow>

  predicate Stale(rules: Rules, w: RateWindow, now: int) {
    now - w.start >= rules.window
  }

  predicate StartsFresh(rules: Rules, counts: Counts, key: string, now: int) {
    key !in counts || Stale(rules, counts[key], now)
  }

  function Swept(rules: Rules, counts: Counts, now: int): Counts {
    map k | k in counts && !Stale(rules, counts[k], now) :: counts[k]
  }

  /** The window the request falls in. */
  function Current(rules: Rules, counts: Counts, key: string, now: int): RateWindow {
    if StartsFresh(rules, counts, key, now) then RateWindow(now, 0) else counts[key]
  }

  /** One request, with or without the sweep. */
  function Request(sweeps: bool, rules: Rules, counts: Counts, key: string, now: int): (Counts, bool) {
    var sweep := sweeps && StartsFresh(rules, counts, key, now) && |counts| > SWEEP_SIZE;
    var kept := if sweep then Swept(rules, counts, now) else counts;
    var w := Current(rules, counts, key, now);
    if w.n >= rules.limit then (kept[key := w], false) else (kept[key := RateWindow(w.start, w.n + 1)], true)
  }

  class RateLimiter {
    const rules: Rules
    var counts: Counts

    constructor (limit: int, window: int)
      ensures rules == Rules(limit, window) && counts == map[]
    {
      rules := Rules(limit, window);
      counts := map[];
    }

    method Allow(key: string, now: int) returns (ok: bool)
      modifies this
      ensures (counts, ok) == Request(true, rules, old(counts), key, now)
    {
      var w := RateWindow(now, 0);
      ghost var kept: Counts;
      if key !in counts || now - counts[key].start >= rules.window {
        if |counts| > SWEEP_SIZE {
          ghost var before := counts;
          var rest := counts.Keys;
          while rest != {}
            invariant rest <= before.Keys
            invariant counts == map k | k in before && (k in rest || !Stale(rules, before[k], now)) :: before[k]
            decreases rest
          {
            var k :| k in rest;
            if now - counts[k].start >= rules.window {
              counts := counts - {k};
            }
            rest := rest - {k};
          }
          assert counts == Swept(rules, before, now);
        }
        kept := counts;
        counts := counts[key := w];
      } else {
        w := counts[key];
        kept := counts;
        assert counts == counts[key := w];
      }
      assert kept[key := w][key := RateWindow(w.start, w.n + 1)] == kept[key := RateWindow(w.start, w.n + 1)];
      if w.n >= rules.limit {
        return false;
      }
      counts := counts[key := RateWindow(w.start, w.n + 1)];
      ok := true;
    }
  }

  // ---- histories ----

  function Before(history: seq<Event>): seq<Event>
    requires history != []
  {
    history[..|history| - 1]
  }

  function Last(history: seq<Event>): Event
    requires history != []
  {
    history[|history| - 1]
  }

  function CountsAfter(sweeps: bool, rules: Rules, history: seq<Event>): Counts {
    if history == [] then map[]
    else Request(sweeps, rules, CountsAfter(sweeps, rules, Before(history)), Last(history).key, Last(history).time).0
  }

  /** The answer to the last request of a history. */
  predicate Answer(sweeps: bool, rules: Rules, history: seq<Event>)
    requires history != []
  {
    Request(sweeps, rules, CountsAfter(sweeps, rules, Before(history)), Last(history).key, Last(history).time).1
  }

  ghost predicate Ordered(history: seq<Event>) {
    forall i, j | 0 <= i < j < |history| :: history[i].time <= history[j].time
  }

  // ---- the sweep is invisible ----

  /** What the sweep has removed is stale. */
  ghost predicate Alike(rules: Rules, swept: Counts, plain: Counts, now: int) {
    && (forall k <- swept :: k in plain && plain[k] == swept[k])
    && (forall k <- plain :: k in swept || Stale(rules, plain[k], now))
  }

  lemma RequestsAgree(rules: Rules, swept: Counts, plain: Counts, then_: int, now: int, key: string)
    requires Alike(rules, swept, plain, then_) && then_ <= now
    ensures Request(true, rules, swept, key, now).1 == Request(false, rules, plain, key, now).1
    ensures Alike(rules, Request(true, rules, swept, key, now).0, Request(false, rules, plain, key, now).0, now)
  {
  }

  lemma {:induction false} SweepKeepsAlike(rules: Rules, history: seq<Event>, now: int)
    requires Ordered(history) && (history != [] ==> Last(history).time <= now)
    ensures Alike(rules, CountsAfter(true, rules, history), CountsAfter(false, rules, history), now)
    decreases |history|
  {
    hide Request;
    if history != [] {
      var e := Last(history);
      var swept, plain := CountsAfter(true, rules, Before(history)), CountsAfter(false, rules, Before(history));
      SweepKeepsAlike(rules, Before(history), e.time);
      RequestsAgree(rules, swept, plain, e.time, e.time, e.key);
    }
  }

  /** The sweeping limiter answers every request of every history with a non-decreasing clock as
      the one that never removes an entry. */
  lemma SweepIsInvisible(rules: Rules, history: seq<Event>)
    requires Ordered(history) && history != []
    ensures Answer(true, rules, history) == Answer(false, rules, history)
  {
    hide Request;
    var e := Last(history);
    SweepKeepsAlike(rules, Before(history), e.time);
    var swept, plain := CountsAfter(true, rules, Before(history)), CountsAfter(false, rules, Before(history));
    RequestsAgree(rules, swept, plain, e.time, e.time, e.key);
  }

  // ---- how many requests pass in one window length ----

  /** Allowed requests of a key at times from a up to, not including, b. */
  function AllowedIn(sweeps: bool, rules: Rules, history: seq<Event>, key: string, a: int, b: int): nat {
    if history == [] then 0
    else
      AllowedIn(sweeps, rules, Before(history), key, a, b)
      + (if Last(history).key == key && a <= Last(history).time < b && Answer(sweeps, rules, history) then 1 else 0)
  }

  lemma {:induction false} AllowedSplits(rules: Rules, history: seq<Event>, key: string, a: int, s: int, b: int)
    requires a <= s <= b
    ensures AllowedIn(false, rules, history, key, a, b)
         == AllowedIn(false, rules, history, key, a, s) + AllowedIn(false, rules, history, key, s, b)
    decreases |history|
  {
    hide Answer;
    if history != [] {
      AllowedSplits(rules, Before(history), key, a, s, b);
    }
  }

  /** The bounds that hold between any two times, given the key's window. */
  ghost predicate Bounds(rules: Rules, w: RateWindow, allowed: nat, a: int, b: int) {
    && (a >= w.start ==> allowed <= w.n)
    && (a > w.start ==> allowed < w.n)
    && (a >= w.start + rules.window ==> allowed == 0)
    && (a > w.start - rules.window && b <= w.start ==> allowed < rules.limit)
    && (b <= a + rules.window ==> allowed < 2 * rules.limit)
  }

  ghost predicate Tracked(rules: Rules, history: seq<Event>, key: string) {
    var counts := CountsAfter(false, rules, history);
    && (key !in counts ==> forall a, b :: AllowedIn(false, rules, history, key, a, b) == 0)
    && (key in counts ==>
          && 0 < counts[key].n <= rules.limit && history != [] && counts[key].start <= Last(history).time
          && forall a, b :: Bounds(rules, counts[key], AllowedIn(false, rules, history, key, a, b), a, b))
  }

  /** One more allowed request inside a window. */
  lemma InsideWindow(rules: Rules, history: seq<Event>, key: string, w: RateWindow, now: int, a: int, b: int)
    requires rules.limit > 0 && rules.window > 0 && w.start <= now < w.start + rules.window && 0 < w.n < rules.limit
    requires forall x, y :: Bounds(rules, w, AllowedIn(false, rules, history, key, x, y), x, y)
    ensures Bounds(rules, RateWindow(w.start, w.n + 1),
                   AllowedIn(false, rules, history, key, a, b) + (if a <= now < b then 1 else 0), a, b)
  {
    hide AllowedIn;
    var old_ := AllowedIn(false, rules, history, key, a, b);
    assert Bounds(rules, w, old_, a, b);
    if a < w.start && a <= now < b <= a + rules.window {
      AllowedSplits(rules, history, key, a, w.start, b);
      assert Bounds(rules, w, AllowedIn(false, rules, history, key, a, w.start), a, w.start);
      assert Bounds(rules, w, AllowedIn(false, rules, history, key, w.start, b), w.start, b);
    }
  }

  lemma NewWindow(rules: Rules, w: RateWindow, allowed: nat, now: int, a: int, b: int)
    requires rules.limit > 0 && rules.window > 0 && now >= w.start + rules.window && 0 < w.n <= rules.limit
    requires Bounds(rules, w, allowed, a, b)
    ensures Bounds(rules, RateWindow(now, 1), allowed + (if a <= now < b then 1 else 0), a, b)
  {
  }

  lemma NoCounts(rules: Rules)
    ensures CountsAfter(false, rules, []) == map[]
  {
  }

  /** What one more request does to the window of a key. */
  lemma NextCount(rules: Rules, history: seq<Event>, key: string)
    requires history != []
    ensures var e := Last(history);
            var counts, counts' := CountsAfter(false, rules, Before(history)), CountsAfter(false, rules, history);
            && (e.key != key ==> (key in counts' <==> key in counts) && (key in counts ==> counts'[key] == counts[key]))
            && (e.key == key ==>
                  && key in counts'
                  && (var w := Current(rules, counts, key, e.time);
                      && Answer(false, rules, history) == (w.n < rules.limit)
                      && counts'[key] == (if w.n < rules.limit then RateWindow(w.start, w.n + 1) else w)))
  {
  }

  lemma {:induction false} KeyIsTracked(rules: Rules, history: seq<Event>, key: string)
    requires rules.limit > 0 && rules.window > 0 && Ordered(history)
    ensures Tracked(rules, history, key)
    decreases |history|
  {
    hide Bounds, CountsAfter, Answer;
    if history == [] {
      NoCounts(rules);
    } else {
      var earlier, e := Before(history), Last(history);
      KeyIsTracked(rules, earlier, key);
      NextCount(rules, history, key);
      var counts, counts' := CountsAfter(false, rules, earlier), CountsAfter(false, rules, history);
      assert earlier != [] ==> Last(earlier).time <= e.time;
      forall a, b
        ensures key in counts' ==> Bounds(rules, counts'[key], AllowedIn(false, rules, history, key, a, b), a, b)
        ensures key !in counts' ==> AllowedIn(false, rules, history, key, a, b) == 0
      {
        var allowed := AllowedIn(false, rules, earlier, key, a, b);
        assert key in counts ==> Bounds(rules, counts[key], allowed, a, b);
        if e.key == key {
          if key !in counts {
            FirstWindow(rules, e.time, a, b);
          } else if Stale(rules, counts[key], e.time) {
            NewWindow(rules, counts[key], allowed, e.time, a, b);
          } else if counts[key].n < rules.limit {
            InsideWindow(rules, earlier, key, counts[key], e.time, a, b);
          }
        }
      }
    }
  }

  lemma FirstWindow(rules: Rules, now: int, a: int, b: int)
    requires rules.limit > 0 && rules.window > 0
    ensures Bounds(rules, RateWindow(now, 1), if a <= now < b then 1 else 0, a, b)
  {
  }

  lemma {:induction false} NothingPasses(rules: Rules, history: seq<Event>, key: string, a: int, b: int)
    requires rules.limit <= 0
    ensures AllowedIn(false, rules, history, key, a, b) == 0
    decreases |history|
  {
    if history != [] {
      NothingPasses(rules, Before(history), key, a, b);
    }
  }

  lemma {:induction false} SameAllowed(rules: Rules, history: seq<Event>, key: string, a: int, b: int)
    requires Ordered(history)
    ensures AllowedIn(true, rules, history, key, a, b) == AllowedIn(false, rules, history, key, a, b)
    decreases |history|
  {
    hide Answer;
    if history != [] {
      SameAllowed(rules, Before(history), key, a, b);
      SweepIsInvisible(rules, history);
    }
  }

  /** Any half-open interval of one window length holds fewer than twice the limit of allowed
      requests of one key. */
  lemma WindowBound(rules: Rules, history: seq<Event>, key: string, a: int)
    requires rules.window > 0 && Ordered(history)
    ensures AllowedIn(true, rules, history, key, a, a + rules.window) <= if rules.limit <= 0 then 0
              else 2 * rules.limit - 1
  {
    SameAllowed(rules, history, key, a, a + rules.window);
    if rules.limit <= 0 {
      NothingPasses(rules, history, key, a, a + rules.window);
    } else {
      KeyIsTracked(rules, history, key);
      var counts := CountsAfter(false, rules, history);
      assert key in counts ==>
          Bounds(rules, counts[key], AllowedIn(false, rules, history, key, a, a + rules.window), a, a + rules.window);
    }
  }

  // ---- what must pass ----

  /** The counter of a key is the number of its allowed requests since the window began. */
  lemma {:induction false} CountIsAllowed(rules: Rules, history: seq<Event>, key: string, b: int)
    requires rules.window > 0 && Ordered(history) && (history != [] ==> Last(history).time < b)
    ensures var counts := CountsAfter(false, rules, history);
            key in counts ==>
              && history != [] && counts[key].start <= Last(history).time
              && counts[key].n == AllowedIn(false, rules, history, key, counts[key].start, b)
    decreases |history|
  {
    hide CountsAfter, Answer;
    if history == [] {
      NoCounts(rules);
    } else {
      var earlier, e := Before(history), Last(history);
      CountIsAllowed(rules, earlier, key, b);
      NextCount(rules, history, key);
      NoneYet(rules, earlier, key, e.time, b);
      var counts := CountsAfter(false, rules, earlier);
      if e.key == key && key in counts && Stale(rules, counts[key], e.time) {
        StaleIsOver(rules, earlier, key, e.time, b);
      }
    }
  }

  /** A key without an entry has had no request. */
  lemma {:induction false} NoneYet(rules: Rules, history: seq<Event>, key: string, a: int, b: int)
    ensures key !in CountsAfter(false, rules, history) ==> AllowedIn(false, rules, history, key, a, b) == 0
    decreases |history|
  {
    hide CountsAfter, Answer;
    if history != [] {
      NoneYet(rules, Before(history), key, a, b);
      NextCount(rules, history, key);
    }
  }

  /** When a window is over none of the allowed requests came now. */
  lemma StaleIsOver(rules: Rules, history: seq<Event>, key: string, now: int, b: int)
    requires rules.window > 0 && Ordered(history) && (history != [] ==> Last(history).time <= now) && now < b
    requires key in CountsAfter(false, rules, history) && Stale(rules, CountsAfter(false, rules, history)[key], now)
    ensures AllowedIn(false, rules, history, key, now, b) == 0
  {
    hide CountsAfter, AllowedIn;
    if rules.limit > 0 {
      KeyIsTracked(rules, history, key);
      assert Bounds(rules, CountsAfter(false, rules, history)[key], AllowedIn(false, rules, history, key, now, b), now,
                    b);
    } else {
      NothingPasses(rules, history, key, now, b);
    }
  }

  /** A key that has had fewer allowed requests than the limit within the last window length is let
      through. */
  lemma FewAreAllowed(rules: Rules, history: seq<Event>)
    requires rules.window > 0 && Ordered(history) && history != []
    requires var e := Last(history);
             AllowedIn(true, rules, Before(history), e.key, e.time - rules.window + 1, e.time + 1) < rules.limit
    ensures Answer(true, rules, history)
  {
    hide CountsAfter, AllowedIn, Answer;
    var earlier, e := Before(history), Last(history);
    SweepIsInvisible(rules, history);
    SameAllowed(rules, earlier, e.key, e.time - rules.window + 1, e.time + 1);
    CountIsAllowed(rules, earlier, e.key, e.time + 1);
    NextCount(rules, history, e.key);
    var counts := CountsAfter(false, rules, earlier);
    if e.key in counts && !Stale(rules, counts[e.key], e.time) {
      AllowedSplits(rules, earlier, e.key, e.time - rules.window + 1, counts[e.key].start, e.time + 1);
    }
  }

  // ---- the bound is attained ----

  function Repeated(history: seq<Event>, e: Event, m: nat): (r: seq<Event>)
    ensures |r| == |history| + m && r[..|history|] == history
    ensures forall k | |history| <= k < |r| :: r[k] == e
  {
    if m == 0 then history else Repeated(history, e, m - 1) + [e]
  }

  lemma {:induction false} BurstPasses(rules: Rules, history: seq<Event>, e: Event, m: nat, a: int, b: int)
    requires a <= e.time < b
    requires var w := Current(rules, CountsAfter(false, rules, history), e.key, e.time);
             m > 0 && w.n + m <= rules.limit && e.time < w.start + rules.window
    ensures var w := Current(rules, CountsAfter(false, rules, history), e.key, e.time);
            var h := Repeated(history, e, m);
            && e.key in CountsAfter(false, rules, h)
            && CountsAfter(false, rules, h)[e.key] == RateWindow(w.start, w.n + m)
            && AllowedIn(false, rules, h, e.key, a, b) == AllowedIn(false, rules, history, e.key, a, b) + m
    decreases m
  {
    hide Swept;
    var h := Repeated(history, e, m);
    var w := Current(rules, CountsAfter(false, rules, history), e.key, e.time);
    assert Before(h) == Repeated(history, e, m - 1) && Last(h) == e;
    if m > 1 {
      BurstPasses(rules, history, e, m - 1, a, b);
      assert Current(rules, CountsAfter(false, rules, Before(h)), e.key, e.time).n == w.n + m - 1;
    }
  }

  /** One request, then limit - 1 at the end of its window and limit at the start of the next. */
  lemma BoundIsAttained(rules: Rules, key: string) returns (history: seq<Event>)
    requires rules.limit > 0 && rules.window >= 2
    ensures Ordered(history)
    ensures AllowedIn(true, rules, history, key, rules.window - 1, 2 * rules.window - 1) == 2 * rules.limit - 1
  {
    hide CountsAfter, AllowedIn, Repeated;
    var a, b := rules.window - 1, 2 * rules.window - 1;
    var first, late, next := Event(key, 0), Event(key, rules.window - 1), Event(key, rules.window);
    var h1 := [first];
    assert CountsAfter(false, rules, h1) == map[key := RateWindow(0, 1)]
        && AllowedIn(false, rules, h1, key, a, b) == 0 by {
      OneRequest(rules, first, a, b);
    }
    var h2 := Repeated(h1, late, rules.limit - 1);
    if rules.limit > 1 {
      BurstPasses(rules, h1, late, rules.limit - 1, a, b);
    } else {
      assert h2 == h1;
    }
    history := Repeated(h2, next, rules.limit);
    BurstPasses(rules, h2, next, rules.limit, a, b);
    SameAllowed(rules, history, key, a, b);
  }

  lemma OneRequest(rules: Rules, e: Event, a: int, b: int)
    requires rules.limit > 0
    ensures CountsAfter(false, rules, [e]) == map[e.key := RateWindow(e.time, 1)]
    ensures e.time < a ==> AllowedIn(false, rules, [e], e.key, a, b) == 0
  {
    assert Before([e]) == [];
  }
}
