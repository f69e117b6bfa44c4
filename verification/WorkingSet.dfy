/**
 The adaptive working-set test: may the cache grow, or must it replace what it holds?
 Growth is allowed only when the regenerated-to-replaced ratio exceeds regenParam-to-replaceParam,
 tested without division by repeated subtraction from the two counters.
 */
module WorkingSet {
  import opened Layout

  datatype Counters = Counters(replaced: nat, regenerated: nat)

  /** What the working-set test reads and writes of a cache. */
  datatype Gauge = Gauge(size: int, counters: Counters, wsetCheck: nat, recordWset: bool)

  function Min(x: nat, y: nat): nat {
    if x < y then x else y
  }

  /** Both counters after as many paired subtractions as both allow. */
  function Reduced(c: Counters, replaceParam: nat, regenParam: nat): Counters
    requires 0 < replaceParam && 0 < regenParam
  {
    var n := Min(c.replaced / replaceParam, c.regenerated / regenParam);
    SubtractionFits(c.replaced, replaceParam, n);
    SubtractionFits(c.regenerated, regenParam, n);
    Counters(c.replaced - n * replaceParam, c.regenerated - n * regenParam)
  }

  lemma SubtractionFits(x: nat, k: nat, n: nat)
    requires 0 < k && n <= x / k
    ensures 0 <= x - n * k && (x - n * k) / k == x / k - n
  {
    var q, r := x / k, x % k;
    assert x == q * k + r;
    assert (q - n) * k == q * k - n * k;
    MulMonotone(n, q, k);
    ModUnique(x - n * k, k, q - n, r);
  }

  lemma MulMonotone(a: nat, b: nat, k: nat)
    requires a <= b
    ensures a * k <= b * k
  {
    assert b * k == a * k + (b - a) * k;
  }

  /** Growth is warranted: more whole regenParam-batches regenerated than replaceParam-batches replaced. */
  predicate RatioReached(c: Counters, replaceParam: nat, regenParam: nat)
    requires 0 < replaceParam && 0 < regenParam
  {
    replaceParam <= c.replaced && c.replaced / replaceParam < c.regenerated / regenParam
  }

  /** Reaching the ratio means the exact (real-valued) ratio is exceeded. */
  lemma RatioIsExceeded(c: Counters, replaceParam: nat, regenParam: nat)
    requires 0 < replaceParam && 0 < regenParam && RatioReached(c, replaceParam, regenParam)
    ensures c.regenerated * replaceParam > c.replaced * regenParam
  {
    var q, g := c.replaced / replaceParam, c.regenerated / regenParam;
    assert c.replaced < (q + 1) * replaceParam;
    assert g * regenParam <= c.regenerated;
    MulMonotone(q + 1, g, regenParam);
    assert (q + 1) * regenParam <= c.regenerated;
    calc {
      c.replaced * regenParam;
    < { StrictScale(c.replaced, (q + 1) * replaceParam, regenParam); }
      (q + 1) * replaceParam * regenParam;
    == { Commute(q + 1, replaceParam, regenParam); }
      (q + 1) * regenParam * replaceParam;
    <= { MulMonotone((q + 1) * regenParam, c.regenerated, replaceParam); }
      c.regenerated * replaceParam;
    }
  }

  lemma StrictScale(a: nat, b: nat, k: nat)
    requires a < b && 0 < k
    ensures a * k < b * k
  {
    assert b * k == a * k + (b - a) * k;
    MulMonotone(1, b - a, k);
  }

  lemma Commute(a: nat, b: nat, c: nat)
    ensures a * b * c == a * c * b
  {
  }

  /** Growing and counting state of one cache. */
  class Set {
    const fifo: bool
    const finite: bool
    const maxSize: nat
    const freeUpgradeSize: nat
    const maxUnitSize: nat
    const regenParam: nat
    const replaceParam: nat
    var size: nat
    var replaced: nat
    var regenerated: nat
    var wsetCheck: nat
    var recordWset: bool

    function Count(): Counters
      reads this
    {
      Counters(replaced, regenerated)
    }

    function Now(): Gauge
      reads this
    {
      Gauge(size, Count(), wsetCheck, recordWset)
    }

    /** The branches that decide without looking at the counters. */
    predicate AtMaximum(g: Gauge, addSize: nat) {
      maxSize != 0 && g.size + addSize > maxSize
    }

    predicate Unlimited() {
      !finite || replaceParam == 0
    }

    /** Only now do the counters decide. */
    predicate CountersDecide(g: Gauge, addSize: nat) {
      && !AtMaximum(g, addSize) && !Unlimited() && regenParam != 0 && g.wsetCheck == 0
      && g.size >= freeUpgradeSize && (fifo || g.recordWset)
    }

    /** The verdict on growing by `addSize` bytes. */
    predicate Warranted(addSize: nat)
      reads this
    {
      WarrantedAt(Now(), addSize)
    }

    predicate WarrantedAt(g: Gauge, addSize: nat) {
      if AtMaximum(g, addSize) then false
      else if Unlimited() then true
      else if regenParam == 0 || g.wsetCheck > 0 then false
      else if g.size < freeUpgradeSize || !(fifo || g.recordWset) then true
      else RatioReached(g.counters, replaceParam, regenParam)
    }

    /**
     What the test leaves: the counters are reduced when they decide, a shared cache starts counting
     when its next unit could reach the free upgrade size, and a private one skips the next tests.
     */
    function Checked(g: Gauge, addSize: nat): Gauge {
      var tested := !AtMaximum(g, addSize) && !Unlimited() && regenParam != 0;
      g.(counters := if CountersDecide(g, addSize) && g.counters.replaced >= replaceParam &&
                        g.counters.regenerated >= regenParam
                     then Reduced(g.counters, replaceParam, regenParam) else g.counters,
         recordWset := g.recordWset ||
                       (tested && !fifo && g.wsetCheck == 0 && g.size + maxUnitSize >= freeUpgradeSize),
         wsetCheck := if !tested then g.wsetCheck
                      else if g.wsetCheck > 0 then g.wsetCheck - 1
                      else if fifo then replaceParam else 0)
    }

    /** The subtraction loop: terminates, and leaves the counters reduced. */
    method Subtract()
      requires 0 < replaceParam && 0 < regenParam
      modifies `replaced, `regenerated
      ensures Count() == Reduced(old(Count()), replaceParam, regenParam)
    {
      ghost var c, i: nat := Count(), 0;
      ghost var n := Min(c.replaced / replaceParam, c.regenerated / regenParam);
      while replaced >= replaceParam && regenerated >= regenParam
        invariant i <= n
        invariant replaced == c.replaced - i * replaceParam
        invariant regenerated == c.regenerated - i * regenParam
        decreases replaced
      {
        SubtractionFits(c.replaced, replaceParam, i);
        SubtractionFits(c.regenerated, regenParam, i);
        OneMore(replaced, replaceParam);
        OneMore(regenerated, regenParam);
        replaced := replaced - replaceParam;
        regenerated := regenerated - regenParam;
        i := i + 1;
      }
      SubtractionFits(c.replaced, replaceParam, i);
      SubtractionFits(c.regenerated, regenParam, i);
      SmallQuotient(replaced, replaceParam);
      SmallQuotient(regenerated, regenParam);
    }

    /** Returns whether the cache should be allowed to grow. */
    method CheckRegenReplaceRatio(addSize: nat) returns (grow: bool)
      modifies `replaced, `regenerated, `wsetCheck, `recordWset
      ensures grow == old(Warranted(addSize))
      ensures Now() == Checked(old(Now()), addSize)
    {
      if maxSize != 0 && size + addSize > maxSize {
        return false;
      } else if !finite || replaceParam == 0 {
        return true;
      } else if regenParam == 0 {
        return false;
      } else if wsetCheck > 0 {
        wsetCheck := wsetCheck - 1;
        return false;
      } else if size < freeUpgradeSize {
        if fifo {
          wsetCheck := replaceParam;
        } else if size + maxUnitSize >= freeUpgradeSize && !recordWset {
          recordWset := true;
        }
        return true;
      }
      if fifo {
        wsetCheck := replaceParam;
      } else if !recordWset {
        recordWset := true;
        return true;
      }
      ghost var c := Count();
      if replaced >= replaceParam && regenerated >= regenParam {
        Subtract();
        ReducedDecides(c, replaceParam, regenParam);
        if regenerated >= regenParam {
          return true;
        }
      } else {
        NoBatch(c, replaceParam, regenParam);
      }
      return false;
    }
  }

  lemma OneMore(x: nat, k: nat)
    requires 0 < k <= x
    ensures 1 <= x / k
  {
    assert x == x / k * k + x % k;
  }

  lemma SmallQuotient(x: nat, k: nat)
    requires 0 < k
    ensures x < k <==> x / k == 0
  {
    if k <= x { OneMore(x, k); } else { ModUnique(x, k, 0, x); }
  }

  /** After the subtractions, a whole batch is left over exactly when the ratio was reached. */
  lemma ReducedDecides(c: Counters, replaceParam: nat, regenParam: nat)
    requires 0 < replaceParam <= c.replaced && 0 < regenParam
    ensures regenParam <= Reduced(c, replaceParam, regenParam).regenerated <==>
              RatioReached(c, replaceParam, regenParam)
  {
    var n := Min(c.replaced / replaceParam, c.regenerated / regenParam);
    SubtractionFits(c.regenerated, regenParam, n);
    SmallQuotient(c.regenerated - n * regenParam, regenParam);
  }

  lemma NoBatch(c: Counters, replaceParam: nat, regenParam: nat)
    requires 0 < replaceParam && 0 < regenParam
    requires c.replaced < replaceParam || c.regenerated < regenParam
    ensures !RatioReached(c, replaceParam, regenParam)
  {
    if c.regenerated < regenParam { SmallQuotient(c.regenerated, regenParam); }
  }
}
