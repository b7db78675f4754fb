/** Access control class ramping (src/osmo-bsc/acc_ramp.c): after a cell comes up, its access classes
    0..9 are let in step by step. Bit masks are modelled as the sets of their bit numbers. */
module AccRamp {

  const NUM_ACC := 10
  const STEP_SIZE_MIN := 1
  const STEP_SIZE_MAX := 10

  // ----- what a ramp promises -----

  /** How many classes below a are not barred for good. */
  function Below(permanent: set<nat>, a: nat): (r: nat) {
    if a == 0 then 0 else Below(permanent, a - 1) + if a - 1 in permanent then 0 else 1
  }

  function Available(permanent: set<nat>): nat {
    Below(permanent, NUM_ACC)
  }

  lemma {:induction false} BelowGrows(permanent: set<nat>, a: nat, b: nat)
    requires a < b
    ensures Below(permanent, a) + (if a in permanent then 0 else 1) <= Below(permanent, b)
  {
    if a < b - 1 {
      BelowGrows(permanent, a, b - 1);
    }
  }

  /** Some available class has exactly k others below it. */
  lemma {:induction false} ClassAt(permanent: set<nat>, a: nat, k: nat) returns (b: nat)
    requires k < Below(permanent, a)
    ensures b < a && b !in permanent && Below(permanent, b) == k
  {
    if k < Below(permanent, a - 1) {
      b := ClassAt(permanent, a - 1, k);
    } else {
      b := a - 1;
    }
  }

  /** The classes still out when the k lowest available ones are in. */
  predicate Out(permanent: set<nat>, k: nat, a: nat) {
    a < NUM_ACC && a !in permanent && k <= Below(permanent, a)
  }

  /** Out of all that are still out, the lowest one has just k below it. */
  lemma LowestOut(permanent: set<nat>, k: nat, a: nat)
    requires Out(permanent, k, a) && forall b: nat :: b < a ==> !Out(permanent, k, b)
    ensures forall b :: Out(permanent, k + 1, b) <==> Out(permanent, k, b) && b != a
  {
    if k < Below(permanent, a) {
      var b := ClassAt(permanent, a, k);
      assert Out(permanent, k, b);
    }
    forall b | Out(permanent, k, b) && b != a ensures Out(permanent, k + 1, b) {
      BelowGrows(permanent, a, b);
    }
  }

  /** Somebody is out exactly if fewer than all available classes are in. */
  lemma SomebodyOut(permanent: set<nat>, k: nat)
    ensures k < Available(permanent) <==> exists a :: Out(permanent, k, a)
  {
    if k < Available(permanent) {
      var b := ClassAt(permanent, NUM_ACC, k);
      assert Out(permanent, k, b);
    } else {
      forall a: nat ensures !Out(permanent, k, a) {
        if a < NUM_ACC && a !in permanent {
          BelowGrows(permanent, a, NUM_ACC);
        }
      }
    }
  }

  lemma AtMostTen(permanent: set<nat>)
    ensures Available(permanent) <= STEP_SIZE_MAX
  {
    BelowAtMost(permanent, NUM_ACC);
  }

  lemma {:induction false} BelowAtMost(permanent: set<nat>, a: nat)
    ensures Below(permanent, a) <= a
  {
    if a > 0 {
      BelowAtMost(permanent, a - 1);
    }
  }

  function Min(a: nat, b: nat): nat {
    if a <= b then a else b
  }

  /** How many classes are in after n steps. */
  function LetIn(n: nat, size: nat, available: nat): (r: nat)
    ensures r <= available
  {
    if n == 0 then 0 else Min(available, LetIn(n - 1, size, available) + size)
  }

  lemma {:induction false} LetInIs(n: nat, size: nat, available: nat)
    ensures LetIn(n, size, available) == Min(available, n * size)
  {
    if n > 0 {
      LetInIs(n - 1, size, available);
      assert n * size == (n - 1) * size + size;
    }
  }

  class Ramp {
    var permanent: set<nat>      // rach_control t2 and t3
    var enabled: bool
    var stepSize: nat
    var barred: set<nat>         // barred_accs
    var armed: bool              // step_timer pending

    ghost predicate Valid()
      reads this
    {
      STEP_SIZE_MIN <= stepSize <= STEP_SIZE_MAX && forall a :: a in barred ==> a < NUM_ACC
    }

    /** The k lowest available classes are in, the others are marked, and no other class is. */
    ghost predicate LetInFirst(k: nat)
      reads this`permanent, this`barred
    {
      k <= Available(permanent) && forall a: nat :: a in barred <==> Out(permanent, k, a)
    }

    /** allow_all_accs (on) or barr_all_accs (!on) */
    method SetAll(on: bool)
      requires Valid()
      modifies this`barred
      ensures Valid()
      ensures forall a: nat :: a in barred <==>
        if a < NUM_ACC && a !in permanent then !on else a in old(barred)
    {
      var acc := 0;
      while acc < NUM_ACC
        invariant 0 <= acc <= NUM_ACC && Valid()
        invariant forall a: nat :: a in barred <==>
          if a < acc && a !in permanent then !on else a in old(barred)
      {
        if acc !in permanent {
          barred := if on then barred - {acc} else barred + {acc};
        }
        acc := acc + 1;
      }
    }

    /** ffs over the classes lo..hi-1 */
    method LowestBarred(lo: nat, hi: nat) returns (found: bool, acc: nat)
      requires lo <= hi
      ensures found ==> lo <= acc < hi && acc in barred && forall a: nat :: lo <= a < acc ==> a !in barred
      ensures !found ==> forall a: nat :: lo <= a < hi ==> a !in barred
    {
      acc := lo;
      while acc < hi
        invariant lo <= acc <= hi
        invariant forall a: nat :: lo <= a < acc ==> a !in barred
      {
        if acc in barred {
          return true, acc;
        }
        acc := acc + 1;
      }
      return false, acc;
    }

    /** Classes the ramp marked and that were barred for good since; the ramp never unmarks them. */
    function Stale(): set<nat>
      reads this`permanent, this`barred
    {
      barred * permanent
    }

    /** One turn of the ramping loop, over octet T3 and then T2; false when nothing is marked */
    method AllowLowest(ghost k: nat) returns (more: bool)
      requires Valid()
      modifies this`barred
      ensures Valid() && Stale() == old(Stale()) && more == (old(barred) != {})
      ensures !more ==> barred == {}
      ensures forall a, b :: a in old(barred) && b in Stale() && a >= b ==> a in barred
      ensures old(LetInFirst(k)) ==> more == (k < Available(permanent)) && LetInFirst(if more then k + 1 else k)
    {
      SomebodyOut(permanent, k);
      var found, acc := LowestBarred(0, 8);
      if !found {
        found, acc := LowestBarred(8, NUM_ACC);
      }
      if found {
        if LetInFirst(k) {
          LowestOut(permanent, k, acc);
        }
        if acc !in permanent {
          barred := barred - {acc};
        }
      }
      return found;
    }

    /** do_acc_ramping_step when the timer has fired. A full-size step lets everybody in and never
        arms the timer; any other arms it exactly if a class is still marked. */
    method Step(ghost k: nat)
      requires Valid() && !armed
      modifies this`barred, this`armed
      ensures Valid() && Stale() == old(Stale())
      ensures stepSize < STEP_SIZE_MAX ==> forall a, b :: a in old(barred) && b in Stale() && a >= b ==> a in barred
      ensures armed <==> stepSize < STEP_SIZE_MAX && barred != {}
      ensures old(LetInFirst(k)) ==> LetInFirst(Min(Available(permanent), k + stepSize))
      ensures old(LetInFirst(k)) ==> (armed <==> k + stepSize < Available(permanent))
    {
      ghost var ramping := LetInFirst(k);
      AtMostTen(permanent);
      SomebodyOut(permanent, Min(Available(permanent), k + stepSize));
      if stepSize == STEP_SIZE_MAX {
        SetAll(true);
        return;
      }
      var i := 0;
      while i < stepSize
        invariant 0 <= i <= stepSize && Valid() && Stale() == old(Stale())
        invariant forall a, b :: a in old(barred) && b in Stale() && a >= b ==> a in barred
        invariant ramping ==> LetInFirst(Min(Available(permanent), k + i))
      {
        var more := AllowLowest(Min(Available(permanent), k + i));
        if !more {
          break;
        }
        i := i + 1;
      }
      armed := barred != {};
    }

    /** acc_ramp_abort */
    method Abort()
      requires Valid()
      modifies this`barred, this`armed
      ensures Valid() && !armed && barred == old(Stale())
    {
      armed := false;
      SetAll(true);
    }

    /** acc_ramp_trigger: the first step is taken at once */
    method Trigger()
      requires Valid()
      modifies this`barred, this`armed
      ensures Valid() && Stale() == old(Stale())
      ensures armed <==> enabled && stepSize < STEP_SIZE_MAX && barred != {}
      ensures !enabled ==> barred == old(Stale())
      ensures enabled && old(Stale()) == {} ==> LetInFirst(LetIn(1, stepSize, Available(permanent)))
      ensures enabled && old(Stale()) == {} ==> (armed <==> stepSize < Available(permanent))
    {
      Abort();
      if enabled {
        SetAll(false);
        Step(0);
      }
    }

    /** A ramp after n steps, the trigger's own included: exactly the available classes but the n * s
        lowest are out, no class barred for good is marked, and the timer runs iff somebody is out. */
    method AfterSteps(n: nat)
      requires Valid() && enabled && Stale() == {} && n >= 1
      modifies this`barred, this`armed
      ensures LetInFirst(Min(Available(permanent), n * stepSize))
      ensures armed <==> n * stepSize < Available(permanent)
    {
      Trigger();
      ghost var total := Available(permanent);
      for i := 1 to n
        invariant Valid() && LetInFirst(LetIn(i, stepSize, total))
        invariant armed <==> LetIn(i, stepSize, total) < total
      {
        if armed {
          armed := false;
          Step(LetIn(i, stepSize, total));
        }
      }
      LetInIs(n, stepSize, total);
    }

    /** A whole ramp, from the trigger until the timer is not armed any more: after each of its steps
        exactly the highest-numbered classes are out, it ends with everybody in, and takes no more
        steps than it needs. EndsAtLast says when a ramp ends at all. */
    method Whole() returns (steps: nat)
      requires Valid() && enabled && Stale() == {}
      modifies this`barred, this`armed
      ensures !armed && barred == {}
      ensures steps == 1 || (steps - 1) * stepSize < Available(permanent)
      ensures Available(permanent) <= steps * stepSize
    {
      Trigger();
      steps := 1;
      ghost var total := Available(permanent);
      while armed
        invariant Valid() && steps >= 1
        invariant LetInFirst(LetIn(steps, stepSize, total))
        invariant armed <==> LetIn(steps, stepSize, total) < total
        invariant steps == 1 || LetIn(steps - 1, stepSize, total) < total
        decreases total - LetIn(steps, stepSize, total)
      {
        armed := false;
        Step(LetIn(steps, stepSize, total));
        steps := steps + 1;
      }
      LetInIs(steps, stepSize, total);
      LetInIs(steps - 1, stepSize, total);
      SomebodyOut(permanent, total);
    }

    /** However often the timer fires, a stale mark keeps the ramp armed and the higher classes out. */
    method StaleNeverEnds(fired: nat, ghost stale: nat)
      requires Valid() && armed && stale in Stale() && stepSize < STEP_SIZE_MAX
      modifies this`barred, this`armed
      ensures Valid() && armed && Stale() == old(Stale())
      ensures forall a: nat :: a in old(barred) && a > stale ==> a in barred
    {
      for i := 0 to fired
        invariant Valid() && armed && Stale() == old(Stale())
        invariant forall a: nat :: a in old(barred) && a > stale ==> a in barred
      {
        armed := false;
        Step(0);
      }
    }

    /** A ramp ends if and only if it has the full step size or no mark is stale: ten firings of the
        timer settle it. */
    method EndsAtLast(fired: nat)
      requires Valid() && enabled && fired >= NUM_ACC
      modifies this`barred, this`armed
      ensures armed <==> stepSize < STEP_SIZE_MAX && old(Stale()) != {}
    {
      if Stale() == {} {
        AfterSteps(fired + 1);
        AtMostTen(permanent);
        assert (fired + 1) * stepSize >= fired + 1;
      } else {
        ghost var stale :| stale in Stale();
        Trigger();
        if stepSize < STEP_SIZE_MAX {
          StaleNeverEnds(fired, stale);
        }
      }
    }

    /** The VTY bars a class for good, whatever the ramp is doing. */
    method BarForGood(acc: nat)
      requires Valid() && acc < NUM_ACC
      modifies this`permanent
      ensures Valid() && permanent == old(permanent) + {acc}
      ensures Stale() == old(Stale()) + if acc in barred then {acc} else {}
    {
      permanent := permanent + {acc};
    }

    /** Any class that the first step of a ramp leaves out makes such a mark if it is barred for good
        then, and no class above it is let in any more. */
    method StaleArises(acc: nat, fired: nat)
      requires Valid() && enabled && Stale() == {} && Out(permanent, stepSize, acc)
      modifies this`permanent, this`barred, this`armed
      ensures armed && Stale() == {acc}
      ensures forall a: nat :: acc < a < NUM_ACC && a !in permanent ==> a in barred
    {
      AtMostTen(permanent);
      SomebodyOut(permanent, stepSize);
      Trigger();
      ghost var before := permanent;
      forall a: nat | acc <= a < NUM_ACC && a !in permanent ensures a in barred {
        if acc < a {
          BelowGrows(permanent, acc, a);
        }
        assert Out(permanent, LetIn(1, stepSize, Available(permanent)), a);
      }
      BarForGood(acc);
      StaleNeverEnds(fired, acc);
    }
  }
}
