/** The interrupt controller of the simple system (examples/simple_system/plic.cpp). */
module Plics {
  import opened Options

  /** Only the interrupts 1..31 are handled; bit 0 of the registers is not used. */
  const IDS: nat := 32

  /** An interrupt that may be claimed: pending, with a priority above the threshold. */
  predicate Eligible(pending: seq<bool>, priority: seq<nat>, threshold: nat, id: nat) {
    1 <= id < IDS && |pending| == |priority| == IDS && pending[id] && threshold < priority[id]
  }

  /** Service order: higher priorities first, and lower ids first among equals. */
  predicate Precedes(priority: seq<nat>, a: nat, b: nat)
    requires a < |priority| && b < |priority|
  {
    priority[a] > priority[b] || (priority[a] == priority[b] && a < b)
  }

  /** The claim register holds the first of the eligible interrupts in service order, or zero if there is none. */
  predicate IsClaim(pending: seq<bool>, priority: seq<nat>, threshold: nat, claim: nat)
    requires |pending| == |priority| == IDS
  {
    if claim == 0 then forall id :: 1 <= id < IDS ==> !Eligible(pending, priority, threshold, id)
    else
      && Eligible(pending, priority, threshold, claim)
      && forall id :: 1 <= id < IDS && id != claim && Eligible(pending, priority, threshold, id) ==>
        Precedes(priority, claim, id)
  }

  /** The same, in numbers. */
  lemma ClaimIs(pending: seq<bool>, priority: seq<nat>, threshold: nat, claim: nat)
    requires |pending| == |priority| == IDS && IsClaim(pending, priority, threshold, claim) && claim < IDS
    ensures claim != 0 ==>
      && 1 <= claim <= 31 && pending[claim] && priority[claim] > threshold
      && forall id :: 1 <= id <= 31 && pending[id] && priority[id] > threshold ==>
        priority[id] < priority[claim] || (priority[id] == priority[claim] && claim <= id)
    ensures claim == 0 ==> forall id :: 1 <= id <= 31 && pending[id] ==> priority[id] <= threshold
  {
    forall id | 1 <= id <= 31
      ensures Eligible(pending, priority, threshold, id) <==> pending[id] && priority[id] > threshold
    {
    }
  }

  /** Some interrupts in service order. */
  ghost predicate InOrder(priority: seq<nat>, served: seq<nat>)
    requires |priority| == IDS
  {
    forall i, j :: 0 <= i < j < |served| ==>
      served[i] < IDS && served[j] < IDS && Precedes(priority, served[i], served[j])
  }

  /** Exactly the eligible interrupts, in service order. */
  ghost predicate ServesAll(pending: seq<bool>, priority: seq<nat>, threshold: nat, served: seq<nat>)
    requires |priority| == IDS
  {
    (forall id: nat :: id in served <==> Eligible(pending, priority, threshold, id)) && InOrder(priority, served)
  }

  /** A write to the threshold register recomputes nothing.  The claim stays right exactly if it is above the new
    threshold or, when there is none, nothing pending is. */
  lemma ThresholdWrite(pending: seq<bool>, priority: seq<nat>, threshold: nat, threshold': nat, claim: nat)
    requires |pending| == |priority| == IDS && IsClaim(pending, priority, threshold, claim) && claim < IDS
    ensures IsClaim(pending, priority, threshold', claim) <==>
      if claim == 0 then forall id :: 1 <= id < IDS && pending[id] ==> priority[id] <= threshold'
      else threshold' < priority[claim]
  {
    if claim == 0 {
      forall id | 1 <= id < IDS
        ensures pending[id] && priority[id] > threshold' <==> Eligible(pending, priority, threshold', id)
      {
      }
    } else if threshold' < priority[claim] {
      forall id | 1 <= id < IDS && id != claim && Eligible(pending, priority, threshold', id)
        ensures Precedes(priority, claim, id)
      {
        if Eligible(pending, priority, threshold, id) { assert Precedes(priority, claim, id); }
      }
    }
  }

  /** Nor does a write to a priority register.  After one to another interrupt's, the claim stays right exactly if the
    interrupt is not eligible or comes later; after one to its own, exactly if it is eligible still, and still first. */
  lemma PriorityWrite(pending: seq<bool>, priority: seq<nat>, threshold: nat, claim: nat, id: nat, v: nat)
    requires |pending| == |priority| == IDS && IsClaim(pending, priority, threshold, claim) && claim < IDS
    requires 1 <= id < IDS
    ensures id != claim ==>
      (IsClaim(pending, priority[id := v], threshold, claim) <==>
       (Eligible(pending, priority[id := v], threshold, id) ==> claim != 0 && Precedes(priority[id := v], claim, id)))
    ensures id == claim ==>
      (IsClaim(pending, priority[id := v], threshold, claim) <==>
       threshold < v && forall q :: 1 <= q < IDS && q != id && Eligible(pending, priority, threshold, q) ==>
         priority[q] < v || (priority[q] == v && id < q))
  {
    var p := priority[id := v];
    forall q | 1 <= q < IDS && q != id
      ensures Eligible(pending, p, threshold, q) <==> Eligible(pending, priority, threshold, q)
      ensures claim != 0 && id != claim ==> (Precedes(p, claim, q) <==> Precedes(priority, claim, q))
      ensures id == claim ==> (Precedes(p, id, q) <==> priority[q] < v || (priority[q] == v && id < q))
    {
    }
    if claim != 0 && id != claim { assert Eligible(pending, p, threshold, claim); }
  }

  /** A first one, and then all that is left, is all in order exactly if the first one is the right claim. */
  lemma FirstServed(pending: seq<bool>, priority: seq<nat>, threshold: nat, claim: nat, rest: seq<nat>)
    requires |pending| == |priority| == IDS && 1 <= claim < IDS
    requires ServesAll(pending[claim := false], priority, threshold, rest)
    ensures ServesAll(pending, priority, threshold, [claim] + rest) <==> IsClaim(pending, priority, threshold, claim)
  {
    var served, left := [claim] + rest, pending[claim := false];
    forall id: nat | id != claim
      ensures Eligible(pending, priority, threshold, id) <==> id in rest
      ensures id in served <==> id in rest
    {
      assert id in rest <==> Eligible(left, priority, threshold, id);
    }
    assert claim !in rest by { assert !Eligible(left, priority, threshold, claim); }
    assert served[0] == claim;
    if IsClaim(pending, priority, threshold, claim) {
      forall i, j | 0 <= i < j < |served|
        ensures served[i] < IDS && served[j] < IDS && Precedes(priority, served[i], served[j])
      {
        assert served[j] == rest[j - 1] && rest[j - 1] in rest;
        assert Eligible(left, priority, threshold, rest[j - 1]);
        if i > 0 { assert served[i] == rest[i - 1]; }
      }
    }
    if ServesAll(pending, priority, threshold, served) {
      assert claim in served && Eligible(pending, priority, threshold, claim);
      forall id | 1 <= id < IDS && id != claim && Eligible(pending, priority, threshold, id)
        ensures Precedes(priority, claim, id)
      {
        var j :| 0 <= j < |rest| && rest[j] == id;
        assert served[j + 1] == id;
      }
    }
  }

  /** The eligible interrupts that are left, for counting them down. */
  function CountEligible(pending: seq<bool>, priority: seq<nat>, threshold: nat, n: nat): nat {
    if n == 0 then 0
    else
      CountEligible(pending, priority, threshold, n - 1)
      + (if Eligible(pending, priority, threshold, n - 1) then 1 else 0)
  }

  lemma {:induction false} CountDrops(pending: seq<bool>, priority: seq<nat>, threshold: nat, n: nat, id: nat)
    requires |pending| == |priority| == IDS && Eligible(pending, priority, threshold, id) && n <= IDS
    ensures CountEligible(pending[id := false], priority, threshold, n) ==
      CountEligible(pending, priority, threshold, n) - if id < n then 1 else 0
  {
    if n > 0 { CountDrops(pending, priority, threshold, n - 1, id); }
  }

  class Plic {
    var enabled: seq<bool>
    var pending: seq<bool>
    var priority: seq<nat>              // of interrupt i at position i
    var threshold: nat
    var claimComplete: nat
    var coreInterrupt: bool

    ghost predicate Valid()
      reads this
    {
      |enabled| == |pending| == |priority| == IDS && claimComplete < IDS
    }

    /** The claim register and the interrupt line say what is pending. */
    ghost predicate Settled()
      requires Valid()
      reads this
    {
      IsClaim(pending, priority, threshold, claimComplete) && (coreInterrupt <==> claimComplete != 0)
    }

    constructor ()
      ensures Valid() && Settled()
      ensures enabled == pending == seq(IDS, i => false) && priority == seq(IDS, i => 0) && threshold == 0
    {
      enabled, pending := seq(IDS, i => false), seq(IDS, i => false);
      priority, threshold := seq(IDS, i => 0), 0;
      claimComplete, coreInterrupt := 0, false;
    }

    /** Find the pending interrupt to claim; without one the interrupt line is left as it is. */
    method HandlePendingInt()
      requires |enabled| == |pending| == |priority| == IDS
      modifies `claimComplete, `coreInterrupt
      ensures Valid() && IsClaim(pending, priority, threshold, claimComplete)
      ensures coreInterrupt == (claimComplete != 0 || old(coreInterrupt))
    {
      var claimInt, claimPrio, raiseInt := 0, 0, false;
      for i := 1 to IDS
        invariant raiseInt <==> claimInt != 0
        invariant claimInt < i
        invariant claimInt != 0 ==>
          claimPrio == priority[claimInt] && Eligible(pending, priority, threshold, claimInt)
        invariant forall id :: 1 <= id < i && id != claimInt && Eligible(pending, priority, threshold, id) ==>
          claimInt != 0 && Precedes(priority, claimInt, id)
        invariant claimInt == 0 ==> claimPrio == 0
      {
        var prio := priority[i];
        if pending[i] && threshold < prio {
          if prio > claimPrio {
            claimPrio, claimInt, raiseInt := prio, i, true;
          }
        }
      }
      if raiseInt {
        claimComplete := claimInt;
        coreInterrupt := true;
      } else {
        claimComplete := 0;
      }
    }

    /** The register has a bit for each interrupt below 32; bit is the one that shifting by irq reaches, if any. */
    method ResetPendingInt(ghost irq: nat, bit: Option<nat>)
      requires |enabled| == |pending| == |priority| == IDS
      requires (irq < IDS ==> bit == Some(irq)) && (bit.Some? ==> bit.value < IDS)
      modifies `pending, `claimComplete, `coreInterrupt
      ensures Valid() && Settled() && pending == if bit.Some? then old(pending)[bit.value := false] else old(pending)
    {
      if bit.Some? {
        pending := pending[bit.value := false];
      }
      coreInterrupt := false;
      HandlePendingInt();
    }

    /** A write to the claim/complete register.  Any value can be written; for 32 and more the shift is undefined, and
      may clear any bit or none. */
    method CompleteWrite(v: nat, bit: Option<nat>)
      requires Valid() && (v < IDS ==> bit == Some(v)) && (bit.Some? ==> bit.value < IDS)
      modifies `pending, `claimComplete, `coreInterrupt
      ensures Valid() && Settled() && pending == if bit.Some? then old(pending)[bit.value := false] else old(pending)
    {
      claimComplete := v;
      ResetPendingInt(v, bit);
    }

    /** A rising edge of some interrupt input: enabled inputs become pending. */
    method GlobalIntPort(inputs: seq<bool>)
      requires Valid() && |inputs| == IDS
      modifies `pending, `claimComplete, `coreInterrupt
      ensures Valid() && IsClaim(pending, priority, threshold, claimComplete)
      ensures forall i :: 0 <= i < IDS ==> pending[i] == (old(pending)[i] || (i >= 1 && enabled[i] && inputs[i]))
      ensures old(Settled()) ==> Settled()
    {
      for i := 1 to IDS
        invariant Valid() && claimComplete == old(claimComplete) && coreInterrupt == old(coreInterrupt)
        invariant forall j :: 0 <= j < IDS ==>
          pending[j] == (old(pending)[j] || (1 <= j < i && enabled[j] && inputs[j]))
      {
        if enabled[i] && inputs[i] {
          pending := pending[i := true];
        }
      }
      ghost var claimed, core := claimComplete, coreInterrupt;
      HandlePendingInt();
      if old(Settled()) && core {
        assert Eligible(pending, priority, threshold, claimed);
      }
    }

    /** Interrupt service once the claim is right: write back whatever can be claimed until nothing can. */
    method DrainSettled() returns (served: seq<nat>)
      requires Valid() && Settled()
      modifies `pending, `claimComplete, `coreInterrupt
      ensures Valid() && claimComplete == 0 && !coreInterrupt
      ensures ServesAll(old(pending), priority, threshold, served)
      ensures forall id :: 0 <= id < IDS ==> pending[id] == (old(pending)[id] && id !in served)
    {
      served := [];
      while claimComplete != 0
        invariant Valid() && Settled()
        invariant forall i :: 0 <= i < |served| ==> Eligible(old(pending), priority, threshold, served[i])
        invariant forall id: nat :: Eligible(pending, priority, threshold, id) <==>
          Eligible(old(pending), priority, threshold, id) && id !in served
        invariant forall id :: 0 <= id < IDS ==> pending[id] == (old(pending)[id] && id !in served)
        invariant forall i, id: nat :: 0 <= i < |served| && Eligible(pending, priority, threshold, id) ==>
          Precedes(priority, served[i], id)
        invariant InOrder(priority, served)
        decreases CountEligible(pending, priority, threshold, IDS)
      {
        CountDrops(pending, priority, threshold, IDS, claimComplete);
        served := served + [claimComplete];
        CompleteWrite(claimComplete, Some(claimComplete));
      }
    }

    /** Interrupt service from any state.  Writes to the threshold and the priorities leave the claim as it is, so it
      can be out of date: all is served, in order, exactly if it is not. */
    method Drain() returns (served: seq<nat>)
      requires Valid()
      modifies `pending, `claimComplete, `coreInterrupt
      ensures Valid() && claimComplete == 0
      ensures served == [] <==> old(claimComplete) == 0
      ensures if served == [] then coreInterrupt == old(coreInterrupt)
        else served[0] == old(claimComplete) && !coreInterrupt
      ensures ServesAll(old(pending), priority, threshold, served) <==>
        old(IsClaim(pending, priority, threshold, claimComplete))
      ensures forall id :: 0 <= id < IDS ==> pending[id] == (old(pending)[id] && id !in served)
    {
      if claimComplete == 0 {
        return [];
      }
      var claim := claimComplete;
      CompleteWrite(claim, Some(claim));
      var rest := DrainSettled();
      FirstServed(old(pending), priority, threshold, claim, rest);
      served := [claim] + rest;
    }
  }

  /** An interrupt comes in below the threshold, the threshold is lowered, and still nothing serves it. */
  method MissedInterrupt() returns (p: Plic, served: seq<nat>)
    ensures p.Valid() && served == [] && !p.coreInterrupt && Eligible(p.pending, p.priority, p.threshold, 3)
  {
    p := new Plic();
    p.enabled, p.priority, p.threshold := p.enabled[3 := true], p.priority[3 := 5], 7;
    p.GlobalIntPort(seq(IDS, i => i == 3));
    assert p.claimComplete == 0;
    p.threshold := 0;
    served := p.Drain();
  }
}
