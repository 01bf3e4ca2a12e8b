/** Creating and deleting subscription plans: the loop that deactivates the old plans of a type,
    and what a Stripe failure part-way leaves behind. */
module SubscriptionPlans {
  import opened Wrappers

  datatype PlanType = Individual | Business(kind: nat)

  datatype Channel = ViaRevenueCat | ViaStripe | ViaBoth

  datatype Plan = Plan(kind: PlanType, channel: Channel, isActive: bool, isDeleted: bool) {
    predicate Offers(t: PlanType) { isActive && !isDeleted && kind == t }
  }

  /** stripeUp tells whether the Stripe calls, if made, succeed. */
  datatype Op = Create(kind: PlanType, channel: Option<Channel>, stripeUp: bool) | Delete(id: nat)

  function ChannelOf(t: PlanType, requested: Option<Channel>): Channel {
    match requested
    case Some(c) => c
    case None => if t.Individual? then ViaRevenueCat else ViaStripe
  }

  function Deactivated(ps: seq<Plan>, t: PlanType): (out: seq<Plan>)
    ensures |out| == |ps|
    ensures forall i :: 0 <= i < |ps| ==> out[i] == if ps[i].Offers(t) then ps[i].(isActive := false) else ps[i]
  {
    seq(|ps|, i requires 0 <= i < |ps| => if ps[i].Offers(t) then ps[i].(isActive := false) else ps[i])
  }

  predicate StripeFails(op: Op) {
    op.Create? && ChannelOf(op.kind, op.channel) != ViaRevenueCat && !op.stripeUp
  }

  function Step(ps: seq<Plan>, op: Op): seq<Plan> {
    match op
    case Create(t, c, _) =>
      Deactivated(ps, t) + if StripeFails(op) then [] else [Plan(t, ChannelOf(t, c), true, false)]
    case Delete(id) =>
      if id < |ps| then ps[id := ps[id].(isDeleted := true, isActive := false)] else ps
  }

  function After(ops: seq<Op>): seq<Plan> {
    if ops == [] then [] else Step(After(ops[..|ops| - 1]), ops[|ops| - 1])
  }

  /** The last create of this type, or its absence. */
  function LastCreate(ops: seq<Op>, t: PlanType): int
    ensures -1 <= LastCreate(ops, t) < |ops|
    ensures LastCreate(ops, t) >= 0 ==> ops[LastCreate(ops, t)].Create? && ops[LastCreate(ops, t)].kind == t
    decreases |ops|
  {
    if ops == [] then -1
    else if ops[|ops| - 1].Create? && ops[|ops| - 1].kind == t then |ops| - 1
    else LastCreate(ops[..|ops| - 1], t)
  }

  lemma {:induction false} PlansOnlyGrow(ops: seq<Op>, n: nat)
    requires n <= |ops|
    ensures |After(ops[..n])| <= |After(ops)|
    decreases |ops|
  {
    if n == |ops| {
      assert ops[..n] == ops;
    } else {
      PlansOnlyGrow(ops[..|ops| - 1], n);
      assert ops[..|ops| - 1][..n] == ops[..n];
    }
  }

  predicate DeletedSince(ops: seq<Op>, k: int, i: nat)
    requires -1 <= k
  {
    exists j :: k < j < |ops| && ops[j] == Delete(i)
  }

  /** Row i came from the last create of type t, which Stripe did not fail, and was not deleted. */
  predicate FromLastCreate(ops: seq<Op>, t: PlanType, i: nat) {
    var k := LastCreate(ops, t);
    k >= 0 && !StripeFails(ops[k]) && i == |After(ops[..k])| && !DeletedSince(ops, k, i)
  }

  lemma DeletedSinceStep(ops: seq<Op>, k: int, i: nat)
    requires ops != [] && -1 <= k < |ops| - 1
    ensures DeletedSince(ops, k, i) <==> DeletedSince(ops[..|ops| - 1], k, i) || ops[|ops| - 1] == Delete(i)
  {
    var prev := ops[..|ops| - 1];
    if j :| k < j < |prev| && prev[j] == Delete(i) { assert ops[j] == Delete(i); }
    if j :| k < j < |ops| && ops[j] == Delete(i) { assert j < |prev| ==> prev[j] == Delete(i); }
  }

  lemma FromLastCreateStep(ops: seq<Op>, t: PlanType, i: nat)
    requires ops != [] && LastCreate(ops, t) < |ops| - 1
    ensures FromLastCreate(ops, t, i) <==> FromLastCreate(ops[..|ops| - 1], t, i) && ops[|ops| - 1] != Delete(i)
  {
    var prev, k := ops[..|ops| - 1], LastCreate(ops, t);
    assert LastCreate(prev, t) == k;
    if k >= 0 {
      assert prev[..k] == ops[..k];
      DeletedSinceStep(ops, k, i);
    }
  }

  lemma OffersAfterStep(ps: seq<Plan>, op: Op, t: PlanType, i: nat)
    requires i < |Step(ps, op)|
    ensures Step(ps, op)[i].Offers(t) <==>
      if op.Create? && op.kind == t then !StripeFails(op) && i == |ps|
      else i < |ps| && ps[i].Offers(t) && op != Delete(i)
  {
  }

  /** The plan on offer for a type is exactly the one its last create made, unless Stripe failed
      that create or the plan was deleted since: in either case nothing is on offer. */
  lemma {:induction false} OfferedIsLastCreated(ops: seq<Op>, t: PlanType, i: nat)
    requires i < |After(ops)|
    ensures After(ops)[i].Offers(t) <==> FromLastCreate(ops, t, i)
    decreases |ops|
  {
    var n := |ops| - 1;
    var prev, op := ops[..n], ops[n];
    OffersAfterStep(After(prev), op, t, i);
    var k := LastCreate(ops, t);
    if k == n {
      assert ops[..k] == prev;
    } else if i < |After(prev)| {
      OfferedIsLastCreated(prev, t, i);
      FromLastCreateStep(ops, t, i);
    } else if k >= 0 && !StripeFails(ops[k]) {
      PlansOnlyGrow(prev, k + 1);
      assert prev[..k + 1] == ops[..k + 1];
      CreateAddsOne(ops, k);
    }
  }

  lemma CreateAddsOne(ops: seq<Op>, k: nat)
    requires k < |ops| && ops[k].Create? && !StripeFails(ops[k])
    ensures |After(ops[..k + 1])| == |After(ops[..k])| + 1
  {
    assert ops[..k + 1][..k] == ops[..k];
  }

  /** So at most one active, undeleted plan per type, on every run. */
  lemma AtMostOneActive(ops: seq<Op>, t: PlanType, i: nat, j: nat)
    requires i < |After(ops)| && j < |After(ops)| && After(ops)[i].Offers(t) && After(ops)[j].Offers(t)
    ensures i == j
  {
    OfferedIsLastCreated(ops, t, i);
    OfferedIsLastCreated(ops, t, j);
  }

  class SubscriptionPlanService {
    var plans: seq<Plan>

    constructor ()
      ensures plans == []
    {
      plans := [];
    }

    method DeactivateExisting(t: PlanType)
      modifies this
      ensures plans == Deactivated(old(plans), t)
    {
      var k := 0;
      while k < |plans|
        invariant k <= |plans| == |old(plans)|
        invariant forall i :: 0 <= i < k ==> plans[i] == Deactivated(old(plans), t)[i]
        invariant forall i :: k <= i < |plans| ==> plans[i] == old(plans)[i]
      {
        if plans[k].Offers(t) {
          plans := plans[k := plans[k].(isActive := false)];
        }
        k := k + 1;
      }
    }

    method CreateSubscriptionPlan(t: PlanType, requested: Option<Channel>, stripeUp: bool) returns (created: bool)
      modifies this
      ensures plans == Step(old(plans), Create(t, requested, stripeUp))
      ensures var channel :=
          if requested.Some? then requested.value else if t.Individual? then ViaRevenueCat else ViaStripe;
        && (created <==> channel == ViaRevenueCat || stripeUp)
        && |plans| == |old(plans)| + (if created then 1 else 0)
        && (created ==> plans[|old(plans)|] == Plan(t, channel, true, false))
      ensures forall i :: 0 <= i < |old(plans)| ==>
        var before := old(plans)[i];
        plans[i] == before.(isActive := before.isActive && (before.isDeleted || before.kind != t))
    {
      DeactivateExisting(t);
      var channel := ViaRevenueCat;
      if requested.Some? {
        channel := requested.value;
      } else if !t.Individual? {
        channel := ViaStripe;
      }
      if channel == ViaStripe || channel == ViaBoth {
        if !stripeUp {
          return false;
        }
      }
      plans := plans + [Plan(t, channel, true, false)];
      return true;
    }

    method DeleteSubscriptionPlan(id: nat) returns (found: bool)
      modifies this
      ensures plans == Step(old(plans), Delete(id))
      ensures found <==> id < |old(plans)|
      ensures |plans| == |old(plans)| && forall i :: 0 <= i < |plans| ==>
        plans[i] == if i == id then old(plans)[i].(isDeleted := true, isActive := false) else old(plans)[i]
    {
      if id >= |plans| {
        return false;
      }
      plans := plans[id := plans[id].(isDeleted := true, isActive := false)];
      return true;
    }
  }
}
