/** Which device to give up when the host bridge cannot satisfy a resource request, and giving it up. */
module ResourceRejection {
  import opened PciTopology
  import opened DeviceTree

  const RESOURCE_SATISFIED: nat := 0
  const RESOURCE_NOT_SATISFIED: nat := 0xFFFF_FFFF_FFFF_FFFF
  const RESOURCE_TYPES: nat := 5

  /** A node of a resource tree: the request of one device, or of a bridge for what is below it, or for padding. */
  datatype ResourceNode = ResourceNode(device: Option<nat>, length: nat, padding: bool, children: seq<ResourceNode>)

  ghost predicate Names(devices: seq<Device>, node: ResourceNode)
    decreases node
  {
    && (node.device.Some? ==> node.device.value < |devices|)
    && forall i :: 0 <= i < |node.children| ==> Names(devices, node.children[i])
  }

  predicate IsBridgeNode(devices: seq<Device>, node: ResourceNode)
    requires node.device.Some? && node.device.value < |devices|
  {
    devices[node.device.value].bridge || devices[node.device.value].parent.None?
  }

  /** IsRejectiveDevice: bridges pass, so that the search goes on below them. */
  predicate IsRejectiveDevice(devices: seq<Device>, node: ResourceNode)
    requires node.device.Some? ==> node.device.value < |devices|
  {
    if node.device.None? then false
    else
      var d := devices[node.device.value];
      if d.bridge || d.parent.None? then true
      else if d.parent.Some? && d.bus == 0 then false
      else !d.vga
  }

  /** A node that stands for something to give up: a rejectable device's request, or padding. */
  predicate Victim(devices: seq<Device>, node: ResourceNode)
    requires node.device.Some? ==> node.device.value < |devices|
  {
    IsRejectiveDevice(devices, node) && (IsBridgeNode(devices, node) ==> node.padding)
  }

  /** A victim that is no padding is a rejectable device. */
  lemma VictimIsRejectable(devices: seq<Device>, node: ResourceNode)
    requires node.device.Some? ==> node.device.value < |devices|
    ensures Victim(devices, node) <==>
            node.device.Some? && (if IsBridgeNode(devices, node) then node.padding else Rejectable(devices[node.device.value]))
    ensures node.device.Some? && !devices[node.device.value].bridge && devices[node.device.value].parent.Some? ==>
              (Victim(devices, node) <==> devices[node.device.value].bus != 0 && !devices[node.device.value].vga)
  {
  }

  /** The victims the search meets below a node, in the order it meets them. */
  ghost function VictimsTo(devices: seq<Device>, node: ResourceNode, i: nat): seq<ResourceNode>
    requires Names(devices, node) && i <= |node.children|
    decreases node, i
  {
    if i == 0 then []
    else
      var c := node.children[i - 1];
      assert Names(devices, c);
      VictimsTo(devices, node, i - 1) +
      if !IsRejectiveDevice(devices, c) then []
      else if IsBridgeNode(devices, c) && !c.padding then VictimsTo(devices, c, |c.children|)
      else [c]
  }

  /** Somewhere below the node. */
  ghost predicate Within(node: ResourceNode, n: ResourceNode)
    decreases node
  {
    exists i :: 0 <= i < |node.children| && (node.children[i] == n || Within(node.children[i], n))
  }

  /** Only bridges have requests below theirs, and padding has none. */
  ghost predicate WellShaped(devices: seq<Device>, node: ResourceNode)
    requires Names(devices, node)
    decreases node
  {
    forall i :: 0 <= i < |node.children| ==>
      var c := node.children[i];
      && WellShaped(devices, c)
      && (c.children != [] ==> c.device.Some? && IsBridgeNode(devices, c) && !c.padding)
  }

  /** n is one of the first i children of the node, or below one of them. */
  ghost predicate WithinTo(node: ResourceNode, n: ResourceNode, i: nat)
    requires i <= |node.children|
  {
    exists j :: 0 <= j < i && (node.children[j] == n || Within(node.children[j], n))
  }

  /** What one child of a well-shaped node contributes to the search. */
  lemma ChildVictims(devices: seq<Device>, node: ResourceNode, i: nat, n: ResourceNode)
    requires Names(devices, node) && WellShaped(devices, node) && i < |node.children|
    requires NamesOne(devices, n)
    requires var c := node.children[i];
             Names(devices, c) && (n in VictimsTo(devices, c, |c.children|) <==> Victim(devices, n) && Within(c, n))
    ensures n in VictimsTo(devices, node, i + 1) <==>
            n in VictimsTo(devices, node, i) ||
            (Victim(devices, n) && (node.children[i] == n || Within(node.children[i], n)))
  {
    var c := node.children[i];
    assert c.children == [] ==> !Within(c, n);
  }

  /** In a well-shaped tree the search meets every victim there is. */
  lemma {:induction false} VictimsComplete(devices: seq<Device>, node: ResourceNode, i: nat, n: ResourceNode)
    requires Names(devices, node) && WellShaped(devices, node) && i <= |node.children|
    requires NamesOne(devices, n)
    ensures n in VictimsTo(devices, node, i) <==> Victim(devices, n) && WithinTo(node, n, i)
    decreases node, i
  {
    if i > 0 {
      var c := node.children[i - 1];
      VictimsComplete(devices, node, i - 1, n);
      VictimsComplete(devices, c, |c.children|, n);
      assert WithinTo(c, n, |c.children|) <==> Within(c, n);
      ChildVictims(devices, node, i - 1, n);
      assert WithinTo(node, n, i) <==> WithinTo(node, n, i - 1) || node.children[i - 1] == n || Within(node.children[i - 1], n);
    }
  }

  /** r is the heaviest victim, the last one if several are; None if there is none. */
  ghost predicate Heaviest(victims: seq<ResourceNode>, r: Option<ResourceNode>) {
    match r
    case None => victims == []
    case Some(n) => exists k :: 0 <= k < |victims| && HeaviestAt(victims, n, k)
  }

  ghost predicate HeaviestAt(victims: seq<ResourceNode>, n: ResourceNode, k: nat)
    requires k < |victims|
  {
    && victims[k] == n
    && (forall j :: 0 <= j < k ==> victims[j].length <= n.length)
    && (forall j :: k < j < |victims| ==> victims[j].length < n.length)
  }

  function GetLargerConsumerDevice(devices: seq<Device>, one: Option<ResourceNode>, two: Option<ResourceNode>): Option<ResourceNode>
    requires two.Some? ==> two.value.device.Some? && two.value.device.value < |devices|
  {
    if two.None? then one
    else if IsBridgeNode(devices, two.value) && !two.value.padding then one
    else if one.None? then two
    else if one.value.length > two.value.length then one
    else two
  }

  lemma HeaviestOfBoth(devices: seq<Device>, a: seq<ResourceNode>, b: seq<ResourceNode>,
                       one: Option<ResourceNode>, two: Option<ResourceNode>)
    requires Heaviest(a, one) && Heaviest(b, two)
    requires two.Some? ==> two.value.device.Some? && two.value.device.value < |devices| && Victim(devices, two.value)
    ensures Heaviest(a + b, GetLargerConsumerDevice(devices, one, two))
  {
    var r := GetLargerConsumerDevice(devices, one, two);
    if two.None? {
      assert a + b == a;
    } else if one.None? {
      assert a + b == b;
    } else {
      var i :| 0 <= i < |a| && HeaviestAt(a, one.value, i);
      var j :| 0 <= j < |b| && HeaviestAt(b, two.value, j);
      if one.value.length > two.value.length {
        assert HeaviestAt(a + b, one.value, i);
      } else {
        assert HeaviestAt(a + b, two.value, |a| + j);
      }
    }
  }

  /** The largest request among the victims below a resource pool. */
  method GetMaxResourceConsumerDevice(devices: seq<Device>, pool: ResourceNode) returns (r: Option<ResourceNode>)
    requires Names(devices, pool)
    ensures Heaviest(VictimsTo(devices, pool, |pool.children|), r)
    ensures r.Some? ==> r.value.device.Some? && r.value.device.value < |devices| && Victim(devices, r.value)
    decreases pool
  {
    r := None;
    var link := 0;
    while link < |pool.children|
      invariant link <= |pool.children|
      invariant Heaviest(VictimsTo(devices, pool, link), r)
      invariant r.Some? ==> r.value.device.Some? && r.value.device.value < |devices| && Victim(devices, r.value)
    {
      var temp := pool.children[link];
      assert Names(devices, temp);
      ghost var before := VictimsTo(devices, pool, link);
      link := link + 1;
      if !IsRejectiveDevice(devices, temp) {
        assert VictimsTo(devices, pool, link) == before;
        continue;
      }
      if IsBridgeNode(devices, temp) && !temp.padding {
        var below := GetMaxResourceConsumerDevice(devices, temp);
        HeaviestOfBoth(devices, before, VictimsTo(devices, temp, |temp.children|), r, below);
        r := GetLargerConsumerDevice(devices, r, below);
      } else {
        assert HeaviestAt([temp], temp, 0);
        HeaviestOfBoth(devices, before, [temp], r, Some(temp));
        r := GetLargerConsumerDevice(devices, r, Some(temp));
      }
    }
  }

  /**
    What the choice means for a whole resource tree: no choice exactly if nothing in the tree can be given up, and
    otherwise something that can be given up and is at least as large as everything else that can.
  */
  lemma ChoiceIsLargest(devices: seq<Device>, pool: ResourceNode, r: Option<ResourceNode>)
    requires Names(devices, pool) && WellShaped(devices, pool)
    requires Heaviest(VictimsTo(devices, pool, |pool.children|), r)
    ensures r.None? <==> forall n: ResourceNode :: Within(pool, n) && NamesOne(devices, n) ==> !Victim(devices, n)
    ensures r.Some? && NamesOne(devices, r.value) ==>
              && Within(pool, r.value) && Victim(devices, r.value)
              && forall n: ResourceNode :: Within(pool, n) && NamesOne(devices, n) && Victim(devices, n) ==> n.length <= r.value.length
  {
    hide VictimsTo, Victim, WellShaped, Names;
    var victims := VictimsTo(devices, pool, |pool.children|);
    assert forall n :: WithinTo(pool, n, |pool.children|) <==> Within(pool, n);
    hide Within, WithinTo;
    forall n: ResourceNode | NamesOne(devices, n)
      ensures n in victims <==> Victim(devices, n) && Within(pool, n)
    {
      VictimsComplete(devices, pool, |pool.children|, n);
    }
    if r.Some? {
      var k :| 0 <= k < |victims| && HeaviestAt(victims, r.value, k);
      VictimsNamed(devices, pool, |pool.children|, k);
      assert r.value in victims;
      forall n: ResourceNode | n in victims
        ensures n.length <= r.value.length
      {
        var j :| 0 <= j < |victims| && victims[j] == n;
      }
    }
  }

  ghost predicate NamesOne(devices: seq<Device>, n: ResourceNode) {
    n.device.Some? ==> n.device.value < |devices|
  }

  lemma {:induction false} VictimsNamed(devices: seq<Device>, node: ResourceNode, i: nat, k: nat)
    requires Names(devices, node) && i <= |node.children|
    requires k < |VictimsTo(devices, node, i)|
    ensures NamesOne(devices, VictimsTo(devices, node, i)[k]) && Victim(devices, VictimsTo(devices, node, i)[k])
    decreases node, i
  {
    var c := node.children[i - 1];
    var m := |VictimsTo(devices, node, i - 1)|;
    if k < m {
      VictimsNamed(devices, node, i - 1, k);
    } else if IsBridgeNode(devices, c) && !c.padding {
      VictimsNamed(devices, c, |c.children|, k - m);
    }
  }

  /** What can be rejected is not affected by rejecting something else. */
  lemma RejectionsIndependent(devices: seq<Device>, children: seq<seq<nat>>, padding: set<nat>,
                              children': seq<seq<nat>>, padding': set<nat>, r: set<nat>, d: nat)
    requires Consistent(devices, children) && Consistent(devices, children')
    requires After(devices, children, padding, children', padding', r)
    requires d !in r
    ensures Removable(devices, children', padding', d) <==> Removable(devices, children, padding, d)
  {
    if d < |devices| && devices[d].parent.Some? {
      var b := devices[d].parent.value;
      assert children'[b] == Without(children[b], r - Bridges(devices, r));
    }
  }

  /** DevicePool.CanReject, as a predicate on values. */
  ghost predicate Removable(devices: seq<Device>, children: seq<seq<nat>>, padding: set<nat>, d: nat)
    requires Consistent(devices, children)
  {
    && d < |devices|
    && if devices[d].bridge then d in padding
       else devices[d].parent.Some? && d in children[devices[d].parent.value]
  }

  /** The heaviest victims of the five pools; a pool whose request is satisfied is not searched. */
  ghost predicate Choices(devices: seq<Device>, pools: seq<ResourceNode>, status: seq<nat>, choices: seq<Option<ResourceNode>>)
    requires |pools| == |status|
  {
    && |choices| <= |pools|
    && forall t :: 0 <= t < |choices| ==>
         if status[t] == RESOURCE_SATISFIED then choices[t] == None
         else
           && Names(devices, pools[t])
           && Heaviest(VictimsTo(devices, pools[t], |pools[t].children|), choices[t])
           && (choices[t].Some? ==> NamesOne(devices, choices[t].value) && Victim(devices, choices[t].value))
  }

  /** d is the device of one of the choices. */
  ghost predicate Chosen(choices: seq<Option<ResourceNode>>, d: nat) {
    exists t :: 0 <= t < |choices| && choices[t].Some? && choices[t].value.device == Some(d)
  }

  ghost function SetOf(s: seq<nat>): set<nat> {
    set x | x in s
  }

  /** The pool after the rejections in `removed`, each of which lowered its weight by one. */
  ghost predicate Adjusted(devices: seq<Device>, children0: seq<seq<nat>>, padding0: set<nat>,
                           children: seq<seq<nat>>, padding: set<nat>, removed: seq<nat>)
  {
    && Consistent(devices, children0) && Consistent(devices, children)
    && After(devices, children0, padding0, children, padding, SetOf(removed))
    && Weight(devices, children, padding) + |removed| == Weight(devices, children0, padding0)
    && forall d :: d in removed ==> d < |devices| && (devices[d].bridge || Rejectable(devices[d]))
  }

  lemma AdjustedStarts(devices: seq<Device>, children: seq<seq<nat>>, padding: set<nat>)
    requires Consistent(devices, children)
    ensures Adjusted(devices, children, padding, children, padding, [])
  {
    assert SetOf([]) == {};
    AfterNothing(devices, children, padding);
  }

  /** One rejection more. */
  lemma AdjustedStep(devices: seq<Device>, c0: seq<seq<nat>>, p0: set<nat>, c1: seq<seq<nat>>, p1: set<nat>,
                     c2: seq<seq<nat>>, p2: set<nat>, removed: seq<nat>, d: nat, ok: bool)
    requires Adjusted(devices, c0, p0, c1, p1, removed) && Consistent(devices, c2)
    requires After(devices, c1, p1, c2, p2, if ok then {d} else {})
    requires ok == Removable(devices, c1, p1, d)
    requires d < |devices| && (devices[d].bridge || devices[d].parent.None? || Rejectable(devices[d]))
    ensures Adjusted(devices, c0, p0, c2, p2, if ok then removed + [d] else removed)
  {
    if ok {
      AfterTwice(devices, c0, p0, c1, p1, c2, p2, SetOf(removed), {d});
      assert SetOf(removed + [d]) == SetOf(removed) + {d};
      RemovalLowersWeight(devices, c1, p1, c2, p2, d);
    } else {
      AfterNothingUnique(devices, c1, p1, c2, p2);
    }
  }

  lemma AfterNothingUnique(devices: seq<Device>, children: seq<seq<nat>>, padding: set<nat>,
                           children': seq<seq<nat>>, padding': set<nat>)
    requires After(devices, children, padding, children', padding', {})
    ensures children' == children && padding' == padding
  {
    AfterNothing(devices, children, padding);
    assert forall b :: 0 <= b < |children| ==> children'[b] == Without(children[b], {} - Bridges(devices, {}));
  }

  /** Look for x in the array of devices removed so far. */
  method RemovedBefore(removed: seq<nat>, x: nat) returns (found: bool)
    ensures found == (x in removed)
  {
    var index := 0;
    while index < |removed|
      invariant index <= |removed| && x !in removed[..index]
    {
      if removed[index] == x {
        return true;
      }
      index := index + 1;
    }
    assert removed[..index] == removed;
    return false;
  }

  /** The search of one pool, and the rejection of what it finds unless that is gone already. */
  method AdjustOne(pool: DevicePool, node: ResourceNode, removed0: seq<nat>,
                   ghost children0: seq<seq<nat>>, ghost padding0: set<nat>)
    returns (removed: seq<nat>, choice: Option<ResourceNode>)
    requires Names(pool.devices, node)
    requires Adjusted(pool.devices, children0, padding0, pool.children, pool.padding, removed0)
    modifies pool
    ensures Adjusted(pool.devices, children0, padding0, pool.children, pool.padding, removed)
    ensures Heaviest(VictimsTo(pool.devices, node, |node.children|), choice)
    ensures choice.Some? ==> NamesOne(pool.devices, choice.value) && Victim(pool.devices, choice.value)
    ensures if choice.Some? && choice.value.device.value !in removed0 &&
                 Removable(pool.devices, children0, padding0, choice.value.device.value)
            then removed == removed0 + [choice.value.device.value]
            else removed == removed0
  {
    hide Heaviest, VictimsTo, Names, After, Weight;
    removed := removed0;
    choice := GetMaxResourceConsumerDevice(pool.devices, node);
    if choice.None? {
      return;
    }
    var d := choice.value.device.value;
    var gone := RemovedBefore(removed, d);
    if gone {
      return;
    }
    ghost var children1, padding1 := pool.children, pool.padding;
    RejectionsIndependent(pool.devices, children0, padding0, children1, padding1, SetOf(removed0), d);
    var ok := pool.RejectPciDevice(d);
    AdjustedStep(pool.devices, children0, padding0, children1, padding1, pool.children, pool.padding, removed0, d, ok);
    if ok {
      removed := removed + [d];
    }
  }

  lemma ChosenStep(choices: seq<Option<ResourceNode>>, choice: Option<ResourceNode>, d: nat)
    ensures Chosen(choices + [choice], d) <==>
            Chosen(choices, d) || (choice.Some? && choice.value.device == Some(d))
  {
    var more := choices + [choice];
    if Chosen(choices, d) {
      var t :| 0 <= t < |choices| && choices[t].Some? && choices[t].value.device == Some(d);
      assert more[t] == choices[t];
    }
    assert more[|choices|] == choice;
  }

  /** The choices made so far, how far they got, and what came of them. */
  ghost predicate Decided(devices: seq<Device>, children0: seq<seq<nat>>, padding0: set<nat>,
                          pools: seq<ResourceNode>, status: seq<nat>, choices: seq<Option<ResourceNode>>, removed: seq<nat>)
    requires Consistent(devices, children0) && |pools| == |status|
  {
    && Choices(devices, pools, status, choices)
    && (forall d: nat :: d in removed <==> Chosen(choices, d) && Removable(devices, children0, padding0, d))
    && RESOURCE_NOT_SATISFIED !in status[..|choices|]
  }

  lemma DecidedStep(devices: seq<Device>, children0: seq<seq<nat>>, padding0: set<nat>, pools: seq<ResourceNode>,
                    status: seq<nat>, choices: seq<Option<ResourceNode>>, removed: seq<nat>,
                    choice: Option<ResourceNode>, removed': seq<nat>)
    requires Consistent(devices, children0) && |pools| == |status| && |choices| < |pools|
    requires Decided(devices, children0, padding0, pools, status, choices, removed)
    requires Choices(devices, pools, status, choices + [choice])
    requires status[|choices|] != RESOURCE_NOT_SATISFIED
    requires choice.Some? ==> choice.value.device.Some?
    requires if choice.Some? && choice.value.device.value !in removed &&
                Removable(devices, children0, padding0, choice.value.device.value)
             then removed' == removed + [choice.value.device.value] else removed' == removed
    ensures Decided(devices, children0, padding0, pools, status, choices + [choice], removed')
  {
    forall d: nat
      ensures d in removed' <==> Chosen(choices + [choice], d) && Removable(devices, children0, padding0, d)
    {
      ChosenStep(choices, choice, d);
    }
    assert status[..|choices| + 1] == status[..|choices|] + [status[|choices|]];
  }

  /**
    One adjustment after a failed allocation: for each unsatisfied resource type give up the heaviest victim. It ends
    early, reporting failure, at a type the host bridge does not have at all. Each rejection lowers the weight by one;
    whatever the outcome, no VGA device, no device on bus 0 and no bridge is ever taken out of a child list.
  */
  method PciHostBridgeAdjustAllocation(pool: DevicePool, pools: seq<ResourceNode>, status: seq<nat>)
    returns (ok: bool, removed: seq<nat>, ghost choices: seq<Option<ResourceNode>>)
    requires pool.Valid()
    requires |pools| == |status| == RESOURCE_TYPES
    requires forall t :: 0 <= t < |pools| ==> Names(pool.devices, pools[t])
    modifies pool
    ensures pool.Valid()
    ensures Adjusted(pool.devices, old(pool.children), old(pool.padding), pool.children, pool.padding, removed)
    ensures Decided(pool.devices, old(pool.children), old(pool.padding), pools, status, choices, removed)
    ensures if |choices| < RESOURCE_TYPES then status[|choices|] == RESOURCE_NOT_SATISFIED
            else RESOURCE_NOT_SATISFIED !in status
    ensures ok <==> |choices| == RESOURCE_TYPES && removed != []
  {
    hide Decided, Heaviest, VictimsTo, After, Weight, Removable, Chosen;
    ok, removed, choices := false, [], [];
    ghost var children0, padding0 := pool.children, pool.padding;
    AdjustedStarts(pool.devices, children0, padding0);
    DecidedStarts(pool.devices, children0, padding0, pools, status);
    var resType := 0;
    while resType < RESOURCE_TYPES
      invariant resType <= RESOURCE_TYPES && resType == |choices|
      invariant Choices(pool.devices, pools, status, choices)
      invariant RESOURCE_NOT_SATISFIED !in status[..resType]
      invariant Adjusted(pool.devices, children0, padding0, pool.children, pool.padding, removed)
      invariant Decided(pool.devices, children0, padding0, pools, status, choices, removed)
    {
      var choice := None;
      ghost var before := removed;
      if status[resType] != RESOURCE_SATISFIED {
        if status[resType] == RESOURCE_NOT_SATISFIED {
          return;
        }
        removed, choice := AdjustOne(pool, pools[resType], removed, children0, padding0);
      }
      DecidedStep(pool.devices, children0, padding0, pools, status, choices, before, choice, removed);
      choices := choices + [choice];
      resType := resType + 1;
      assert status[..resType] == status[..resType - 1] + [status[resType - 1]];
    }
    assert status[..resType] == status;
    ok := removed != [];
  }

  lemma DecidedStarts(devices: seq<Device>, children: seq<seq<nat>>, padding: set<nat>, pools: seq<ResourceNode>, status: seq<nat>)
    requires Consistent(devices, children) && |pools| == |status|
    ensures Decided(devices, children, padding, pools, status, [], [])
  {
  }
}
