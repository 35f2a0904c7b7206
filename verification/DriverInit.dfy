/** Bringing up platform drivers in an order found by retrying (src/drivers/mod.rs, `init_platform_drivers`). */
module DriverInit {
  import opened Basics

  /** What a node comes to, given the devices registered so far. */
  datatype Outcome = NoDriver | Initialised | Retry | Failed

  /** Device nodes are named by numbers; the outcome of a node may depend on the registered devices and nothing else. */
  type Behaviour = (nat, set<nat>) -> Outcome

  /** Retry means that something is missing: any other outcome stays when more devices are registered. */
  ghost predicate Monotone(b: Behaviour)
  {
    forall n: nat, s: set<nat>, t: set<nat> | s <= t && b(n, s) != Retry :: b(n, t) == b(n, s)
  }

  function Elements(s: seq<nat>): set<nat>
  {
    set x | x in s
  }

  /** No node that could be initialised on top of these devices is missing. */
  ghost predicate Closed(b: Behaviour, nodes: seq<nat>, devices: set<nat>)
  {
    forall n | n in nodes && b(n, devices) == Initialised :: n in devices
  }

  /** The least set of devices closed under the drivers' dependencies. */
  ghost predicate LeastFixedPoint(b: Behaviour, nodes: seq<nat>, devices: set<nat>)
  {
    && (forall n :: n in devices <==> n in nodes && b(n, devices) == Initialised)
    && (forall other: set<nat> | Closed(b, nodes, other) :: devices <= other)
  }

  /** There is at most one, whatever the order of the nodes. */
  lemma FixedPointUnique(b: Behaviour, nodes: seq<nat>, nodes': seq<nat>, s: set<nat>, t: set<nat>)
    requires Elements(nodes) == Elements(nodes') && LeastFixedPoint(b, nodes, s) && LeastFixedPoint(b, nodes', t)
    ensures s == t
  {
    assert forall n :: (n in nodes <==> n in Elements(nodes)) && (n in nodes' <==> n in Elements(nodes'));
    assert Closed(b, nodes, t) && Closed(b, nodes', s);
  }

  /** Each device was initialised on top of the ones registered before it. */
  ghost predicate InOrder(b: Behaviour, bindings: seq<nat>)
  {
    forall i | 0 <= i < |bindings| :: b(bindings[i], Elements(bindings[..i])) == Initialised
  }

  /** Nodes that are neither bound nor left: nothing can be made of them, now or later. */
  ghost predicate GivenUp(b: Behaviour, nodes: seq<nat>, left: seq<nat>, bindings: seq<nat>)
  {
    forall n | n in nodes && n !in left && n !in bindings ::
      exists i | 0 <= i <= |bindings| :: b(n, Elements(bindings[..i])) in {NoDriver, Failed}
  }

  /** The state of a pass: `left` still to be tried, `kept` to be retried, `bindings` registered. */
  ghost predicate Sorted(b: Behaviour, nodes: seq<nat>, left: seq<nat>, bindings: seq<nat>)
  {
    && NoRepeats(left) && NoRepeats(bindings) && InOrder(b, bindings) && GivenUp(b, nodes, left, bindings)
    && (forall n | n in left :: n in nodes && n !in bindings) && (forall n | n in bindings :: n in nodes)
  }

  lemma PrefixOfSnoc(s: seq<nat>, x: nat, i: nat)
    requires i <= |s|
    ensures (s + [x])[..i] == s[..i]
  {
  }

  /** Binding a node that can be initialised now. */
  lemma BindKeeps(b: Behaviour, nodes: seq<nat>, kept: seq<nat>, n: nat, rest: seq<nat>, bindings: seq<nat>)
    requires Sorted(b, nodes, kept + ([n] + rest), bindings) && b(n, Elements(bindings)) == Initialised
    ensures Sorted(b, nodes, kept + rest, bindings + [n])
  {
    var bindings' := bindings + [n];
    assert n in kept + ([n] + rest);
    Drop(kept, n, rest);
    forall i | 0 <= i < |bindings'|
      ensures b(bindings'[i], Elements(bindings'[..i])) == Initialised
    {
      PrefixOfSnoc(bindings, n, i);
      if i == |bindings| { assert bindings[..i] == bindings; }
    }
    forall m | m in nodes && m !in kept + rest && m !in bindings'
      ensures exists i | 0 <= i <= |bindings'| :: b(m, Elements(bindings'[..i])) in {NoDriver, Failed}
    {
      assert m !in kept + ([n] + rest);
      var i :| 0 <= i <= |bindings| && b(m, Elements(bindings[..i])) in {NoDriver, Failed};
      PrefixOfSnoc(bindings, n, i);
    }
  }

  lemma Drop(kept: seq<nat>, n: nat, rest: seq<nat>)
    requires NoRepeats(kept + ([n] + rest))
    ensures NoRepeats(kept + rest) && n !in kept + rest
    ensures forall m :: m in kept + ([n] + rest) <==> m == n || m in kept + rest
  {
    var all := kept + ([n] + rest);
    forall i, j | 0 <= i < j < |kept + rest|
      ensures (kept + rest)[i] != (kept + rest)[j]
    {
      var i' := if i < |kept| then i else i + 1;
      var j' := if j < |kept| then j else j + 1;
      assert all[i'] != all[j'];
    }
    forall i | 0 <= i < |kept + rest|
      ensures (kept + rest)[i] != n
    {
      var i' := if i < |kept| then i else i + 1;
      assert all[i'] == (kept + rest)[i] && all[|kept|] == n;
      assert all[i'] != all[|kept|];
    }
  }

  /** Dropping a node without driver, or whose driver failed for good. */
  lemma DropKeeps(b: Behaviour, nodes: seq<nat>, kept: seq<nat>, n: nat, rest: seq<nat>, bindings: seq<nat>)
    requires Sorted(b, nodes, kept + ([n] + rest), bindings) && b(n, Elements(bindings)) in {NoDriver, Failed}
    ensures Sorted(b, nodes, kept + rest, bindings)
  {
    Drop(kept, n, rest);
    forall m | m in nodes && m !in kept + rest && m !in bindings
      ensures exists i | 0 <= i <= |bindings| :: b(m, Elements(bindings[..i])) in {NoDriver, Failed}
    {
      if m == n { assert bindings[..|bindings|] == bindings; } else { assert m !in kept + ([n] + rest); }
    }
  }

  lemma {:induction false} BoundFollows(b: Behaviour, bindings: seq<nat>, nodes: seq<nat>, other: set<nat>, i: nat)
    requires Monotone(b) && InOrder(b, bindings) && i <= |bindings| && Closed(b, nodes, other)
    requires forall n | n in bindings :: n in nodes
    ensures Elements(bindings[..i]) <= other
    decreases i
  {
    if i > 0 {
      BoundFollows(b, bindings, nodes, other, i - 1);
      var n := bindings[i - 1];
      assert bindings[..i] == bindings[..i - 1] + [n];
      assert b(n, other) == Initialised && n in bindings;
    }
  }

  lemma PrefixElements(s: seq<nat>, i: nat)
    requires i <= |s|
    ensures Elements(s[..i]) <= Elements(s)
  {
  }

  /** When only nodes that say Retry are left, what is bound is the least fixed point. */
  lemma EndIsLeast(b: Behaviour, nodes: seq<nat>, left: seq<nat>, bindings: seq<nat>)
    requires Monotone(b) && Sorted(b, nodes, left, bindings) && forall n | n in left :: b(n, Elements(bindings)) == Retry
    ensures LeastFixedPoint(b, nodes, Elements(bindings))
  {
    var devices := Elements(bindings);
    forall n
      ensures n in devices <==> n in nodes && b(n, devices) == Initialised
    {
      if n in bindings {
        var i :| 0 <= i < |bindings| && bindings[i] == n;
        PrefixElements(bindings, i);
      } else if n in nodes && n !in left {
        var i :| 0 <= i <= |bindings| && b(n, Elements(bindings[..i])) in {NoDriver, Failed};
        PrefixElements(bindings, i);
      }
    }
    forall other: set<nat> | Closed(b, nodes, other)
      ensures devices <= other
    {
      BoundFollows(b, bindings, nodes, other, |bindings|);
      assert bindings[..|bindings|] == bindings;
    }
  }

  /** One pass of `retain`: every remaining node is tried once, on top of what the pass has bound so far. */
  method OnePass(b: Behaviour, ghost nodes: seq<nat>, left: seq<nat>, bindings: seq<nat>)
    returns (kept: seq<nat>, bindings': seq<nat>, progress: bool)
    requires Sorted(b, nodes, left, bindings)
    ensures Sorted(b, nodes, kept, bindings') && |kept| <= |left|
    ensures progress ==> |kept| < |left|
    ensures !progress ==> bindings' == bindings && forall n | n in kept :: b(n, Elements(bindings)) == Retry
  {
    hide Sorted;
    kept, bindings', progress := [], bindings, false;
    var k := 0;
    assert [] + left[0..] == left;
    while k < |left|
      invariant k <= |left| && |kept| <= k && (progress ==> |kept| < k)
      invariant Sorted(b, nodes, kept + left[k..], bindings')
      invariant !progress ==> bindings' == bindings && forall n | n in kept :: b(n, Elements(bindings)) == Retry
    {
      var node := left[k];
      assert left[k..] == [node] + left[k + 1..];
      match b(node, Elements(bindings')) {
        case Initialised =>
          BindKeeps(b, nodes, kept, node, left[k + 1..], bindings');
          bindings' := bindings' + [node];
          progress := true;
        case Retry =>
          assert kept + ([node] + left[k + 1..]) == (kept + [node]) + left[k + 1..];
          kept := kept + [node];
        case NoDriver => DropKeeps(b, nodes, kept, node, left[k + 1..], bindings');
        case Failed => DropKeeps(b, nodes, kept, node, left[k + 1..], bindings');
      }
      k := k + 1;
    }
    assert kept + left[k..] == kept;
  }

  /** The retry loop always ends, binds each node at most once and every device after what it needs; when Retry means
      a missing device, it binds exactly the least fixed point. */
  method InitPlatformDrivers(b: Behaviour, nodes: seq<nat>) returns (bindings: seq<nat>)
    requires NoRepeats(nodes)
    ensures NoRepeats(bindings) && InOrder(b, bindings) && forall n | n in bindings :: n in nodes
    ensures Monotone(b) ==> LeastFixedPoint(b, nodes, Elements(bindings))
    ensures forall n | n in nodes && n !in bindings ::
              b(n, Elements(bindings)) == Retry || exists i | 0 <= i <= |bindings| :: b(n, Elements(bindings[..i])) in {NoDriver, Failed}
  {
    var left, progress := nodes, true;
    bindings := [];
    while progress && left != []
      invariant Sorted(b, nodes, left, bindings)
      invariant !progress ==> forall n | n in left :: b(n, Elements(bindings)) == Retry
      decreases |left|, if progress then 1 else 0
    {
      left, bindings, progress := OnePass(b, nodes, left, bindings);
    }
    if Monotone(b) { EndIsLeast(b, nodes, left, bindings); }
  }

  /** Two orders of the same nodes bring up the same devices. */
  method OrderDoesNotMatter(b: Behaviour, nodes: seq<nat>, nodes': seq<nat>) returns (s: set<nat>, t: set<nat>)
    requires Monotone(b) && NoRepeats(nodes) && NoRepeats(nodes') && Elements(nodes) == Elements(nodes')
    ensures s == t && LeastFixedPoint(b, nodes, s)
  {
    var x := InitPlatformDrivers(b, nodes);
    var y := InitPlatformDrivers(b, nodes');
    s, t := Elements(x), Elements(y);
    FixedPointUnique(b, nodes, nodes', s, t);
  }

  // ----- choosing a driver -----

  function FirstWith(drivers: seq<seq<string>>, name: string): (r: Option<nat>)
    ensures r.Some? ==> r.value < |drivers| && name in drivers[r.value] && forall k | 0 <= k < r.value :: name !in drivers[k]
    ensures r.None? ==> forall k | 0 <= k < |drivers| :: name !in drivers[k]
  {
    if drivers == [] then None
    else if name in drivers[0] then Some(0)
    else match FirstWith(drivers[1..], name)
      case None => None
      case Some(k) => Some(k + 1)
  }

  /** `match_driver`: the most specific name any driver knows decides, and among its drivers the first. */
  method MatchDriver(compatible: seq<string>, drivers: seq<seq<string>>) returns (r: Option<nat>)
    ensures r.None? <==> forall c, k | c in compatible && 0 <= k < |drivers| :: c !in drivers[k]
    ensures r.Some? ==> exists i | 0 <= i < |compatible| ::
                          && FirstWith(drivers, compatible[i]) == r
                          && forall j, k | 0 <= j < i && 0 <= k < |drivers| :: compatible[j] !in drivers[k]
  {
    for i := 0 to |compatible|
      invariant forall j, k | 0 <= j < i && 0 <= k < |drivers| :: compatible[j] !in drivers[k]
    {
      r := FirstWith(drivers, compatible[i]);
      if r.Some? {
        assert compatible[i] in compatible && compatible[i] in drivers[r.value];
        return;
      }
    }
    return None;
  }
}
