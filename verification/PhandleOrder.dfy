/** Which node a phandle leads to when several carry it: the last in depth-first order
    (src/kernel/devicetree/mod.rs, `phandle_map.insert`). */
module PhandleOrder {
  import opened Basics
  import opened StructureBlock
  import opened DeviceTree
  import opened DevicePaths

  ghost predicate PlacesIn(root: Node, places: seq<Place>)
  {
    forall i | 0 <= i < |places| :: NodeAt(root, places[i]).Some?
  }

  /** Recording node after node. */
  function Recorded(root: Node, places: seq<Place>, m: map<nat, Place>): map<nat, Place>
    requires forall i | 0 <= i < |places| :: NodeAt(root, places[i]).Some?
    decreases |places|
  {
    if places == [] then m
    else Recorded(root, places[1..], RecordAll(m, NodeAt(root, places[0]).value.props, places[0]))
  }

  lemma {:induction false} RecordedConcat(root: Node, a: seq<Place>, b: seq<Place>, m: map<nat, Place>)
    requires PlacesIn(root, a) && PlacesIn(root, b)
    ensures PlacesIn(root, a + b) && Recorded(root, a + b, m) == Recorded(root, b, Recorded(root, a, m))
    decreases |a|
  {
    hide RecordAll, NodeAt;
    if a == [] {
      assert a + b == b;
    } else {
      assert (a + b)[1..] == a[1..] + b;
      RecordedConcat(root, a[1..], b, RecordAll(m, NodeAt(root, a[0]).value.props, a[0]));
    }
  }

  /** The map of a tree is what recording its nodes in the order of the walk makes. */
  lemma {:induction false} InWalkOrder(root: Node, n: Node, at: Place, m: map<nat, Place>)
    requires NodeAt(root, at) == Some(n)
    ensures PlacesIn(root, Places(n, at)) && PhandlesOf(n, at, m) == Recorded(root, Places(n, at), m)
    decreases n, 1
  {
    hide NodeAt, RecordAll;
    var m' := RecordAll(m, n.props, at);
    assert n.children[0..] == n.children;
    InWalkOrderAll(root, n, 0, at, m');
    OneRecorded(root, n, at, m);
    RecordedConcat(root, [at], PlacesAll(n.children, at, 0), m);
  }

  lemma OneRecorded(root: Node, n: Node, at: Place, m: map<nat, Place>)
    requires NodeAt(root, at) == Some(n)
    ensures PlacesIn(root, [at]) && Recorded(root, [at], m) == RecordAll(m, n.props, at)
  {
    hide NodeAt, RecordAll;
    assert [at][1..] == [];
  }

  lemma {:induction false} InWalkOrderAll(root: Node, n: Node, k: nat, at: Place, m: map<nat, Place>)
    requires NodeAt(root, at) == Some(n) && k <= |n.children|
    ensures PlacesIn(root, PlacesAll(n.children[k..], at, k))
    ensures PhandlesOfAll(n.children[k..], at, k, m) == Recorded(root, PlacesAll(n.children[k..], at, k), m)
    decreases n, 0, |n.children| - k
  {
    hide NodeAt, RecordAll, PhandlesOf, Places;
    if k < |n.children| {
      NodeAtChild(root, at, k);
      var child := n.children[k];
      InWalkOrder(root, child, at + [k], m);
      InWalkOrderAll(root, n, k + 1, at, PhandlesOf(child, at + [k], m));
      assert n.children[k..][1..] == n.children[k + 1..];
      RecordedConcat(root, Places(child, at + [k]), PlacesAll(n.children[k + 1..], at, k + 1), m);
    }
  }

  lemma {:induction false} RecordAllSets(m: map<nat, Place>, props: seq<Prop>, at: Place, h: nat)
    ensures var r := RecordAll(m, props, at);
      if exists p | p in props :: p.name == PHANDLE && |p.value| == 4 && Word(p.value, 0) == h
      then h in r && r[h] == at
      else (h in r <==> h in m) && (h in r ==> r[h] == m[h])
    decreases |props|
  {
    if props != [] {
      hide Word;
      assert props == [props[0]] + props[1..];
      RecordAllSets(Record(m, props[0], at), props[1..], at, h);
    }
  }

  /** Nodes without the phandle leave its entry alone. */
  lemma {:induction false} RecordedKeeps(root: Node, places: seq<Place>, m: map<nat, Place>, h: nat)
    requires PlacesIn(root, places) && h in m
    requires forall i | 0 <= i < |places| :: !HasPhandle(NodeAt(root, places[i]).value, h)
    ensures h in Recorded(root, places, m) && Recorded(root, places, m)[h] == m[h]
    decreases |places|
  {
    if places != [] {
      var n := NodeAt(root, places[0]).value;
      RecordAllSets(m, n.props, places[0], h);
      assert !HasPhandle(n, h);
      forall i | 0 <= i < |places[1..]|
        ensures NodeAt(root, places[1..][i]).Some? && !HasPhandle(NodeAt(root, places[1..][i]).value, h)
      {
        assert places[1..][i] == places[i + 1];
      }
      hide NodeAt, HasPhandle, RecordAll;
      RecordedKeeps(root, places[1..], RecordAll(m, n.props, places[0]), h);
    }
  }

  /** The entry of a phandle is the last node in the walk that carries it. */
  lemma LastPhandleWins(t: Node, h: nat, i: nat)
    requires i < |Places(t, [])| && PlacesIn(t, Places(t, []))
    requires HasPhandle(NodeAt(t, Places(t, [])[i]).value, h)
    requires forall j | i < j < |Places(t, [])| :: !HasPhandle(NodeAt(t, Places(t, [])[j]).value, h)
    ensures h in PhandlesOf(t, [], map[]) && PhandlesOf(t, [], map[])[h] == Places(t, [])[i]
  {
    var ps := Places(t, []);
    InWalkOrder(t, t, [], map[]);
    hide Places, PhandlesOf;
    var before, after := ps[..i], ps[i + 1..];
    assert ps == before + ([ps[i]] + after);
    assert PlacesIn(t, before) && PlacesIn(t, [ps[i]]) && PlacesIn(t, after);
    RecordedConcat(t, [ps[i]], after, Recorded(t, before, map[]));
    RecordedConcat(t, before, [ps[i]] + after, map[]);
    var n := NodeAt(t, ps[i]).value;
    OneRecorded(t, n, ps[i], Recorded(t, before, map[]));
    RecordAllSets(Recorded(t, before, map[]), n.props, ps[i], h);
    RecordedKeeps(t, after, Recorded(t, [ps[i]], Recorded(t, before, map[])), h);
  }
}
