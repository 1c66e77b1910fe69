/**
 Which physical devices a set of used leaves stands for, and the choice of
 children that satisfies the custody policy.
 */
module Custody {
  import opened Results

  datatype UsedLeaf = UsedLeaf(hardware: int, name: string)

  /** `device` gives the container a key was placed on, or the key's own solo device. */
  datatype Policy = Policy(minimum: nat, hardwareMode: bool, ghosts: set<int>, device: int -> int)

  datatype Group = Group(device: int, hardware: seq<int>, names: seq<string>)

  // ---- classification ---------------------------------------------------------

  function Devices(p: Policy, used: seq<UsedLeaf>): set<int> {
    set l | l in used :: p.device(l.hardware)
  }

  /** Distinct physical devices behind the used leaves. */
  function DeviceCount(p: Policy, used: seq<UsedLeaf>): nat {
    |Devices(p, used)|
  }

  predicate AnyGhost(p: Policy, used: seq<UsedLeaf>) {
    exists l :: l in used && l.hardware in p.ghosts
  }

  /** Two different keys on one device. */
  predicate Crowded(p: Policy, used: seq<UsedLeaf>) {
    exists i, j :: 0 <= i < |used| && 0 <= j < |used|
      && p.device(used[i].hardware) == p.device(used[j].hardware) && used[i].hardware != used[j].hardware
  }

  predicate Acceptable(p: Policy, used: seq<UsedLeaf>) {
    used != [] && !AnyGhost(p, used) && (p.hardwareMode ==> !Crowded(p, used))
  }

  /** Key `h` is among the used ones and sits on `device`. */
  ghost predicate Carries(p: Policy, used: seq<UsedLeaf>, h: int, device: int) {
    p.device(h) == device && exists i :: 0 <= i < |used| && used[i].hardware == h
  }

  /** Group `g` is exactly what the leaves say about its device. */
  ghost predicate Describes(p: Policy, used: seq<UsedLeaf>, g: Group) {
    && (forall h {:trigger h in g.hardware} :: h in g.hardware <==> Carries(p, used, h, g.device))
    && (forall i, j :: 0 <= i < j < |g.hardware| ==> g.hardware[i] != g.hardware[j])
    && g.names == NamesOn(p, used, g.device)
  }

  /** The leaf names on a device, in presentation order. */
  function NamesOn(p: Policy, used: seq<UsedLeaf>, device: int): seq<string> {
    if used == [] then [] else
      var n := |used| - 1;
      NamesOn(p, used[..n], device) + if p.device(used[n].hardware) == device then [used[n].name] else []
  }

  /** One group per device seen so far. */
  ghost predicate Grouped(p: Policy, used: seq<UsedLeaf>, groups: seq<Group>) {
    && (forall g :: g in groups ==> Describes(p, used, g) && g.device in Devices(p, used))
    && (forall d :: d in Devices(p, used) ==> exists i :: 0 <= i < |groups| && groups[i].device == d)
    && (forall i, j :: 0 <= i < j < |groups| ==> groups[i].device != groups[j].device)
  }

  method FindGroup(groups: seq<Group>, device: int) returns (r: Option<nat>)
    ensures r.Some? ==> r.value < |groups| && groups[r.value].device == device
    ensures r.None? ==> forall i :: 0 <= i < |groups| ==> groups[i].device != device
  {
    for i := 0 to |groups|
      invariant forall j :: 0 <= j < i ==> groups[j].device != device
    {
      if groups[i].device == device {
        return Some(i);
      }
    }
    return None;
  }

  function Joined(g: Group, leaf: UsedLeaf): Group {
    g.(hardware := if leaf.hardware in g.hardware then g.hardware else g.hardware + [leaf.hardware],
       names := g.names + [leaf.name])
  }

  lemma CarriesAppend(p: Policy, used: seq<UsedLeaf>, leaf: UsedLeaf, h: int, device: int)
    ensures Carries(p, used + [leaf], h, device) <==>
      Carries(p, used, h, device) || (leaf.hardware == h && p.device(h) == device)
  {
    var all := used + [leaf];
    if Carries(p, used, h, device) {
      var i :| 0 <= i < |used| && used[i].hardware == h;
      assert all[i].hardware == h;
    }
    assert all[|used|] == leaf;
  }

  lemma DescribesOther(p: Policy, used: seq<UsedLeaf>, leaf: UsedLeaf, g: Group)
    requires Describes(p, used, g) && g.device != p.device(leaf.hardware)
    ensures Describes(p, used + [leaf], g)
  {
    var all := used + [leaf];
    assert all[..|used|] == used;
    forall h
      ensures h in g.hardware <==> Carries(p, all, h, g.device)
    {
      CarriesAppend(p, used, leaf, h, g.device);
    }
  }

  lemma DescribesJoined(p: Policy, used: seq<UsedLeaf>, leaf: UsedLeaf, g: Group)
    requires Describes(p, used, g) && g.device == p.device(leaf.hardware)
    ensures Describes(p, used + [leaf], Joined(g, leaf))
  {
    var all, j := used + [leaf], Joined(g, leaf);
    assert all[..|used|] == used && all[|used|] == leaf;
    forall h
      ensures h in j.hardware <==> Carries(p, all, h, j.device)
    {
      CarriesAppend(p, used, leaf, h, g.device);
    }
  }

  lemma {:induction false} NoNames(p: Policy, used: seq<UsedLeaf>, device: int)
    requires device !in Devices(p, used)
    ensures NamesOn(p, used, device) == []
  {
    if used != [] {
      var n := |used| - 1;
      assert used[n] in used;
      forall l | l in used[..n] ensures l in used {}
      NoNames(p, used[..n], device);
    }
  }

  lemma DescribesNew(p: Policy, used: seq<UsedLeaf>, leaf: UsedLeaf)
    requires p.device(leaf.hardware) !in Devices(p, used)
    ensures Describes(p, used + [leaf], Group(p.device(leaf.hardware), [leaf.hardware], [leaf.name]))
  {
    var all, d := used + [leaf], p.device(leaf.hardware);
    NoNames(p, used, d);
    assert all[..|used|] == used && all[|used|] == leaf;
    forall h
      ensures h in [leaf.hardware] <==> Carries(p, all, h, d)
    {
      CarriesAppend(p, used, leaf, h, d);
      assert !Carries(p, used, h, d);
    }
  }

  lemma DevicesAppend(p: Policy, used: seq<UsedLeaf>, leaf: UsedLeaf)
    ensures Devices(p, used + [leaf]) == Devices(p, used) + {p.device(leaf.hardware)}
  {
    assert forall l :: l in used + [leaf] <==> l in used || l == leaf;
  }

  /** Put one leaf into its device's group. */
  method PlaceLeaf(p: Policy, groups: seq<Group>, leaf: UsedLeaf, ghost used: seq<UsedLeaf>)
    returns (next: seq<Group>)
    requires Grouped(p, used, groups)
    ensures Grouped(p, used + [leaf], next)
  {
    var device := p.device(leaf.hardware);
    var found := FindGroup(groups, device);
    DevicesAppend(p, used, leaf);
    if found.Some? {
      var at := found.value;
      next := groups[at := Joined(groups[at], leaf)];
      DescribesJoined(p, used, leaf, groups[at]);
      forall i | 0 <= i < |groups| && i != at
        ensures Describes(p, used + [leaf], groups[i])
      {
        DescribesOther(p, used, leaf, groups[i]);
      }
      forall d | d in Devices(p, used + [leaf])
        ensures exists i :: 0 <= i < |next| && next[i].device == d
      {
        if d == device {
          assert next[at].device == d;
        } else {
          var i :| 0 <= i < |groups| && groups[i].device == d;
          assert next[i].device == d;
        }
      }
    } else {
      assert device !in Devices(p, used);
      next := groups + [Group(device, [leaf.hardware], [leaf.name])];
      DescribesNew(p, used, leaf);
      forall i | 0 <= i < |groups|
        ensures Describes(p, used + [leaf], groups[i])
      {
        DescribesOther(p, used, leaf, groups[i]);
      }
      forall d | d in Devices(p, used + [leaf])
        ensures exists i :: 0 <= i < |next| && next[i].device == d
      {
        if d == device {
          assert next[|groups|].device == d;
        } else {
          var i :| 0 <= i < |groups| && groups[i].device == d;
          assert next[i].device == d;
        }
      }
    }
  }

  lemma {:induction false} GroupCount(groups: seq<Group>, devices: set<int>)
    requires forall i, j :: 0 <= i < j < |groups| ==> groups[i].device != groups[j].device
    requires forall i :: 0 <= i < |groups| ==> groups[i].device in devices
    requires forall d :: d in devices ==> exists i :: 0 <= i < |groups| && groups[i].device == d
    ensures |groups| == |devices|
  {
    if groups == [] {
      assert forall d :: d !in devices;
    } else {
      var n := |groups| - 1;
      var d := groups[n].device;
      forall e | e in devices - {d}
        ensures exists i :: 0 <= i < n && groups[..n][i].device == e
      {
        var i :| 0 <= i < |groups| && groups[i].device == e;
        assert groups[..n][i].device == e;
      }
      GroupCount(groups[..n], devices - {d});
    }
  }

  lemma TwoKeysCrowd(p: Policy, used: seq<UsedLeaf>, g: Group)
    requires Describes(p, used, g) && |g.hardware| > 1
    ensures Crowded(p, used)
  {
    var a, b := g.hardware[0], g.hardware[1];
    assert a in g.hardware && b in g.hardware;
    assert Carries(p, used, a, g.device) && Carries(p, used, b, g.device);
  }

  lemma CrowdHasGroup(p: Policy, used: seq<UsedLeaf>, groups: seq<Group>, i: nat, j: nat) returns (g: Group)
    requires Grouped(p, used, groups) && i < |used| && j < |used|
    requires p.device(used[i].hardware) == p.device(used[j].hardware) && used[i].hardware != used[j].hardware
    ensures g in groups && |g.hardware| > 1
  {
    var d := p.device(used[i].hardware);
    assert used[i] in used && d in Devices(p, used);
    var k :| 0 <= k < |groups| && groups[k].device == d;
    g := groups[k];
    assert g in groups && Describes(p, used, g);
    assert Carries(p, used, used[i].hardware, d) && Carries(p, used, used[j].hardware, d);
    assert used[i].hardware in g.hardware && used[j].hardware in g.hardware;
  }

  /** A group with two keys is a device carrying two different keys. */
  lemma CrowdedGroup(p: Policy, used: seq<UsedLeaf>, groups: seq<Group>)
    requires Grouped(p, used, groups)
    ensures (exists g :: g in groups && |g.hardware| > 1) <==> Crowded(p, used)
  {
    if g :| g in groups && |g.hardware| > 1 {
      TwoKeysCrowd(p, used, g);
    }
    if Crowded(p, used) {
      var i, j :| 0 <= i < |used| && 0 <= j < |used|
        && p.device(used[i].hardware) == p.device(used[j].hardware) && used[i].hardware != used[j].hardware;
      var g := CrowdHasGroup(p, used, groups, i, j);
    }
  }

  method ClassifyDevices(p: Policy, used: seq<UsedLeaf>) returns (r: Result<seq<Group>>)
    ensures r.Ok? <==> Acceptable(p, used)
    ensures r.Ok? ==> Grouped(p, used, r.value) && |r.value| == DeviceCount(p, used)
    ensures r.Err? ==>
      r.error == (if used == [] then QuorumNotMet else if AnyGhost(p, used) then GhostDenied else CustodyViolation)
  {
    if used == [] {
      return Err(QuorumNotMet);
    }
    var groups: seq<Group> := [];
    for i := 0 to |used|
      invariant Grouped(p, used[..i], groups)
      invariant !AnyGhost(p, used[..i])
    {
      if used[i].hardware in p.ghosts {
        assert used[i] in used;
        return Err(GhostDenied);
      }
      assert used[..i + 1] == used[..i] + [used[i]];
      groups := PlaceLeaf(p, groups, used[i], used[..i]);
    }
    assert used[..|used|] == used;
    GroupCount(groups, Devices(p, used));
    CrowdedGroup(p, used, groups);
    if p.hardwareMode && exists g :: g in groups && |g.hardware| > 1 {
      return Err(CustodyViolation);
    }
    return Ok(groups);
  }

  /** Classification together with the policy's minimum number of devices. */
  method EnforceDevices(p: Policy, used: seq<UsedLeaf>) returns (r: Result<seq<Group>>)
    ensures r.Ok? <==> Acceptable(p, used) && DeviceCount(p, used) >= p.minimum
    ensures r.Ok? ==> Grouped(p, used, r.value) && |r.value| == DeviceCount(p, used)
    ensures Acceptable(p, used) && r.Err? ==> r.error == PhysicalDevicesNotMet
  {
    r := ClassifyDevices(p, used);
    if r.Ok? && |r.value| < p.minimum {
      r := Err(PhysicalDevicesNotMet);
    }
  }
}
