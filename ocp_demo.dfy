/**
  The lookout-slide demo (components/interactive/OCPDemo.tsx): the slide launches
  whatever pups are in the fleet, and the fleet is open to one more pup, Skye.
 */
module OcpDemo {
  import opened Types

  /** A pup of the active fleet. */
  datatype FleetPup = FleetPup(id: string, name: string, gear: string, color: string)

  const Chase: FleetPup := FleetPup("p1", "Chase", "Police Gear", "bg-blue-600")
  const Marshall: FleetPup := FleetPup("p2", "Marshall", "Fire Gear", "bg-red-600")
  const Skye: FleetPup := FleetPup("p3", "Skye", "Flight Gear", "bg-pink-500")

  const InitialFleet: seq<FleetPup> := [Chase, Marshall]

  /** `pups[i]` is the first pup named `name`. */
  predicate FirstNamed(pups: seq<FleetPup>, name: string, i: nat)
  {
    i < |pups| && pups[i].name == name && forall j :: 0 <= j < i ==> pups[j].name != name
  }

  /** `pups.find(p => p.name === name)`: the first pup of that name. */
  function Find(pups: seq<FleetPup>, name: string): (r: Option<FleetPup>)
    ensures r.None? <==> forall i :: 0 <= i < |pups| ==> pups[i].name != name
    ensures r.Some? ==> exists i: nat :: FirstNamed(pups, name, i) && pups[i] == r.value
  {
    if pups == [] then None
    else if pups[0].name == name then
      assert FirstNamed(pups, name, 0);
      Some(pups[0])
    else
      var r := Find(pups[1..], name);
      if r.Some? then
        var i: nat :| FirstNamed(pups[1..], name, i) && pups[1..][i] == r.value;
        assert FirstNamed(pups, name, i + 1);
        r
      else r
  }

  const LaunchHead: string := "Slide: Launching "
  const LaunchTail: string := " with generic RescueVehicle interface..."

  /** The log line for one pup going down the slide: the pup's name stands at a fixed
      place between the same two texts. */
  function LaunchLine(name: string): (r: string)
    ensures |r| == |LaunchHead| + |name| + |LaunchTail|
    ensures r[|LaunchHead|..|LaunchHead| + |name|] == name
  {
    LaunchHead + name + LaunchTail
  }

  /** Distinct pups give distinct launch lines. */
  lemma LaunchLineNames(a: string, b: string)
    requires LaunchLine(a) == LaunchLine(b)
    ensures a == b
  {
    assert |a| == |b|;
  }

  /** `activePups.map(...)`: one line per pup. */
  function LaunchLines(pups: seq<FleetPup>): (r: seq<string>)
    ensures |r| == |pups| && forall i :: 0 <= i < |pups| ==> r[i] == LaunchLine(pups[i].name)
  {
    if pups == [] then [] else [LaunchLine(pups[0].name)] + LaunchLines(pups[1..])
  }

  predicate DistinctNames(pups: seq<FleetPup>)
  {
    forall i, j :: 0 <= i < j < |pups| ==> pups[i].name != pups[j].name
  }

  /** The fleet is the initial one, or the initial one with Skye appended. */
  predicate FleetShape(pups: seq<FleetPup>)
  {
    pups == InitialFleet || pups == InitialFleet + [Skye]
  }

  /** Every fleet the demo can reach has at most three pups, all with different names. */
  lemma FleetShapeBounded(pups: seq<FleetPup>)
    requires FleetShape(pups)
    ensures |pups| <= 3 && DistinctNames(pups)
  {
  }

  /** Skye is found exactly in the fleet she has been added to, so a second `addSkye`
      finds her and does nothing. */
  lemma SkyeFoundIffAdded(pups: seq<FleetPup>)
    requires FleetShape(pups)
    ensures Find(pups, "Skye").Some? <==> pups == InitialFleet + [Skye]
  {
    if pups == InitialFleet + [Skye] {
      assert pups[2].name == "Skye";
    }
  }

  /** Launching names each pup once, in fleet order, with no line repeated. */
  lemma LaunchLinesDistinct(pups: seq<FleetPup>)
    requires DistinctNames(pups)
    ensures forall i, j :: 0 <= i < j < |pups| ==> LaunchLines(pups)[i] != LaunchLines(pups)[j]
  {
    forall i, j | 0 <= i < j < |pups|
      ensures LaunchLines(pups)[i] != LaunchLines(pups)[j]
    {
      if LaunchLines(pups)[i] == LaunchLines(pups)[j] {
        LaunchLineNames(pups[i].name, pups[j].name);
      }
    }
  }

  class Demo {
    var activePups: seq<FleetPup>
    var logs: seq<string>

    constructor()
      ensures activePups == InitialFleet && logs == []
      ensures FleetShape(activePups)
    {
      activePups := InitialFleet;
      logs := [];
    }

    /** `launch`: the log becomes one line per active pup; the fleet is not touched. */
    method Launch()
      modifies this
      ensures logs == LaunchLines(activePups) && activePups == old(activePups)
    {
      logs := LaunchLines(activePups);
    }

    /** `addSkye`: when Skye is missing she is appended and the log is cleared; when she
        is already there nothing changes. */
    method AddSkye()
      requires FleetShape(activePups)
      modifies this
      ensures FleetShape(activePups)
      ensures Find(old(activePups), "Skye").Some? ==> activePups == old(activePups) && logs == old(logs)
      ensures Find(old(activePups), "Skye").None? ==> activePups == old(activePups) + [Skye] && logs == []
    {
      SkyeFoundIffAdded(activePups);
      if Find(activePups, "Skye").Some? {
        return;
      }
      activePups := activePups + [Skye];
      logs := [];
    }
  }
}
