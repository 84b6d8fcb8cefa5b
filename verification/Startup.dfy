/** From the host file to a running tree. */
module Startup {
  import opened LaunchTrees
  import opened AgentThresholds
  import opened Tables
  import opened Delivery
  import opened Sessions
  import opened Deployments
  import opened Launcher
  import opened BackEndMaps

  datatype Started = Refused(rc: int) | Running(net: Net, placed: map<int, string>)

  /**
   * The front end reads the host file and deploys the tree over its hosts. A file that is accepted has the ids
   * 0 .. size - 1, and the tree that grows from it delivers, whatever `d` levels it fits in, exactly when there
   * are too few back ends for an agent to get the reserved id.
   */
  method Start(lines: seq<Line>, num: int, sch: Scheme, fanOut: nat, ghost d: nat) returns (r: Started)
    requires Works(sch, fanOut) && d >= 1
    ensures r.Running? <==>
              var (m, rc) := ReadLines(map[], lines, num); rc == BEMAP_SUCCESS && |m| > 0 && Contiguous(m, 0)
    ensures r.Running? ==> r.placed == ReadLines(map[], lines, num).0
    ensures r.Running? ==> Shape(r.net) == Tree(sch, -1, 0, |r.placed|, fanOut)
    ensures r.Running? && |r.placed| <= Capacity(sch, fanOut, d) ==>
              (Delivers(r.net, d) <==> |r.placed| < Threshold(sch, fanOut, VALIDBACKENDIDS))
  {
    hide Enough, ReadLines, Delivers, Capacity, Tree, Filed, Raised;
    var bemap := new BEMap();
    var rc := bemap.Input(lines, num);
    if rc != SCI_SUCCESS {
      return Refused(rc);
    }
    var net, placed := Deploy(sch, -1, bemap.hosts, fanOut, 0);
    if |bemap.hosts| <= Capacity(sch, fanOut, d) { DeployedTreeDelivers(sch, net, 0, |bemap.hosts|, fanOut, d); }
    return Running(net, placed);
  }
}
