/** Network statistics as sampled once per tick (`NetStat`, `get_net_stat`). */
module NetStats {

  /** Packet counters of one interface. */
  datatype NetStat = NetStat(ifname: string, rxPackets: int, txPackets: int)

  /** The interface name a sample carries when no interface is UP. */
  const NoUpInterface: string := "No UP interface"

  /** The default sample: the sentinel name and zero counters. */
  function NoInterface(): NetStat {
    NetStat(NoUpInterface, 0, 0)
  }

  /** One entry of the link listing, already decoded from its JSON form. */
  datatype Interface = Interface(ifname: string, operstate: string, rxPackets: int, txPackets: int)

  predicate IsUp(i: Interface) {
    i.operstate == "UP"
  }

  function StatOf(i: Interface): NetStat {
    NetStat(i.ifname, i.rxPackets, i.txPackets)
  }

  /** The statistics of the first interface, in listing order, whose state is UP,
      or the default sample when none is. */
  function FirstUp(ifaces: seq<Interface>): (r: NetStat)
    ensures (forall k | 0 <= k < |ifaces| :: !IsUp(ifaces[k])) ==> r == NoInterface()
    ensures forall k | 0 <= k < |ifaces| && IsUp(ifaces[k]) ::
              (forall j | 0 <= j < k :: !IsUp(ifaces[j])) ==> r == StatOf(ifaces[k])
  {
    if ifaces == [] then NoInterface()
    else if IsUp(ifaces[0]) then StatOf(ifaces[0])
    else
      var r := FirstUp(ifaces[1..]);
      assert forall k | 1 <= k < |ifaces| :: ifaces[k] == ifaces[1..][k - 1];
      r
  }
}
