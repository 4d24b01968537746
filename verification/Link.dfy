/** Hosts and frames: what the layers below IP know of the machine (DNet.h) and hand to the driver. */
module Link {
  import opened Bytes

  const ETHERTYPE_IP: u16 := 0x0800
  const ETHERTYPE_ARP: u16 := 0x0806
  const BROADCAST: Mac := [0xff, 0xff, 0xff, 0xff, 0xff, 0xff]

  /** Own hardware address, that of the kernel's TAP device, and the subnet. */
  datatype Host = Host(mac: Mac, tapMac: Mac, network: Ipv4, mask: Ipv4)

  /** The arguments of one `L2_send`. */
  datatype Frame = Frame(payload: seq<byte>, dest: Mac, etherType: u16)

  /** The operator `&`: the bits both numbers have. */
  function And(a: nat, b: nat): (r: nat)
    ensures r <= a
  {
    if a == 0 then 0 else 2 * And(a / 2, b / 2) + if a % 2 == 1 && b % 2 == 1 then 1 else 0
  }

  /** Ipv4Subnet::contains (defs.h:249-254). */
  predicate Contains(host: Host, addr: Ipv4) {
    var a, m, n := Put32(addr), Put32(host.mask), Put32(host.network);
    && And(a[0], m[0]) == n[0] && And(a[1], m[1]) == n[1]
    && And(a[2], m[2]) == n[2] && And(a[3], m[3]) == n[3]
  }

  /** The running stack, as far as the layers below IP see it. */
  class Context {
    const host: Host
    var frames: seq<Frame>  // everything given to L2_send so far

    constructor (host: Host)
      ensures this.host == host && frames == []
    {
      this.host := host;
      frames := [];
    }

    method L2Send(payload: seq<byte>, dest: Mac, etherType: u16)
      modifies this
      ensures frames == old(frames) + [Frame(payload, dest, etherType)]
    {
      frames := frames + [Frame(payload, dest, etherType)];
    }
  }
}
