/** Network addresses, shared by the tables and the topology. */
module Net {
  datatype Addr = V4(bits: nat) | V6(bits: nat) | V4InV6(bits: nat)

  /** An IPv4-mapped IPv6 address as the IPv4 address it stands for. */
  function Unmap(a: Addr): Addr {
    if a.V4InV6? then V4(a.bits) else a
  }

  datatype AddrPort = AddrPort(addr: Addr, port: nat)
}
