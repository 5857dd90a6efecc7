/** An address of either family, as kind() names it. */
module IPAddr {

  import IPv4
  import IPv6

  datatype IP = V4(v4: IPv4.Address) | V6(v6: IPv6.Address)

  /** kind(): the family's name; the two names differ. */
  function Kind(ip: IP): (k: string)
    ensures k == "ipv4" <==> ip.V4?
    ensures k == "ipv6" <==> ip.V6?
  {
    match ip
    case V4(_) => "ipv4"
    case V6(_) => "ipv6"
  }

  lemma KindOfIPv4()
    ensures Kind(V4(IPv4.Address([1, 2, 3, 4]))) == "ipv4"
  {
  }

  lemma KindOfIPv6()
    ensures Kind(V6(IPv6.Address([0x2001, 0xdb8, 0xf53a, 0, 0, 0, 0, 1]))) == "ipv6"
  {
  }
}
