/** The link-layer framing a packet starts with. */
module LinkType {
  import opened Words
  import opened Errors

  datatype LinkType = Ethernet | LinuxSll | Raw

  /** Where the network header starts, and where the ethertype field is if the framing has one. */
  datatype L3OffsetInfo = L3OffsetInfo(ipBase: u32, ethertypeOffset: Option<u32>)

  function L3Info(link: LinkType): L3OffsetInfo {
    match link
    case Ethernet => L3OffsetInfo(14, Some(12))
    case LinuxSll => L3OffsetInfo(16, Some(14))
    case Raw => L3OffsetInfo(0, None)
  }
}
