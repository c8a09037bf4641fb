/** The records the control plane stores in the three tables and the data
    plane reads back: SID-function entries and headend entries. */
module Entries {
  import opened Bytes
  import opened Xdp

  /** The fixed-capacity segment array of a headend entry
      (`[MaxSegments][IPv6AddrLen]uint8`), in traversal order: slot 0 is the
      first segment to visit. */
  type SegmentArray = s: seq<Addr16> | |s| == MaxSegments witness NoSegments

  /** Ten all-zero slots, the content of an unused segment array. */
  const NoSegments: seq<Addr16> := [ZeroAddr, ZeroAddr, ZeroAddr, ZeroAddr, ZeroAddr, ZeroAddr, ZeroAddr, ZeroAddr, ZeroAddr, ZeroAddr]

  /** `struct sid_function_entry`. */
  datatype SidFunctionEntry = SidFunctionEntry(
    action: Byte,
    flavor: Byte,
    srcAddr: Addr16,
    dstAddr: Addr16,
    nexthop: Addr16,
    argSrcOffset: Byte,
    argDstOffset: Byte)

  /** `struct headend_entry`: the first `numSegments` slots of `segments` are
      meaningful. */
  datatype HeadendEntry = HeadendEntry(
    mode: Byte,
    numSegments: Byte,
    srcAddr: Addr16,
    dstAddr: Addr16,
    segments: SegmentArray)

  // `enum srv6_local_action`.
  const ActionUnspecified: Byte := 0
  const ActionEnd: Byte := 1
  const ActionEndX: Byte := 2
  const ActionEndT: Byte := 3
  const ActionEndDx2: Byte := 4
  const ActionEndDx6: Byte := 5
  const ActionEndDx4: Byte := 6
  const ActionEndDt6: Byte := 7
  const ActionEndDt4: Byte := 8
  const ActionEndDt46: Byte := 9
}
