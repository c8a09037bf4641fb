# Vinbero SRv6 data plane — a Dafny model

Vinbero is an SRv6 (Segment Routing over IPv6) router. Its data plane is an XDP
program, and its control plane is written in Go. This project models the core
of both halves as pure Dafny functions on byte sequences and proves properties
about them.

- **XDP entry point.** `vinbero_main` and `process_srv6`. An IPv6 frame with a
  Segment Routing Header (SRH, RFC 8754, routing type 4) has its destination
  address looked up in the SID-function table, a longest-prefix-match trie. The
  End behaviour of RFC 8986 is then applied by the entry file's own
  `process_end`.
- **Endpoint behaviours.** End, End.X, End.T, End.DX4 and End.DX6 from the
  endpoint header. The End.DT4, End.DT6 and End.DT46 stubs are included too.
  The shared steps are modelled separately:
  - endpoint initialisation, i.e. the Segments Left / first_segment checks;
  - the destination-address update;
  - the FIB redirect.
- **H.Encaps.** `do_h_encaps_core`:
  - grows the frame head by an outer IPv6 header plus an SRH;
  - writes those headers and the segment list in reverse (wire) order;
  - restores the Ethernet header with EtherType IPv6;
  - forwards through the FIB.
- **SRv6 decapsulation.** `srv6_decap` and the strip length
  `calc_decap_strip_len`.
- **FIB helper.** `srv6_fib_lookup_and_update` and `srv6_fib_redirect`.
- **Headend guard and segment copies.** `headend_should_encaps`, plus the
  segment-copy helpers `copy_segments_to_srh` and `copy_segment_by_index`.
- **VLAN parsing.** `parse_eth_vlan`, `get_l3_header` and `get_vlan_id`.
- **Go SRH codec.** `Srv6Layer.DecodeFromBytes` and `SerializeTo`.
- **Go table layer.** The map operations: prefix parsing, LPM key
  construction, Create, Delete, Get and List on the three tables, and segment
  list parsing and formatting.

Frames are `seq<Byte>`. The XDP context `XdpMd` holds three things:
- the headroom in front of the frame (`head`);
- the frame (`data`);
- the ingress interface.

`bpf_xdp_adjust_head` moves bytes between `head` and `data`. It fails when the
headroom is too small, or when the frame would become shorter than an Ethernet
header. Code outside the model becomes a parameter:
- **Kernel FIB lookup:** an oracle from query to reply.
- **`srv6_fib_redirect_v4`:** called at src/srv6_endpoint.h:223 but not
  defined in any header modelled here, so an oracle.
- **Go `net` parsing and printing:** oracles bundled as `GoNet`.
- **`CHECK_BOUND` verdict:** the macro guards src/srv6_encaps.h:52-61 and
  src/xdp_prog.c:133-198 but is not defined in any file modelled here, so its
  verdict is the `boundFail` parameter.
- **`SRV6_HEADEND_BEHAVIOR_H_ENCAPS`:** compared against at
  src/srv6_headend.h:19 but not defined in any file modelled here, so a
  parameter.

The LPM tables are modelled in `Lpm` as the kernel's trie treats them. A key is
a prefix length and an address, and the kernel compares a key only on its first
prefix-length bits, in updates, deletions and lookups alike. So two keys of one
length that agree on those bits name one element. The table (`Lpm.Trie`) is
therefore indexed by the masked prefix a key denotes. Beside each entry it keeps
the address octets of the key last written for it, which is what an iteration
returns. Keys with bits set past their length are handled like any others; the
control plane builds such keys, e.g. an IPv4 network given to an IPv6 table. A
lookup returns the stored prefix of greatest length that covers the address.
`Lpm.LookupIsLongestMatch` proves the executable lookup correct against that
specification on every table.

Three points where the model follows the code rather than the documentation:
- **Which `process_end` the dispatcher uses.** `process_srv6` calls the
  `process_end` defined in `src/xdp_prog.c`, not the one in the endpoint header.
  The older one checks the new Segments Left only against first_segment and the
  frame end. It has no cap of ten segments.
  - `Dispatcher.ProcessEndVersionsAgree` shows the two agree whenever
    first_segment is at most 9.
  - `Dispatcher.ProcessEndVersionsDiffer` gives an input where they differ.
- **How Get looks up.** The Go `Get*` operations look up through the LPM trie.
  So a Get on a prefix can return the entry of a shorter covering prefix: it is
  not an exact-key read. `Maps.GetAfterDelete` states exactly what remains
  visible after a Delete. A key longer than the table's width, such as an
  IPv4-mapped /104 given to an IPv4 table, is refused by the kernel's trie
  lookup, so Get reports it not found.
- **A short SRH in the Go decoder.** `DecodeFromBytes` checks only for the
  8-octet fixed part. An input that announces more segments than it holds is
  not reported as truncated: the segment loop indexes past the end, a Go
  runtime panic. `SrhCodec.DecodeFromBytes` returns that as the
  `IndexOutOfRange` outcome. The serializer's `PutUint64` past its buffer and
  `FormatSegments` with more than ten segments are panics modelled the same
  way.

## Model

| member | source | states |
|---|---|---|
| Bytes.ToU16 | src/xdp_vlan.h:53-55 | the 16-bit counter value is the input modulo 2^16, and equals it when in range |
| Bytes.BE16Injective | src/srv6_encaps.h:100-101 | the big-endian encoding of a 16-bit value determines the value |
| Bytes.Splice | src/srv6_encaps.h:91-101 | a memcpy into a frame: the written window holds the bytes, the rest of the frame is unchanged, the length is kept |
| Bytes.SpliceAdjacent | src/srv6_headend_utils.h:24-32 | two adjacent copies equal one copy of the concatenation |
| Bytes.SpliceCommute | src/srv6_encaps.h:64-101 | copies into disjoint windows commute |
| Bytes.Flatten | src/srv6_headend_utils.h:24-32 | a segment list laid out as consecutive 16-octet slots |
| Xdp.AdjustHead | src/srv6_encaps.h:36-44 | head adjustment succeeds exactly within the headroom and the minimum frame; it preserves headroom plus frame and the ingress interface |
| Xdp.AdjustHeadGrow | src/srv6_encaps.h:36-44 | growing the head by len succeeds when the headroom allows, and the old frame follows the new len octets |
| Xdp.AdjustHeadInverse | src/srv6_decaps.h:66-76 | shrinking undoes growing and growing undoes shrinking |
| SrhCodec.SegmentCount | pkg/packet/srv6.go:49-50 | the Go decoder reads LastEntry+1 segments, computed in 8 bits, so LastEntry 255 gives none |
| SrhCodec.SegmentsAt | pkg/packet/srv6.go:49-58 | segment j is the 16 octets at 8+16j |
| SrhCodec.DecodeFromBytes | pkg/packet/srv6.go:36-64 | below 8 octets a truncation error with the receiver untouched; otherwise every fixed field from octets 0-7 and the announced segments appended; an input cut short inside the segments panics (index out of range) exactly then, after the whole segments before the cut, with Contents and Payload unset; otherwise Contents is the fixed part and Payload the rest |
| SrhCodec.SerializeTo | pkg/packet/srv6.go:66-88 | panics exactly when the segments need more than 8·HdrExtLen octets; otherwise 8+8·HdrExtLen octets with each field and segment at its offset, the octets past the segments keeping what the prepended buffer held |
| SrhCodec.RoundTrip | pkg/packet/srv6.go:36-88 | with the builder lengths, serializing never panics and decoding the result (whatever the buffer held and whatever follows) gives back the layer, with Contents and Payload set from the bytes |
| SrhCodec.LastEntryWrapsToNoSegments | pkg/packet/srv6.go:49-50 | a LastEntry of 255 decodes to an empty segment list |
| HeadendUtils.WireOrder | src/srv6_headend_utils.h:8-9 | the SRH stores the segment list reversed |
| HeadendUtils.WireOrderIsReversed | src/srv6_headend_utils.h:24-32 | the wire list is the configured list reversed, against an independent element-by-element reversal |
| HeadendUtils.CopyFrom | src/srv6_headend_utils.h:24-32 | the copy loop from slot i succeeds exactly when every remaining slot fits, and keeps the frame length |
| HeadendUtils.CopyFromWrites | src/srv6_headend_utils.h:24-32 | the copy loop writes exactly the slots that fit before the first one that does not, as a prefix of the wire image |
| HeadendUtils.CopySegmentsToSrh | src/srv6_headend_utils.h:11-34 | fails unchanged for a bad count; succeeds exactly when all n slots fit, writing the reversed list; on overflow the fitting prefix is already written |
| HeadendUtils.CopySegmentsWrites | src/srv6_headend_utils.h:24-34 | the loop from slot 0 writes the whole wire image on success and its fitting prefix on failure |
| HeadendUtils.CopySegmentByIndex | src/srv6_headend_utils.h:39-56 | fails without writing for an index of ten or more or a slot past the frame end; otherwise only the 16 destination octets change, to segment index |
| Srv6Fib.Ipv6Query | src/srv6_fib.h:25-30 | the FIB query carries family IPv6, the ingress interface and the frame's source and destination addresses |
| Srv6Fib.RewriteMacs | src/srv6_fib.h:35-39 | only the two MAC addresses change, to the FIB reply's |
| Srv6Fib.LookupAndUpdate | src/srv6_fib.h:19-50 | success rewrites the MACs and yields the reply's interface; blackhole, unreachable and prohibit are drops; everything else passes with the frame unchanged |
| Srv6Fib.FibRedirectV6 | src/srv6_fib.h:53-69 | the verdict is a redirect to the FIB's interface, a drop, or a pass, exactly per the FIB reply code |
| Srv6Fib.FibRedirectKeepsPacket | src/srv6_fib.h:35-39 | forwarding keeps the frame length and everything from the EtherType on |
| Decaps.CalcDecapStripLen | src/srv6_decaps.h:13-18 | the strip length covers the Ethernet, IPv6 and SRH fixed headers plus a multiple of 8 octets |
| Decaps.StripLenMatchesEncodedSrh | src/srv6_decaps.h:13-26 | the strip length is Ethernet plus IPv6 plus the length the SRH codec gives for the same Hdr Ext Len |
| Decaps.Srv6Decap | src/srv6_decaps.h:40-93 | succeeds exactly when the frame has an Ethernet header, the SRH next header is the expected one and the strip fits; the result is the saved Ethernet header followed by the frame after the stripped headers |
| Decaps.DecapKeepsEthernet | src/srv6_decaps.h:59-90 | after decapsulation the Ethernet header is the original one and the rest is what followed the stripped headers |
| Encaps.OuterIpv6Header | src/srv6_encaps.h:64-80 | the outer header is 40 octets |
| Encaps.SrhFixedPart | src/srv6_encaps.h:83-89 | the SRH fixed part is 8 octets with Hdr Ext Len 2n |
| Encaps.EncapsFrame | src/srv6_encaps.h:26-130 | the intended H.Encaps frame is longer than the inner packet by Ethernet, IPv6 and an SRH of n segments |
| Encaps.HeaderWrites | src/srv6_encaps.h:64-101 | the five header writes of the encapsulation compose into one concatenation of headers in front of the untouched rest |
| Encaps.WriteEncapsHeaders | src/srv6_encaps.h:64-101 | the writes succeed exactly for 1 to 10 segments, and then the grown frame is the intended encapsulated frame |
| Encaps.DoHEncapsCore | src/srv6_encaps.h:26-44 | a failing head adjustment drops the packet unchanged; otherwise the frame grows by exactly the outer headers and the ingress interface is kept |
| Encaps.DoHEncapsFails | src/srv6_encaps.h:46-61 | a frame shorter than Ethernet takes the bound-check verdict, and a segment count outside 1..10 is dropped |
| Encaps.DoHEncapsForwards | src/srv6_encaps.h:26-130 | on success the verdict and frame are the FIB's on the intended encapsulated frame built from the original inner packet |
| Encaps.EncapsGrown | src/srv6_encaps.h:46-130 | after growing, a short frame takes the bound-check verdict, a bad count drops, and otherwise the FIB sees the encapsulated frame |
| Encaps.FibOnWrittenHeaders | src/srv6_encaps.h:91-129 | forwarding the written frame is forwarding the intended encapsulated frame |
| Encaps.CoreIsGrown | src/srv6_encaps.h:36-44 | once the head adjustment succeeds, H.Encaps is exactly the post-growth step on the adjusted frame; nothing else depends on the old frame |
| Encaps.GrowKeepsTail | src/srv6_encaps.h:36-44 | after growing the head, the frame behind the new headers is the old frame after its Ethernet header |
| Encaps.EncapsLayout | src/srv6_encaps.h:26-130 | a successful encapsulation yields the intended frame, up to the MACs the FIB may rewrite |
| Encaps.FrameFields | src/srv6_encaps.h:64-101 | the encapsulated frame has EtherType IPv6, version 6, payload length, next header 43, hop limit 64, the configured source, first segment as destination, the SRH and then the inner packet |
| Encaps.OuterHeaderFields | src/srv6_encaps.h:64-80 | the outer header's octets hold version 6, payload length SRH plus inner length modulo 2^16, routing next header, hop limit 64, source and first segment |
| Encaps.EncapsHeaderFields | src/srv6_encaps.h:26-130 | the frame H.Encaps produces carries those outer fields and ends with the original inner packet |
| Encaps.SrhDecodes | src/srv6_encaps.h:83-97 | the written SRH decodes with the Go codec to next header, Hdr Ext Len 2n, type 4, Segments Left and Last Entry n-1, and the wire-order segments |
| Encaps.EncapsSrhDecodes | src/srv6_encaps.h:26-130 | the SRH of an encapsulated frame decodes to the reversed configured list, and its active segment is the outer destination |
| Encaps.FrameSrhDecodes | src/srv6_encaps.h:83-97 | the same for any frame that agrees with the intended frame from the EtherType on |
| Encaps.ActiveSegmentIsDestination | src/srv6_encaps.h:76-97 | the segment Segments Left points to is the outer destination address |
| Encaps.DecapUndoesEncaps | src/srv6_decaps.h:20-26 | decapsulating the frame H.Encaps produced gives the Ethernet header followed by the original inner packet |
| Encaps.DecapStripsEncapsHeaders | src/srv6_decaps.h:13-93 | decapsulation strips exactly the outer IPv6 header and the SRH written by the encapsulation |
| Encaps.EndDx6DeliversInner | src/srv6_endpoint.h:233-282 | End.DX6 on a one-segment encapsulation of an IPv6 packet forwards the original Ethernet header and inner packet, never passing |
| Encaps.EndDx4DeliversInner | src/srv6_endpoint.h:179-229 | End.DX4 on a one-segment encapsulation of an IPv4 packet hands the IPv4 oracle the inner packet behind an Ethernet header with EtherType IPv4, never passing |
| Endpoint.EndpointInit | src/srv6_endpoint.h:33-61 | Segments Left 0 passes up; the endpoint proceeds exactly when the new Segments Left is within first_segment and below 10 |
| Endpoint.EndpointUpdateDa | src/srv6_endpoint.h:65-73 | the update succeeds exactly when the segment is below 10 and inside the frame; it changes only the destination address, to that segment, and Segments Left |
| Endpoint.EndpointFibRedirect | src/srv6_endpoint.h:76-97 | the endpoint's verdict and frame are the shared FIB helper's |
| Endpoint.AdvanceSegment | src/srv6_endpoint.h:105-130 | the shared End step passes at Segments Left 0, drops on every failed check, and otherwise advances to the next segment |
| Endpoint.ProcessEnd | src/srv6_endpoint.h:105-130 | End advances the segment and forwards by the FIB; a stop keeps the frame |
| Endpoint.ProcessEndX | src/srv6_endpoint.h:134-153 | End.X advances the segment and passes the rewritten frame |
| Endpoint.ProcessEndT | src/srv6_endpoint.h:157-175 | End.T behaves exactly as End.X |
| Endpoint.EndVariantsAgree | src/srv6_endpoint.h:105-153 | End and End.X rewrite the same headers; they differ only in End's FIB step |
| Endpoint.ProcessEndDtStub | src/srv6_endpoint.h:286-321 | the table-lookup behaviours pass every packet unchanged |
| Endpoint.NoPassAfterDecap | src/srv6_endpoint.h:219-228 | a pass after decapsulation becomes a drop; other verdicts are kept |
| Endpoint.ProcessEndDx4 | src/srv6_endpoint.h:179-229 | End.DX4 passes when segments remain; at the last segment it never passes, drops on a wrong next header, failed decapsulation or short IPv4 header, and otherwise sets EtherType IPv4 and forwards |
| Endpoint.ProcessEndDx6 | src/srv6_endpoint.h:233-282 | End.DX6 passes when segments remain; at the last segment it never passes, drops on a wrong next header, failed decapsulation or short IPv6 header, and otherwise forwards the inner packet |
| Headend.HeadendShouldEncaps | src/srv6_headend.h:12-20 | only a present entry in H.Encaps mode is encapsulated |
| Headend.GuardDependsOnlyOnMode | src/srv6_headend.h:12-20 | the guard depends on the mode alone |
| Vlan.WellTaggedUnique | src/xdp_vlan.h:25-61 | a frame has at most one tag count |
| Vlan.TruncatedTagHasNoCount | src/xdp_vlan.h:48-51 | a tag header cut short leaves no valid parse |
| Vlan.ParseEthVlan | src/xdp_vlan.h:25-61 | parsing succeeds exactly when the frame is well tagged; then protocol, depth and L3 offset are those of its tag count; the depth counter is bumped even on failure |
| Vlan.GetL3Header | src/xdp_vlan.h:64-67 | the L3 header is the frame after the L3 offset |
| Vlan.L3HeaderFollowsTags | src/xdp_vlan.h:25-67 | after a parse the L3 header starts behind the last tag, whose protocol field is the stored EtherType |
| Vlan.GetVlanId | src/xdp_vlan.h:70-82 | the VLAN ID is 0 without tags and otherwise the low 12 bits of the first TCI |
| Vlan.VlanIdOfFirstTag | src/xdp_vlan.h:70-82 | for a tagged frame the ID is the first tag's TCI modulo 4096 |
| Lpm.ClearLowIdempotent | src/xdp_map.h:11-20 | clearing low bits twice is clearing once |
| Lpm.MaskIdempotent | src/xdp_map.h:11-20 | masking to a prefix is idempotent |
| Lpm.PrefixKey | src/xdp_map.h:11-20 | the prefix of an address is a canonical key covering it |
| Lpm.StoredKey | src/xdp_map.h:11-20 | the key as written has the element's length, and masking it gives the prefix the element is indexed under |
| Lpm.StoredKeyCovers | src/xdp_map.h:11-20 | a stored key covers an address exactly when its masked prefix does: the octets past its length play no part |
| Lpm.HoldsIffPrefixAgrees | src/xdp_map.h:11-20 | the trie holds a key exactly when a stored key of the same length agrees with it on the prefix bits, as the kernel compares keys |
| Lpm.Update | src/xdp_map.h:11-20 | a write leaves the written key's octets and entry in the element it names and keeps every other element |
| Lpm.UpdateSameElement | src/xdp_map.h:11-20 | two writes with keys that agree on their prefix bits leave only the second |
| Lpm.CoveringKeyIsPrefix | src/xdp_map.h:11-20 | the only masked key of a given length that covers an address is that address's own prefix |
| Lpm.LookupFrom | src/xdp_prog.c:142-151 | a found key is stored, covers the address and is no longer than the search start |
| Lpm.Lookup | src/xdp_prog.c:142-151 | the SID lookup of a destination returns only a stored prefix that covers it; the longest one by `Lpm.LookupIsLongestMatch` |
| Lpm.LookupFromFinds | src/xdp_prog.c:142-151 | every stored prefix no longer than the start is reached |
| Lpm.LookupFromCorrect | src/xdp_prog.c:142-151 | the search from a length down returns the longest stored covering prefix no longer than that length, and nothing exactly when there is none |
| Lpm.LookupIsLongestMatch | src/xdp_prog.c:142-151 | the lookup returns the longest match, and nothing exactly when no stored prefix covers the address |
| Lpm.FullLengthCoversOnlyItself | src/xdp_prog.c:142-146 | a /128 key covers exactly its own address |
| Dispatcher.SidLookup | src/xdp_prog.c:142-151 | the SID lookup answers with the table entry of the longest covering prefix |
| Dispatcher.LegacyUpdateDa | src/xdp_prog.c:24-117 | the older End rewrites only the destination address, to segment newSl, and Segments Left |
| Dispatcher.LegacyProcessEnd | src/xdp_prog.c:24-117 | the older End passes at Segments Left 0, drops past first_segment or the frame end, and otherwise forwards the rewritten frame per the FIB |
| Dispatcher.ProcessSrv6 | src/xdp_prog.c:120-179 | no routing header, a non-SRH type, no SID entry or a non-End action passes unchanged; a short SRH takes the bound verdict; End entries run End |
| Dispatcher.VinberoMain | src/xdp_prog.c:181-202 | a short frame takes the bound verdict, non-IPv6 passes, IPv6 goes to the SRv6 classifier |
| Dispatcher.MainOnlyRewritesForEnd | src/xdp_prog.c:120-202 | the frame is only changed for an IPv6 SRH packet whose destination is covered by an End SID, and then its length is kept |
| Dispatcher.NoCoveringPrefixPasses | src/xdp_prog.c:142-151 | a destination no stored key covers (whatever octets the keys carry past their lengths) is passed or bound-failed, never changed |
| Dispatcher.UpdateDaVersionsAgree | src/srv6_endpoint.h:65-73 | the two destination-address updates write the same frame |
| Dispatcher.ProcessEndVersionsAgree | src/xdp_prog.c:24-117 | the older and newer End agree whenever first_segment is at most 9 |
| Dispatcher.AdvancedVersionsAgree | src/xdp_prog.c:24-117 | they agree on the advancing path |
| Dispatcher.ProcessEndVersionsDiffer | src/xdp_prog.c:24-117 | with first_segment 10 and Segments Left 11 the newer End drops while the older rewrites to segment 10 |
| Maps.To4 | pkg/bpf/maps.go:266-281 | an IPv4 address is its 4-octet form, present exactly for a 4-octet or IPv4-mapped 16-octet address, as its last four octets |
| Maps.To16 | pkg/bpf/maps.go:283-300 | the 16-octet form is present exactly for a 4- or 16-octet address, ends with the address, and widens an IPv4 address behind the mapped prefix |
| Maps.To4To16RoundTrip | pkg/bpf/maps.go:266-300 | IPv4 and IPv4-mapped IPv6 forms convert into each other |
| Maps.ParseCIDR | pkg/bpf/maps.go:43-58 | a CIDR parses to its address and length; a bare address becomes a /32 or /128 host route; anything else is an invalid-CIDR error |
| Maps.BareAddressIsHostRoute | pkg/bpf/maps.go:45-54 | a bare IPv6 address gets a full-length prefix |
| Maps.ParseIPv6 | pkg/bpf/maps.go:61-76 | the empty string is the zero address; otherwise success exactly for a parseable address, with its 16-octet form |
| Maps.BuildLpmKey | pkg/bpf/maps.go:266-300 | the key is the parsed prefix length and the 4- or 16-octet address, failing when the address has no such form |
| Maps.V6KeyWidensIpv4 | pkg/bpf/maps.go:284-300 | an IPv4 CIDR in an IPv6 table becomes an IPv4-mapped key with its short prefix length |
| Maps.Put | src/xdp_map.h:11-42 | an update refuses an over-long prefix and, for a key naming no stored element, a full table; otherwise the element the key names (by its prefix bits) now holds the key and the entry, and every other element is kept |
| Maps.PutSamePrefixReplaces | src/xdp_map.h:11-42 | a second Put with a key agreeing on the prefix bits replaces the first, e.g. two IPv4 networks widened into an IPv6 table |
| Maps.Create | pkg/bpf/maps.go:81-91 | Create puts the entry under the built key, failing if the key cannot be built |
| Maps.Delete | pkg/bpf/maps.go:94-104 | Delete succeeds exactly when the built key has a valid length and names a stored element (by its prefix bits), and removes only that element |
| Maps.Get | pkg/bpf/maps.go:107-118 | a key longer than the table width is not found; otherwise Get succeeds exactly when a stored prefix no longer than the key's covers its address, and then answers with the entry of the longest such prefix |
| Maps.DecimalString | pkg/bpf/maps.go:304-310 | `%d` prints digits only, without a leading zero, whose decimal value is the number |
| Maps.KeyString | pkg/bpf/maps.go:302-310 | a key prints as the address text, a slash, and digits whose decimal value is the prefix length |
| Maps.List | pkg/bpf/maps.go:121-138 | List has one pair per stored element, under the text of its key as written, and nothing else |
| Maps.GetAfterCreate | pkg/bpf/xdp_test.go:589-634 | after Create of any prefix text, Get of the same text returns the new entry |
| Maps.ListAfterCreate | pkg/bpf/maps.go:121-138 | the created entry is listed, alone in a table that was empty |
| Maps.GetAfterDelete | pkg/bpf/maps.go:94-118 | after Delete, Get fails exactly when no shorter covering prefix remains, and otherwise returns such an entry |
| Maps.GetAfterDeleteAlone | pkg/bpf/maps.go:94-118 | with no shorter covering prefix stored, Get after Delete fails |
| Maps.FirstInvalid | pkg/bpf/maps.go:320-326 | the first segment that does not parse |
| Maps.ParseSegments | pkg/bpf/maps.go:313-329 | more than 10 segments fail with count 0; success exactly when all parse, with the slots filled in order and the rest zero; on failure the slots before the bad one are filled |
| Maps.FormatSegments | pkg/bpf/maps.go:338-344 | one string per configured segment, in order; a count above 10 panics (index out of range) |
| Maps.FormatAfterParse | pkg/bpf/maps.go:313-344 | formatting parsed canonical segment text does not panic and gives back the text |
| Maps.ParseAfterFormat | pkg/bpf/maps.go:313-344 | formatting at most 10 segments does not panic, and parsing the texts gives back the count and the slots |

## Left out

- **I/O and attachment.** Loading the XDP program, attaching it, and the
  `bpf()` system calls behind the Go map operations. The tables are Dafny maps.
- **Observability.** Statistics counters, `xdpcap` hooks and debug printing.
  They do not affect verdicts.
- **Concurrency.** Between the control plane and the data plane. Every
  operation acts on one table value.
- **Kernel FIB.** The lookup itself and its MAC/interface reply. It is an
  oracle whose reply code is an integer.
- **IPv4 forwarding.** `srv6_fib_redirect_v4` is not part of this model. It is
  an oracle, and End.DX4 is proved relative to it.
- **Go `net` package.** The text formats `net.ParseCIDR`, `net.ParseIP` and
  `IP.String` accept or produce. They are oracles, and the round trips assume
  canonical text.
- **Serialization flags.** `SerializeTo` does not model the gopacket
  `SerializeOptions` flags. The length is fixed by HdrExtLen.
- **Reserved behaviours.** End.B6, End.BM, End.S, End.AS, End.AM and End.BPF
  are only reserved action codes. The dispatcher passes them like every other
  action except End.
- **Headend tables.** The dispatcher does not consult them. H.Encaps is modelled
  as `do_h_encaps_core`, and the headend guard is separate.
- **Maps.Get:** a kernel LPM lookup is modelled as a search over prefix lengths
  from the key's own length down, not as the trie data structure. Its contract
  states the result against `Lpm.IsLongestMatchUpTo`.
- **Encaps.DoHEncapsCore:** its own ensures state only what a failed head
  adjustment does, and the sizes on success. The bound-check, bad-count and
  forwarding outcomes are stated by `Encaps.DoHEncapsFails` and
  `Encaps.DoHEncapsForwards`.
- **Vlan.GetL3Header:** requires the L3 offset to be inside the frame. The C
  pointer arithmetic can point past the end, but every caller checks bounds
  before reading.
- **SrhCodec.SerializeTo:** on a panic the octets written before it are not
  modelled, only that the call panics; the panic ends the serialization.
- **SrhCodec.SerializeTo:** segments are modelled as 16-octet addresses. A Go
  `netip.Addr` can also be an IPv4 or the zero address, whose 4- or 0-octet
  slice makes the segment copy panic; that panic is not represented. The
  control plane builds segments from 16-octet forms.
- **Time and randomness:** not used by the core.
