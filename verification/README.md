# socket_vmnet core in Dafny

socket_vmnet is a daemon that bridges QEMU virtual machines to macOS's
vmnet.framework. Each VM connects to a Unix socket and exchanges Ethernet
frames, each preceded by a 4-byte big-endian length. The daemon forwards
every frame a VM sends to the vmnet interface and floods a copy to the
other VMs. It broadcasts every packet the interface delivers to all
connected VMs.

This project models the sequential logic of the daemon:

- `types.dfy` (`Types`): machine integer ranges and `Option`.
- `wire.dfy` (`Wire`): `htonl`/`ntohl` on four bytes, the frame layout, and a decoder that is its partner.
- `registry.dfy` (`Registry`): the linked list of connected sockets, as a sequence of descriptors.
- `batching.dfy` (`Batching`): how a "packets available" estimate is cut into reads of at most 32 packets.
- `vmnet_status.dfy` (`VmnetStatus`): `vmnet_strerror`.
- `broadcast.dfy` (`Broadcast`): the interface-to-peers path. This covers `_on_vmnet_packets_available` and `on_vmnet_packets_available`.
- `connection.dfy` (`Connection`): the peer-to-interface path of `on_accept`. This covers the header and body reads, the forward to the interface, the flood to the other peers, and the cleanup.
- `ipv4.dfy` (`Ipv4`): the default DHCP range end and `inet_ntoa`'s dotted-quad text.
- `cli.dfy` (`Cli`): `cli_options_parse`. This covers option handling, defaults, validation and the positional-argument check.

External calls become parameters ("oracles"):

- `vmnet_read` and `vmnet_write`.
- Each `writev`.
- The registry snapshot taken under the semaphore.
- The bytes a peer has sent and how its stream ends.
- `inet_aton`, `uuid_parse` and `uuid_generate_random`.

The model then states which descriptors receive which framed bytes, in what order, and how each loop ends.

Behaviours of the code worth knowing, all of which the model keeps:

- A failed `writev` while broadcasting a batch abandons the rest of that batch, not only that one peer.
- A zero-length frame ends the connection. The body read asks for 0 bytes and gets 0, which the loop takes for end of file.
- A header larger than the 64 KiB buffer trips an `assert`. This aborts the whole process, so no cleanup runs. The model records this as a terminal `HeaderTooLarge` outcome, and a partial body likewise as `ShortBody`.
- Without `--vmnet-network-identifier`, the identifier stays the null UUID left by `calloc`. It is not random.

## Model

| member | source | states |
|---|---|---|
| Wire.NtohlHtonl | main.c:181-191 | `ntohl` of the 4-byte `htonl` encoding of any 32-bit length gives the length back |
| Wire.HtonlNtohl | main.c:480-491 | every 4-byte header is the `htonl` encoding of the value `ntohl` reads from it |
| Wire.EncodeFrame | main.c:181-191 | an outgoing frame is 4 header bytes then exactly the payload; for a payload under 2^32 bytes the header decodes to its length |
| Wire.DecodeFrame | main.c:480-503 | a header above the 64 KiB buffer is refused; a zero header yields no frame, exactly when the header reads 0; an accepted frame has 1 to 64 KiB of payload and consumes input |
| Wire.DecodeEncode | main.c:480-503 | a non-empty frame that fits the buffer decodes to its payload and leaves the following bytes untouched |
| Wire.EncodeDecode | main.c:480-503 | whatever decodes to a frame is exactly that frame's encoding followed by the rest |
| Wire.OversizedHeaderRefused | main.c:471-492 | any header above 64 KiB is refused before a payload byte is taken |
| Wire.EmptyFrameRefused | main.c:493-501 | the encoding of an empty frame never decodes as a frame, whatever follows it |
| Registry.Add | main.c:91-105 | the new descriptor is appended at the tail; the existing entries and their order are unchanged |
| Registry.Remove | main.c:107-123 | removing an absent descriptor (the empty list included) changes nothing; removing a present one shortens the list by one |
| Registry.RemoveCounts | main.c:107-123 | removal takes away one occurrence of the descriptor, if any, and no other entry |
| Registry.RemoveFirstMatch | main.c:109-120 | removal cuts out exactly the first occurrence and keeps everything else in order |
| Registry.RemoveSocketFd | main.c:107-123 | the head test, then the one-ahead cursor walk, unlinks the first match, or nothing when there is none |
| Registry.AddKeepsDistinct | main.c:91-105 | adding an unregistered descriptor keeps the registry free of duplicates |
| Registry.RemoveKeepsDistinct | main.c:107-123 | removal keeps a duplicate-free registry duplicate-free, and the descriptor is then absent |
| Registry.RemoveUndoesAdd | main.c:470-561 | removing a just-added descriptor that was not registered restores the registry |
| Registry.RemoveTwice | main.c:107-123 | removing a descriptor registered at most once a second time is a no-op |
| Registry.RemoveSparesOthers | main.c:107-123 | every other descriptor keeps its count and its membership |
| Batching.AsInt64 | main.c:288-290 | the `uint64_t` estimate passed as `int64_t` is negative exactly when it is at least 2^63, and is then the value minus 2^64 |
| Batching.CDiv | main.c:219 | C division truncates toward zero: the quotient has the dividend's sign, and quotient times divisor plus the C remainder gives the dividend back |
| Batching.CRem | main.c:220 | the C remainder takes the dividend's sign and lies strictly within one divisor of zero |
| Batching.TruncatedDivisionUnique | main.c:219-220 | C's `/` and `%` are the only quotient and remainder that rebuild the dividend with a remainder of the dividend's sign, smaller than the divisor |
| Batching.BatchesCover | main.c:216-229 | the batches sum to the estimate and there are ceil(n/32) of them; each asks for 1 to 32 packets and all but the last for 32; a count of 0 or below issues none |
| Batching.BatchesAsQuotient | main.c:219-228 | `32q + r` is cut into q batches of 32, then one of r only when r > 0 |
| Batching.SplitEstimate | main.c:217-229 | the handler's q/r loop issues exactly the reference batches: sizes in 1..32, summing to a non-negative estimate, none for a non-positive one |
| VmnetStatus.StrError | main.c:34-57 | exactly the unnamed statuses print "(unknown status)"; every named one prints a `VMNET_` name |
| VmnetStatus.StrErrorIdentifies | main.c:34-57 | the printed name of a named status identifies it |
| VmnetStatus.StrErrorInjective | main.c:34-57 | two named statuses never share a printed name |
| Broadcast.SendAll | main.c:175-200 | a packet's writes follow the registry order and stop at the first failure; the failure flag is set exactly when the last write performed failed |
| Broadcast.Deliver | main.c:162-201 | the writes of a batch are a prefix of the packet-by-connection order; all but the last succeeded; the batch is cut short exactly when the last failed; otherwise every planned write was made |
| Broadcast.AbortedIffSomeWriteFails | main.c:192-199 | a batch is cut short exactly when some planned write fails |
| Broadcast.DeliveredFramesAreEncoded | main.c:172-192 | every write carries the length-prefixed encoding of one received packet to a descriptor of that packet's registry snapshot |
| Broadcast.OnPacketsAvailable | main.c:125-229 | an estimate of 2^63 or more issues no read; otherwise ceil(estim/32) batches of 1..32 packets, all but the last 32. A batch fails exactly when its read fails, and a delivered batch stops at its first failed write |
| Broadcast.RequestsCoverEstimate | main.c:216-229 | the packets asked of the interface over all batches add up to the estimate |
| Connection.Read | main.c:480-502 | a read yields at most the requested bytes, taken from the front of what the peer sent, and leaves the rest in order |
| Connection.PadHeader | main.c:480-481 | a short header read leaves the bytes it did not supply at 0 |
| Connection.Others | main.c:533-535 | the flood recipients are exactly the registry entries other than the sender |
| Connection.Flood | main.c:530-557 | each registry entry other than the sender, in list order, gets one copy of the frame; a failed copy moves on to the next entry |
| Connection.ReadFrame | main.c:480-503 | an accepted frame is exactly the stream's leading bytes: a 4-byte header whose value is the payload length, between 1 and 64 KiB, then that payload, with the rest left pending |
| Connection.ReadFrameOfDecoded | main.c:480-503 | the loop's two reads agree with the frame decoder: a decoded frame is read as that frame, a zero header ends the connection as end of file, an oversized header trips the assertion |
| Connection.DecodedOfReadFrame | main.c:480-503 | every frame the loop reads is the frame the decoder splits off the same bytes, with the same rest |
| Connection.Serve | main.c:477-558 | no copy goes back to the sender; the loop starts with a forward to the interface; a failed forward is the last event and ends the loop |
| Connection.ReadOneFrame | main.c:480-503 | an encoded frame at the front of the stream is read back as that frame |
| Connection.ServeOneFrame | main.c:506-557 | one whole frame is forwarded once, then flooded as it was encoded |
| Connection.ServeFrames | main.c:477-558 | serving a stream of well-formed frames equals relaying those frames one by one (round trip through the loop) |
| Connection.RelayStep | main.c:519-557 | a successfully forwarded frame is the next payload handed to the interface, and its flood adds none |
| Connection.RelayForwardsEach | main.c:506-525 | while the interface accepts every write, each frame reaches it exactly once, in order |
| Connection.RelayStopsAtFailedForward | main.c:519-523 | a failed forward ends the loop: earlier frames were forwarded once, the failing one is attempted once and not flooded |
| Connection.SessionForwardsFrames | main.c:477-502 | a peer sending well-formed frames then closing has every frame forwarded once, in order; the loop ends as the stream ends |
| Connection.ZeroLengthFrameCloses | main.c:493-501 | a zero-length frame ends the connection with nothing forwarded |
| Connection.OversizedHeaderAborts | main.c:491-492 | a header above 64 KiB trips the assertion before any body byte is read |
| Connection.TruncatedFrameEnds | main.c:493-503 | a partial body trips the length assertion; a missing body ends the loop as the stream's end does |
| Connection.ServeEndsQuietly | main.c:480-523 | a loop that ends without a successful forward has sent nothing to any peer |
| Connection.FloodTargets | main.c:530-535 | with a fixed registry, every flooded copy goes to a registered descriptor |
| Connection.OnAccept | main.c:468-566 | every copy goes to a previously registered peer, never the sender. After a normal end the socket is closed and the registry is as before it joined. An assertion abort leaves it registered and unclosed |
| Ipv4.DhcpEndDefault | cli.c:189-191 | the default DHCP end keeps the gateway's upper 24 bits and has low octet 254 |
| Ipv4.Dec | cli.c:193 | decimal text: at least one digit, only digits, no leading zero |
| Ipv4.DecValueDec | cli.c:193 | the decimal text of a number reads back as that number |
| Ipv4.DecInjective | cli.c:193 | different numbers have different decimal texts |
| Ipv4.DhcpEndDefaultText | cli.c:181-199 | the default shares the gateway's first three octets in network order, ends in octet 254, and its text ends in ".254" |
| Cli.ParseMode | cli.c:112-122 | a mode is recognised exactly for "host", "shared" and "bridged" |
| Cli.ParseModeName | cli.c:112-122 | each mode's name parses to that mode |
| Cli.ParseModeOnlyNames | cli.c:112-122 | only a mode's own name parses to it |
| Cli.FirstStop | cli.c:107-170 | finds the first option that ends the loop, with none before it |
| Cli.LastIndex | cli.c:107-170 | finds an occurrence of the option |
| Cli.LastIndexIsLast | cli.c:107-170 | no occurrence follows the one found, and none is found only when there is none |
| Cli.ApplySnoc | cli.c:108-169 | handling one more accepted option updates exactly its own field, as the last occurrence |
| Cli.ScanMatches | cli.c:107-170 | with no stopping option, the loop builds the record of last occurrences |
| Cli.ScanStops | cli.c:107-170 | otherwise the first stopping option decides the loop's outcome |
| Cli.ApplyAgreesWithStops | cli.c:107-169 | an option ends the loop exactly when the reference verdict says it does, and with that verdict (help, version or error) |
| Cli.Finish | cli.c:171-235 | succeeds exactly when there is one positional argument and the cross-field checks hold (see Cli.Acceptable). On success: `socket_path` is the positional; group "staff" and mode shared when absent; with a gateway, mask and DHCP end default as documented; without one, neither is set; bridged has an interface and no gateway; a null interface id is replaced by a random one |
| Cli.ParseStopsAtFirst | cli.c:107-170 | the first of -h, -v, an unknown option, a bad mode or an unparsable UUID decides the result, whatever follows and whatever the positionals |
| Cli.ParseUsesLastValues | cli.c:84-239 | without such an option, the result is the finishing step applied to the last value of each option |
| Cli.ParseOkFinish | cli.c:84-239 | a successful parse met no stopping option and is the finishing step applied to the last option values |
| Cli.InterfaceIdSettingParsed | cli.c:136-141 | without a stopping option, the last `--vmnet-interface-id` parsed and its UUID is the one recorded; absent, the id stays null |
| Cli.ParseOkIff | cli.c:171-234 | parsing succeeds exactly when nothing stops it, there is one positional argument, and the last option values pass validation |
| Cli.ParsedOptions | cli.c:171-204 | a successful parse takes each option from its last occurrence. The socket path is the positional. Group and mode default to "staff" and shared. The mask and DHCP end default only when a gateway is given. Bridged excludes a gateway |
| Cli.NetworkIdentifierChoices | cli.c:145-153 | the network identifier is null when absent or "", the random UUID drawn for "random", and otherwise the UUID the argument parses to |
| Cli.InterfaceIdChoice | cli.c:136-204 | the interface id is the parsed UUID unless that is null or the option is absent, in which case it is the random one |

## Left out

- vmnet.framework and xpc (`vmnet_start_interface`, `vmnet_stop_interface`, the event callback, parameter printing) are foreign APIs. `vmnet_read` and `vmnet_write` appear only as oracles.
- Dispatch queues, semaphores and concurrent connections are left out. Each registry operation is atomic. `Connection.OnAccept` assumes no other connection changes the registry while it runs. `Connection.Serve` takes the per-frame registry snapshot as a parameter.
- Signals, the pidfile, `socket_bindlisten`, `main` and the accept loop are operating-system plumbing.
- malloc/calloc failure paths are not modelled: they only log and bail out.
- Broadcast.Deliver: the unconditional `assert` that each receive buffer's `iov_len` (set to `max_bytes`) exceeds 12 bytes, made before the MAC addresses are copied for logging, is not modelled. The model assumes it holds.
- Broadcast.SendAll: a `writev` is success or failure only. A partial write counts as success, as the code does not check the count.
- Connection.Flood: likewise, the flood's `writev` to another peer is success or failure only, and a partial write counts as success.
- Broadcast.OnPacketsAvailable: the `int i` loop counter is not bounded. It would overflow only for estimates above 2^36. The model also assumes `vmnet_read` never reports more packets than requested.
- Connection.Read: a `read` returns as many bytes as are pending, up to the request. The model does not split a frame that is already pending across several reads. A short body read is therefore one that reached the end of the stream.
- Cli: getopt_long's argv permutation, option abbreviations and error messages are left out. The model starts from the options it returns, in order, and the positionals left over.
- Cli: `inet_aton`, `uuid_parse` and `uuid_generate_random` are parameters. The `inet_ntoa` NULL check is left out because it cannot fail for an IPv4 address.
- Ipv4.DhcpEndDefault: `(h & 0xFFFFFF00) | 0xFE` is stated arithmetically, as rounding down to a multiple of 256 and adding 254. The bit-vector form is not proved equal.
- Cli: the warning printed in shared mode without a gateway, `print_usage` and `print_version` are output only.
- Cli: `--vmnet-nat66-prefix` and `--pidfile` are stored unvalidated, as the code does.
