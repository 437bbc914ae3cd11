# cidr — a Dafny model of the subnet calculator's core

`cidr` is a command-line tool, written in Go, that shows facts about a CIDR
block and checks whether an address lies inside any of a list of blocks. For a
block, the facts are:

- the network and broadcast addresses;
- the first and last usable addresses;
- the total and usable host counts.

The list of blocks comes from the command-line argument and from a `~/.cidr`
config file. All of the logic is in `cmd/root.go`. This project models that
logic and proves what it computes.

- `bytes.dfy` (module `Bytes`): fixed-width big-endian byte arithmetic.
  - `Value` reads an address as a natural number.
  - `Succ` and `Pred` specify the carry and borrow loops. They are proved to be
    +1 and −1 modulo 2^(8·width).
- `ip.dfy` (module `IP`): the parts of Go's `net` package that the helpers rely
  on.
  - `To4`, `To16` and `View`: the 4-byte and 16-byte forms of an address.
  - `MaskSize`: `Mask.Size`.
  - `Network`: the networks `ParseCIDR` returns. The address is 4 or 16 bytes,
    the mask is a prefix mask of the same length, and the host bits are clear.
- `subnet.dfy` (module `Subnet`): the five helpers.
  - `getBroadcastIP`, `getFirstUsableIP` and `getLastUsableIP` are methods over
    arrays with the source's loops, including the early `break`. Each is proved
    equal to a specification function.
  - `getTotalHosts` and `getUsableHosts` are functions. They use Go's `uint64`
    shift semantics.
  - Lemmas give the arithmetic meaning: broadcast = network + 2^h − 1, the
    usable range, the /31, /32 and wide-IPv6 cases, and counting.
- `config.dfy` (module `Config`): the line filter of `loadConfigCIDRs`.
  - It models `strings.Split` on `"\n"`, `strings.TrimSpace` over Go's
    `unicode.IsSpace` set, and the skipping of blank and `#` lines.
  - The loop is proved against `FilterConfig`. Soundness, completeness and order
    are proved about that function.
- `cli.dfy` (module `Cli`): two routines.
  - The membership scan of `checkIPInCIDRs`.
  - The assembly of the CIDR list in `runCIDR`.
  - `net.ParseIP`, `net.ParseCIDR` and `IPNet.Contains` are function-valued
    parameters.
- `findings.dfy` (module `Findings`): two places where the helpers do not
  compute what their labels promise. Each has the intended definition with its
  property proved. See "Findings" below.

## Model

| member | source | states |
|---|---|---|
| Bytes.SuccValue | cmd/root.go:257-263 | incrementing with carry adds one to the big-endian value, modulo 2^(8·width) (all-0xFF wraps to zero) |
| Bytes.SuccShape | cmd/root.go:258-263 | the carry stops at the last byte that is not 0xFF: bytes before it are unchanged, it gains one, bytes after it become 0 |
| Bytes.SuccNoWrap | cmd/root.go:257-263 | away from the top of the address space the increment adds exactly one |
| Bytes.PredValue | cmd/root.go:280-286 | decrementing with borrow subtracts one from the big-endian value, modulo 2^(8·width) (all-zero wraps to all-0xFF) |
| Bytes.PredShape | cmd/root.go:281-286 | the borrow stops at the last non-zero byte: bytes before it are unchanged, it loses one, bytes after it become 0xFF |
| Bytes.PredNoWrap | cmd/root.go:280-286 | above zero the decrement subtracts exactly one |
| IP.View | cmd/root.go:234-237 | the bytes getBroadcastIP works on: exactly the 4 bytes `To4` returns when the address has a 4-byte form, otherwise `To16` of the address (the address itself for 16 bytes) |
| IP.MaskSizeOfPrefixMask | cmd/root.go:292 | Mask.Size of the mask with p leading ones over n bytes is (p, 8·n) |
| IP.ZeroNetwork | cmd/root.go:233-244 | an all-zero address under any prefix mask is a network ParseCIDR can return, of that prefix length |
| Subnet.OrNotAt | cmd/root.go:240-242 | byte i of the broadcast computation is `ip[i] \| ^mask[i]` |
| Subnet.FillBroadcast | cmd/root.go:239-243 | the loop fills a fresh slice of the address's length with `ip[i] \| ^mask[i]` byte by byte |
| Subnet.GetBroadcastIP | cmd/root.go:233-244 | getBroadcastIP returns `Broadcast(n)`: the 4-byte (else 16-byte) form of the address with every bit outside the mask set |
| Subnet.OrNotValue | cmd/root.go:240-242 | setting the bits outside a mask of p leading ones adds 2^h − 1 to an address whose host bits are clear, and such an address is a multiple of 2^h (h = 8·width − p) |
| Subnet.BroadcastValue | cmd/root.go:233-244 | the network address is a multiple of 2^h and the broadcast address is the network address plus 2^h − 1 |
| Subnet.BroadcastSameBlock | cmd/root.go:233-244 | broadcast and network address share the prefix (same quotient by 2^h) and the broadcast has all h host bits set |
| Subnet.Increment | cmd/root.go:257-263 | the in-place carry loop with early break leaves `Succ` of the old bytes in the array |
| Subnet.Decrement | cmd/root.go:280-286 | the in-place borrow loop with early break leaves `Pred` of the old bytes in the array |
| Subnet.GetFirstUsableIP | cmd/root.go:246-266 | an address with no 4-byte form is returned unchanged; otherwise the 4-byte form plus one modulo 2^32 |
| Subnet.LastFromBroadcast | cmd/root.go:271-288 | a broadcast with no 4-byte form is returned as is; otherwise a same-length copy holding the broadcast value minus one, modulo 2^(8·width) |
| Subnet.GetLastUsableIP | cmd/root.go:268-289 | getLastUsableIP returns `LastUsable(n)`: the broadcast address, minus one when the broadcast has a 4-byte form |
| Subnet.ShiftOne64 | cmd/root.go:293 | Go's `uint64(1) << s` is 2^s modulo 2^64: a power of two below 64 and zero from 64 on |
| Subnet.TotalHosts | cmd/root.go:291-294 | getTotalHosts is 2^(bits − ones) modulo 2^64, and fits a uint64 |
| Subnet.TotalHostsExact | cmd/root.go:291-294 | with fewer than 64 host bits, getTotalHosts is exactly 2^h |
| Subnet.TotalHostsCountsRange | cmd/root.go:291-294 | with fewer than 64 host bits, getTotalHosts counts every address from the network to the broadcast address inclusive |
| Subnet.UsableHosts | cmd/root.go:296-302 | getUsableHosts is at most the total, is 0 when the total is at most 2, and is the total minus 2 otherwise |
| Subnet.IPv4UsableRange | cmd/root.go:246-302 | for an IPv4 prefix of at most /30: first = network + 1, last = broadcast − 1, last − first + 1 = usable hosts = total − 2 |
| Subnet.IPv4PointToPoint | cmd/root.go:246-302 | for a /31 there is no special case: total 2, usable 0, the "first usable" is the broadcast address and the "last usable" the network address |
| Subnet.IPv4SingleHost | cmd/root.go:246-302 | for a /32 there is no special case: total 1, usable 0, broadcast = network, first = network + 1 and last = network − 1 (both modulo 2^32) |
| Subnet.IPv6WideHostCounts | cmd/root.go:291-302 | an IPv6 prefix of /64 or shorter gives total hosts 0 and usable hosts 0, because the uint64 shift overflows |
| Config.Split | cmd/root.go:217 | strings.Split on "\n" gives at least one piece, and no piece contains a newline |
| Config.JoinSplit | cmd/root.go:217 | joining the pieces with "\n" gives the file contents back |
| Config.SplitJoin | cmd/root.go:217 | splitting the join of newline-free lines gives those lines back |
| Config.TrimSpace | cmd/root.go:220 | the trimmed line is no longer than the line and neither starts nor ends with white space |
| Config.TrimSpaceSlice | cmd/root.go:220 | the trimmed line is a slice of the line with only white space before and after it |
| Config.TrimSpaceIdempotent | cmd/root.go:220 | trimming a trimmed line changes nothing |
| Config.Keep | cmd/root.go:220-225 | a line contributes its trimmed form exactly when that is non-empty and does not start with `#`, and nothing otherwise |
| Config.FilterLines | cmd/root.go:218-226 | the loop returns `FilterConfig(lines)` |
| Config.ParseConfig | cmd/root.go:217-226 | the split and the loop return `FilterConfig(Split(data))` |
| Config.FilterConcat | cmd/root.go:219-226 | the filter works line by line: filtering two blocks of lines concatenates their results |
| Config.FilterSound | cmd/root.go:219-226 | every returned CIDR is non-empty, does not start with `#`, and is the trimmed form of some input line |
| Config.FilterComplete | cmd/root.go:219-226 | every line whose trimmed form is non-empty and not a comment is returned |
| Config.FilterNone | cmd/root.go:219-226 | a file of blank and comment lines gives no CIDR |
| Config.FilterOrder | cmd/root.go:219-226 | kept lines keep their input order: entries before a kept line, that line, then the entries after it |
| Cli.CheckIPInCIDRs | cmd/root.go:165-198 | an unparseable address is an error and nothing else. Otherwise every CIDR gets a verdict in order: invalid (skipped), in range, or not in range. `found` holds exactly when some CIDR parses and contains the address, which is when some verdict is "in range" |
| Cli.AssembleCIDRs | cmd/root.go:81-100 | the argument, if any, comes first. Config entries are appended only when there is no argument or an address is being checked, and only if the config loaded. A config load failure is an error exactly when there is no argument. An empty list is an error. A successful result is never empty |
| Findings.AddressCountRange | cmd/root.go:291-294 | the intended count 2^h is the number of addresses from the network to the broadcast address, for every prefix length of a `Plain` network |
| Findings.AddressCountAgrees | cmd/root.go:291-294 | getTotalHosts equals the intended count exactly when there are fewer than 64 host bits |
| Findings.Slash64TotalHosts | cmd/root.go:291-294 | for ::/64 getTotalHosts is 0, while the network has 2^64 addresses |
| Findings.LastUsableIntendedIPv6 | cmd/root.go:268-274 | intended: for an IPv6 network that is not IPv4-mapped, the last usable address is the top of the block, network + 2^h − 1 |
| Findings.LastUsableDiffers | cmd/root.go:268-288 | getLastUsableIP differs from the intended result exactly for networks with no 4-byte form whose broadcast address has one (both directions) |
| Findings.LastUsableIntendedIPv4 | cmd/root.go:276-288 | intended and as written agree for a network with a 4-byte form: broadcast − 1 modulo 2^32 |
| Findings.Slash80LastUsable | cmd/root.go:268-289 | for ::/80 the broadcast is ::ffff:255.255.255.255, which has a 4-byte form. getLastUsableIP therefore returns ::ffff:255.255.255.254 for this IPv6 network, not the broadcast address |
| Findings.Slash80Occurs | cmd/root.go:268-289 | ::/80 (all-zero address, 80-bit mask) is a network ParseCIDR can return |

## Left out

- Cobra command wiring, the `--check` and `--config` flags, `Execute` and
  `os.Exit` (cmd/root.go:50-74). This is command-line plumbing. The flag values
  are parameters of `Cli.AssembleCIDRs`.
- All output. This covers the lipgloss styles, every `fmt.Print*` call,
  `displayCIDRInfo` (cmd/root.go:131-163) and `IP.String()` formatting. Also
  left out is the display and dispatch part of `runCIDR` (cmd/root.go:102-129),
  which prints each block or calls the scan. `Cli.CheckIPInCIDRs` returns its
  verdicts as data instead of printing them.
- Choosing and reading the config file in `loadConfigCIDRs`
  (cmd/root.go:200-215): `os.UserHomeDir`, `filepath.Join` and `os.ReadFile`.
  These are file-system I/O.
  - The file contents are the input of `Config.ParseConfig`.
  - The outcome of loading is a parameter of `Cli.AssembleCIDRs`.
  - The config path and the message that shows it are not modelled.
- The internals of `net.ParseIP`, `net.ParseCIDR` and `IPNet.Contains`. They are
  Go library code.
  - In `Cli`, they are function-valued parameters.
  - In `Subnet`, a parsed network is the subset type `IP.Network`.
- Invalid UTF-8 in the config file. Dafny strings are sequences of Unicode
  scalar values, so Go's byte-to-rune conversion is not modelled.
- Subnet.BroadcastValue: stated only for `Plain` networks, meaning IPv4, or
  IPv6 that is not IPv4-mapped. For an IPv4-mapped IPv6 network,
  getBroadcastIP pairs the 4-byte view of the address with the first four
  (all-ones) bytes of the 16-byte mask. The model computes this as the code
  does (`Subnet.Broadcast`), but proves no arithmetic fact about it.
- Findings.AddressCountRange: stated only for `Plain` networks, for the reason
  given under Subnet.BroadcastValue.
- Findings.LastUsableIntendedIPv6: the value of the intended result is stated
  only for `Plain` networks, for the same reason. Findings.LastUsableDiffers
  covers every network.
- Subnet.BroadcastSameBlock: stated only for `Plain` networks, for the same
  reason.
- Subnet.TotalHostsCountsRange: stated only for `Plain` networks with fewer
  than 64 host bits. Wider networks are the first finding below.
- Subnet.IPv4UsableRange: stated for prefixes of at most /30. /31 and /32 are
  covered by `IPv4PointToPoint` and `IPv4SingleHost`.

## Findings

| source | as written | input that shows it | evidently intended | confidence | as-written member | corrected member |
|---|---|---|---|---|---|---|
| cmd/root.go:291-294 | `1 << uint(bits-ones)` on a uint64 is 0 once there are 64 or more host bits, so every IPv6 prefix of /64 or shorter shows "Total Hosts: 0" (and "Usable Hosts: 0") | `::/64` | the number of addresses in the block, 2^(bits − ones) | not executed | Findings.Slash64TotalHosts | Findings.AddressCountRange |
| cmd/root.go:268-274 | the IPv6 test is made on the broadcast address, and a broadcast ending in `::ffff:a.b.c.d` has a 4-byte form, so the IPv4 decrement is applied to an IPv6 network | `::/80` (broadcast `::ffff:255.255.255.255`, returned last usable `::ffff:255.255.255.254`, which `IP.String` displays as `255.255.255.254`) | for IPv6 the last usable address is the broadcast address, deciding the family on the network address | not executed | Findings.Slash80LastUsable | Findings.LastUsableIntendedIPv6 |
