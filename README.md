# netaddr2 in Dafny

A verified model of the core of `netaddr2`, a Rust library of IPv4 and IPv6
network values. A network (`Netv4Addr`, `Netv6Addr`, or the family-tagged
`NetAddr`) is a pair of a netmask and a network address. The model covers the
following:

- **Construction.** `new` keeps the mask and clears the address's host bits.
  `From<address>` builds the single-address network, with the all-ones mask.
- **Masking.** `mask` is the AND of address and mask. On `IpAddr` it refuses
  to mix the two families.
- **Parsing.** A network is written as `addr/len`, `addr/mask` or `addr mask`.
  Text with only an address part, such as `addr/zoop`, gives the
  single-address network. A prefix length at or above the width gives the
  all-ones mask.
- **Display.** A mask that is a prefix mask renders as `/len`. Any other mask
  renders in address form.
- **Containment.** Only the other network's base address is examined, under
  this network's mask. Two networks can therefore contain each other.
- **Merge.** Two networks merge when they agree under the shorter of their
  masks. If the masks are equal, the mask is first widened by one bit. So a
  network merged with itself is its enclosing network one bit shorter.
- **Broadcast.** Defined for IPv4 only: the network address with every host
  bit set.
- **Ordering.** Networks order by address, then by mask. For `NetAddr`, every
  IPv4 network comes before every IPv6 network.
- **Offsets.** An address moves by a signed or unsigned count with checked
  arithmetic.
- **Iterators.** There are two iterator classes:
  - The address iterator counts up from the network address. It stops at the
    first address outside the network. When the cursor reaches the family's
    last address, that address is yielded without a containment check, so
    `255.255.255.254/32` yields `255.255.255.255` too.
  - The IPv4 subnet iterator splits a network at a longer mask into its
    aligned blocks, in ascending order. Given a shorter mask, it yields the
    larger network once when the outer base is aligned on it, and otherwise
    nothing.
- **Test helpers.** The crate's tests build expected netmasks and
  (text, address, mask) triples with helper functions, which are modelled too
  (module `TestUtil`).

Addresses and masks are bounded naturals, `u32` and `u128`. The bitwise
operators, shifts and `count_ones` are defined on them bit by bit in module
`Bits`, with the Rust semantics for the checked and overflowing forms.

The text form of a single address is not modelled. Parsing and formatting of
IPv4 addresses, and of IPv6 addresses in the sense of section 2.2 of RFC 4291,
are passed in as an `AddrSyntax` value. Its `Lawful()` predicate states what
the round-trip results rely on:

- a formatted address parses back;
- a formatted address holds neither `/` nor a space, and is not a plain
  decimal number;
- formatted IPv6 text is not IPv4 text.

The library has several layouts of the same behaviour. Masking is in both
src/mask.rs and src/traits/mask/. `Netv4Addr::new` and `Netv6Addr::new` are
each written twice: in src/netaddr.rs and again in src/netv4addr.rs and
src/netv6addr.rs. Each behaviour is defined once here, citing the copy it
models.

Where the hand-written `Ord` for `Netv4Addr`/`Netv6Addr` (address, then mask)
and the derived `Ord` on the struct (mask first) disagree, the model follows
the hand-written one, which the crate's tests exercise.

When both family parsers refuse a `NetAddr`, the crate passes the IPv6
parser's error out as it is. That error is a `NetAddrError`, while `NetAddr`'s
`from_str` is declared to return the crate's `Error`. The model turns it into
`Error::ParseError` with the same message.

Module map:

| module | file | models |
|---|---|---|
| `Bits` | bits.dfy | the bitwise operators, shifts, `count_ones`, prefix masks |
| `Addr` | addr.dfy | `IpAddr`, `u32`, `u128` |
| `Wrappers`, `Order` | wrappers.dfy, order.dfy | `Option`, `Result`, `Ordering` |
| `Errors` | errors.dfy | `Error`, `NetAddrError` |
| `Text` | text.dfy | the separator split, `u32` parsing, decimal rendering, `AddrSyntax` |
| `Prefix` | prefix.dfy | the renderer's and the parser's prefix-mask formulas |
| `Masking` | mask.dfy | `Mask` for the three address types |
| `Netv4`, `Netv6` | netv4.dfy, netv6.dfy | the two network types |
| `Network` | netaddr.dfy | `NetAddr` |
| `Offsets` | offset.dfy | `Offset` |
| `AddressIter` | address_iter.dfy | `AddressIterator` |
| `SubnetIter` | subnet_iter.dfy | `SubnetIterator` |
| `TestUtil` | test_util.dfy | the mask and triple builders of the crate's tests |

## Model

| member | source | states |
|---|---|---|
| Addr.IpAddr.Value | src/traits/mask/ipv4addr.rs:8 | `u32::from` / `u128::from`: an address's number, below two to its family's width |
| Addr.WithValue | src/iter/address.rs:21-24 | the address built from a number has the given family and number |
| Addr.ShlU32 | src/netv4addr/merge.rs:16 | `mask << 1` on a `u32`, the top bit lost; a `/n` mask becomes the `/(n-1)` mask by `Bits.ShlPrefixOne` |
| Addr.ShlU128 | src/netv6addr/merge.rs:16 | `mask << 1` on a `u128`, the top bit lost; a `/n` mask becomes the `/(n-1)` mask by `Bits.ShlPrefixOne` |
| Addr.NotU32 | src/netv4addr/broadcast.rs:11 | `!` on a `u32` is the distance to `u32::MAX` |
| Addr.OrU32 | src/netv4addr/broadcast.rs:11 | `\|` on two `u32` words stays a `u32` and is at least its first operand |
| Bits.And | src/traits/mask/ipv4addr.rs:8 | `&`, one bit at a time; its laws are `Bits.AndComm`, `Bits.AndIdem`, `Bits.AndMax` and `Bits.AndPrefix` |
| Bits.Or | src/netv4addr/broadcast.rs:11 | `\|`, one bit at a time; with `Bits.Not` it sets the host bits (`Bits.AndOrNot`) |
| Bits.Xor | src/netv4addr/fromstr.rs:55-56 | `^`, one bit at a time; with the all-ones word it complements (`Bits.XorMax`) |
| Bits.Not | src/netv4addr/broadcast.rs:11 | `!` on a `w`-bit word, which is `MAX - a` (`Addr.NotU32`) |
| Bits.Shl | src/netv4addr/merge.rs:16 | `<<` on a `w`-bit word, losing the bits shifted past the top (`Bits.ShlPrefixOne`, `Bits.ShlMax`) |
| Bits.Shr | src/netv4addr/fromstr.rs:56 | `>>`, dropping the low bits (`Bits.ShrMax`) |
| Bits.CheckedShl | src/netv4addr/display.rs:8 | `checked_shl`: no result when the shift is not below the width (used by `Prefix.CidrMaskIsPrefix`) |
| Bits.CheckedShr | src/netv4addr/fromstr.rs:56-59 | `checked_shr`: no result when the shift is not below the width (used by `Prefix.ParsedMaskIsPrefix`) |
| Bits.CheckedAdd | src/iter/offset.rs:44 | `checked_add`: no result exactly when the sum overflows the width (stated by the `Offsets` contracts) |
| Bits.CheckedSub | src/iter/offset.rs:27 | `checked_sub`: no result exactly when the result would be negative (stated by `Offsets.V6ByI32`) |
| Bits.CountOnes | src/netv4addr/display.rs:7 | `count_ones`; a `/p` mask has `p` of them (`Bits.CountOnesPrefix`) |
| Bits.PrefixMask | src/netv4addr/display.rs:8 | the `/p` netmask, the reference both of the crate's mask formulas are proved equal to |
| Bits.AndComm | src/traits/mask/ipv4addr.rs:25-30 | bitwise AND is commutative |
| Bits.AndIdem | src/netv4addr.rs:19-22 | masking twice with the same mask equals masking once |
| Bits.AndMax | src/netv4addr/from/ipv4addr.rs:5-7 | the all-ones word leaves every value of that width unchanged |
| Bits.AndOrNot | src/netv4addr/broadcast.rs:8-13 | setting the host bits with OR-NOT and masking again gives the masked address |
| Bits.CountOnesPrefix | src/netv4addr/display.rs:7 | a `/p` mask has exactly `p` one bits |
| Bits.AndPrefix | src/traits/mask/ipv4addr.rs:7-9 | a `/p` mask clears exactly the low `w-p` bits |
| Bits.PrefixRange | src/netv4addr/contains.rs:11-12 | an address masks to an aligned `/p` base exactly when it lies in that base's block |
| Bits.ShlPrefixOne | src/netv4addr/merge.rs:16 | `mask << 1` on a `/n` mask is the `/(n-1)` mask |
| Bits.ShlMax | src/netv4addr/display.rs:8 | `MAX << s` for `s < w` is the `/(w-s)` mask |
| Bits.ShrMax | src/netv4addr/fromstr.rs:55-59 | `MAX >> c` for `c < w` has exactly the low `w-c` bits set |
| Bits.XorMax | src/netv4addr/fromstr.rs:55-59 | XOR with the all-ones word complements a value |
| Prefix.CidrMask | src/netv4addr/display.rs:8 | the renderer's `MAX.checked_shl(w - ones).unwrap_or(0)`; equal to the `/ones` mask by `Prefix.CidrMaskIsPrefix` |
| Prefix.ParsedMask | src/netv4addr/fromstr.rs:55-59 | the parser's `MAX ^ MAX.checked_shr(c).unwrap_or(0)`; equal to the `/c` mask, saturating, by `Prefix.ParsedMaskIsPrefix` |
| Prefix.IsCidr | src/netv4addr/display.rs:10 | the renderer's test `mask == cidr_mask`; true exactly for prefix masks by `Prefix.IsCidrIffPrefix` |
| Prefix.CidrMaskIsPrefix | src/netv4addr/display.rs:8 | the renderer's `checked_shl(w - ones).unwrap_or(0)` is the `/ones` mask, including `/0` |
| Prefix.ParsedMaskIsPrefix | src/netv4addr/fromstr.rs:55-59 | the parser's `MAX ^ checked_shr(c)` is the `/c` mask, and the all-ones mask for `c >= w` |
| Prefix.IsCidrIffPrefix | src/netv4addr/display.rs:10 | a mask passes the renderer's test exactly when it is some prefix mask |
| Prefix.PrefixIsCidr | src/netv4addr/display.rs:6-10 | every `/p` mask passes the renderer's test with `p` ones |
| Masking.MaskV4 | src/traits/mask/ipv4addr.rs:7-9 | `Ipv4Addr::mask` is at most either operand |
| Masking.MaskV6 | src/traits/mask/ipv6addr.rs:7-9 | `Ipv6Addr::mask` is at most either operand |
| Masking.MaskIp | src/traits/mask/ipaddr.rs:7-13 | same-family masking succeeds in that family; mixing families is an error |
| Masking.MaskIpComm | src/traits/mask/ipaddr.rs:41-46 | masking is symmetric in both families and in the error case |
| Masking.MaskIpIdem | src/traits/mask/ipaddr.rs:7-13 | masking a masked address again with the same mask changes nothing |
| Masking.MaskIpAllOnes | src/traits/mask/ipaddr.rs:9-10 | the family's all-ones mask leaves an address unchanged |
| Masking.MaskV4Prefix | src/traits/mask/ipv4addr.rs:7-9 | a `/p` netmask keeps the address's `/p` block base |
| Masking.MaskV4Split | src/traits/mask/ipv4addr.rs:17-22 | an aligned network part plus a host part masks to the network part |
| Masking.MaskV6Prefix | src/traits/mask/ipv6addr.rs:7-9 | a `/p` netmask keeps the address's `/p` block base |
| Masking.MaskExamples | src/traits/mask/ipaddr.rs:24-125 | 192.0.2.1 under 255.255.255.0 is 192.0.2.0, an IPv6 address under its /32, masking both ways round, and the mixed-family error |
| Errors.Error.Display | src/error/display.rs:7 | the rendering is the fixed prefix followed by the message |
| Errors.NetAddrError.Display | src/netaddr_error/display.rs:7 | the rendering is the fixed prefix followed by the message |
| Errors.ErrorDisplayInjective | src/error/display.rs:7 | distinct errors render differently |
| Errors.NetAddrErrorDisplayInjective | src/netaddr_error/display.rs:7 | distinct errors render differently |
| Errors.DisplaysAgree | src/netaddr_error/display.rs:5-9 | the two enums render the same message identically |
| Errors.DisplayExamples | src/error/display.rs:16-21 | the rendering of the test's `ParseError` |
| Order.CmpNatReverse | src/netv4addr/ord.rs:6-8 | comparing two integers the other way round gives the reversed ordering |
| Order.CmpNatTransitive | src/netv4addr/ord.rs:6-8 | integer `cmp` is transitive, and a chain is `Equal` only when both steps are |
| Text.Split | src/netv4addr/fromstr.rs:42 | splitting yields at least one piece, and none holds a separator |
| Text.SplitNoSeparator | src/netv4addr/fromstr.rs:44-47 | text without separators is one piece, so `split.get(1)` fails |
| Text.SplitAtSeparator | src/netv4addr/fromstr.rs:42 | a separator ends the first piece and splitting resumes after it |
| Text.SplitPair | src/netv4addr/fromstr.rs:42-47 | `a/b` and `a b` split into exactly `a` and `b` |
| Text.Decimal | src/netv4addr/display.rs:11 | the decimal rendering is a non-empty string of digits |
| Text.DecimalValue | src/netv4addr/display.rs:11 | the rendered digits denote the number |
| Text.ParseU32 | src/netv4addr/fromstr.rs:50 | `u32::from_str`: an optional `+`, then one or more digits whose value is below 2^32; characterised by `Text.DecimalRoundTrip`, `Text.ParseU32Rejects` and `Text.ParseU32Examples` |
| Text.DecimalRoundTrip | src/netv4addr/fromstr.rs:50 | a rendered prefix length parses back as `u32` and holds no separator |
| Text.DecimalWidths | src/netv4addr/display.rs:11 | `0`, `32` and `128` render as those digits |
| Text.ParseU32Rejects | src/netv4addr/fromstr.rs:50 | a string with a character other than digits and a leading `+` is no `u32` |
| Text.ParseU32Examples | src/netv4addr/fromstr.rs:50 | `u32` parsing of the crate's prefix texts and of `zoop` |
| Text.TaggedSyntaxLawful | src/netv4addr/fromstr.rs:49-51 | the assumptions on the address syntax can all hold at once: a syntax that writes `v` or `w` before the address's number meets them |
| Netv4.New | src/netv4addr.rs:19-22 | keeps the mask; the address is the masked input and has no host bit set |
| Netv4.NewFixesCanonical | src/netv4addr.rs:19-22 | rebuilding from its own fields is the identity exactly on canonical networks |
| Netv4.NewMasked | src/netv4addr.rs:19-22 | pre-masking the address changes nothing |
| Netv4.FromAddr | src/netv4addr/from/ipv4addr.rs:5-7 | the network has the address itself and the all-ones mask |
| Netv4.Contains | src/netv4addr/contains.rs:7-13 | `contains` for a network: the other network's base, masked with this mask, is this network's address |
| Netv4.ContainsAddr | src/netv4addr/contains.rs:7-13 | `contains` for an address, through the single-address network; characterised by `Netv4.ContainsAddrIff` |
| Netv4.ContainsAddrIff | src/netv4addr/contains.rs:11-12 | an address is contained exactly when masking it gives the network address |
| Netv4.ContainsBaseOnly | src/netv4addr/contains.rs:11-12 | containment of a network ignores that network's own mask |
| Netv4.ContainsSelf | src/netv4addr/contains.rs:11-12 | a network contains itself exactly when canonical |
| Netv4.ContainsCidrRange | src/netv4addr/contains.rs:11-12 | a canonical `/p` network contains exactly the `2^(32-p)` addresses from its base |
| Netv4.ContainsNotAntisymmetric | src/netv4addr/contains.rs:12 | 10.0.0.0/24 and 10.0.0.0/8 each contain the other |
| Netv4.Merge | src/netv4addr/merge.rs:9-26 | `merge`: the mask shifted left when equal, else the shorter; a network when the masked addresses agree; properties in `Netv4.MergeSound` and below |
| Netv4.MergeComm | src/netv4addr/merge.rs:15-25 | merge is commutative |
| Netv4.MergeSound | src/netv4addr/merge.rs:21-22 | a merged network is canonical and contains both inputs |
| Netv4.MergeNested | src/netv4addr/merge.rs:17-22 | a network inside a canonical network with a shorter mask merges into it, in both orders |
| Netv4.MergeSiblings | src/netv4addr/merge.rs:16-25 | two `/n` networks merge exactly when they agree under `/(n-1)`, into that `/(n-1)` network |
| Netv4.MergeSelf | src/netv4addr/merge.rs:16 | a `/n` network merged with itself is its `/(n-1)` network, with a different mask |
| Netv4.Broadcast | src/netv4addr/broadcast.rs:8-13 | `broadcast`: `network \| !netmask`; in the network and its last address by `Netv4.BroadcastInNetwork`, `Netv4.BroadcastIsLast` |
| Netv4.BroadcastInNetwork | src/netv4addr/broadcast.rs:8-13 | the broadcast address masks back to the network, and a canonical network contains it |
| Netv4.BroadcastIsLast | src/netv4addr/broadcast.rs:8-13 | for a canonical `/p` network it is the last of its `2^(32-p)` addresses |
| Netv4.Cmp | src/netv4addr/ord.rs:5-10 | `cmp`: by network address, ties broken by mask; lexicographic by `Netv4.CmpLexicographic` |
| Netv4.PartialCmp | src/netv4addr/partialord.rs:5-11 | `partial_cmp` over `u32::partial_cmp`; always `Some(cmp)` by `Netv4.PartialCmpIsCmp` |
| Netv4.CmpLexicographic | src/netv4addr/ord.rs:5-10 | the order is lexicographic on (address, mask), `Equal` is equality, and it is antisymmetric |
| Netv4.CmpTransitive | src/netv4addr/ord.rs:5-10 | `Less` is transitive |
| Netv4.PartialCmpIsCmp | src/netv4addr/partialord.rs:5-11 | `partial_cmp` always answers, and agrees with `cmp` |
| Netv4.Display | src/netv4addr/display.rs:5-15 | `fmt`: `addr/len` for a prefix mask, `addr/mask` otherwise; parsed back by `Netv4.RoundTrip` |
| Netv4.Parse | src/netv4addr/fromstr.rs:41-69 | `from_str`: split, then prefix length, else netmask, else single address; error cases in `Netv4.ParseNoSeparator`, `Netv4.ParseBadAddress` |
| Netv4.PrefixLengthMask | src/netv4addr/fromstr.rs:55-61 | a parsed prefix length `c` gives the `/min(c, 32)` mask |
| Netv4.ParseNoSeparator | src/netv4addr/fromstr.rs:44-47 | text without `/` or space is refused with the splitting error |
| Netv4.ParseBadAddress | src/netv4addr/fromstr.rs:49-67 | an invalid address part passes the address parser's message out |
| Netv4.ParseForms | src/netv4addr/fromstr.rs:53-66 | a number gives the prefix network, an address the netmask network, anything else the single-address network |
| Netv4.ParseCanonical | src/netv4addr/fromstr.rs:41-69 | every parsed network is canonical |
| Netv4.ParseIgnoresRest | src/netv4addr/fromstr.rs:42-47 | only the first two pieces are read |
| Netv4.DisplayPrefix | src/netv4addr/display.rs:6-11 | a `/p` mask renders as `addr/p` |
| Netv4.DisplayNonPrefix | src/netv4addr/display.rs:10-14 | any other mask renders as `addr/mask` |
| Netv4.DisplayFullMask | src/netv4addr/display.rs:6-11 | the all-ones mask renders as `/32` |
| Netv4.DisplayHost | src/netv4addr/from/ipv4addr.rs:5-7 | the single-address network of an address renders as `addr/32` |
| Netv4.DisplayEmptyMask | src/netv4addr/display.rs:8 | the empty mask renders as `0.0.0.0/0` whatever address built it |
| Netv4.DisplayParse | src/netv4addr/fromstr.rs:41-69 | parsing a rendering gives back the network rebuilt by `new` |
| Netv4.RoundTrip | src/netv4addr/display.rs:5-15 | a canonical network survives rendering and parsing unchanged |
| Netv4.ParsePrefixExample | src/netv4addr/fromstr.rs:18-24 | `192.0.2.16/29` is `new(192.0.2.16, 255.255.255.248)` |
| Netv4.ParseMaskForm | src/netv4addr/fromstr.rs:26-39 | the address-then-mask form gives the same network with either separator |
| Netv4.ParseMaskExample | src/netv4addr/fromstr.rs:26-39 | `192.0.2.16 255.255.255.248` and `192.0.2.16/255.255.255.248` parse alike |
| Netv4.ParseHostExample | src/netv4addr/fromstr.rs:82-85 | `127.0.0.1/zoop` is the single-address network |
| Netv4.ParseFullPrefixExample | src/netv4addr/fromstr.rs:82-85 | `127.0.0.1/32` equals `127.0.0.1/zoop` |
| Netv4.ParseSplitExample | src/netv4addr/fromstr.rs:88-96 | `zoop` is refused with the splitting error |
| Netv4.MergeExamples | src/netaddr/merge.rs:26-65 | 10.0.0.0/24 and 10.0.1.0/24 merge to 10.0.0.0/23; 10.0.1.0/24 and 10.0.2.0/24 do not |
| Netv4.BroadcastExample8 | src/netv4addr/broadcast.rs:22-23 | 127.0.0.1/8 broadcasts on 127.255.255.255 |
| Netv4.BroadcastExample29 | src/netv4addr/broadcast.rs:25-26 | 192.168.69.25/29 broadcasts on 192.168.69.31 |
| Netv4.BroadcastExample32 | src/netv4addr/broadcast.rs:28-29 | 192.168.128.127/32 is its own broadcast address |
| Netv4.NewAligned | src/netv4addr.rs:19-22 | an address aligned on a `/p` block is that network's base |
| Netv4.NewSplit | src/netv4addr.rs:19-22 | an aligned network part plus a host part has the network part as base |
| Netv4.NewAt8 | src/netv4addr.rs:19-22 | a /8 block base is its own network address |
| Netv4.NewAt29 | src/netv4addr/fromstr.rs:18-24 | 192.0.2.16 is the base of its /29 network |
| Netv4.MaskBelowHost | src/netv4addr.rs:19-22 | an address below the host span of a `/p` network masks to zero |
| Netv4.NewAt7 | src/netv4addr/ord.rs:27-31 | `1.0.0.0/7` is canonicalised to `0.0.0.0/7` |
| Netv4.CmpExamples | src/netv4addr/ord.rs:18-48 | the four ordering tests |
| Netv6.New | src/netv6addr.rs:19-22 | keeps the mask; the address is the masked input and has no host bit set |
| Netv6.NewFixesCanonical | src/netv6addr.rs:19-22 | rebuilding from its own fields is the identity exactly on canonical networks |
| Netv6.NewMasked | src/netv6addr.rs:19-22 | pre-masking the address changes nothing |
| Netv6.FromAddr | src/netv6addr/from/ipv6addr.rs:5-7 | the network has the address itself and the all-ones mask |
| Netv6.Contains | src/netv6addr/contains.rs:6-12 | `contains` for a network: the other network's base, masked with this mask, is this network's address |
| Netv6.ContainsAddr | src/netv6addr/contains.rs:6-12 | `contains` for an address, through the single-address network; characterised by `Netv6.ContainsAddrIff` |
| Netv6.ContainsAddrIff | src/netv6addr/contains.rs:10-11 | an address is contained exactly when masking it gives the network address |
| Netv6.ContainsBaseOnly | src/netv6addr/contains.rs:10-11 | containment of a network ignores that network's own mask |
| Netv6.ContainsSelf | src/netv6addr/contains.rs:10-11 | a network contains itself exactly when canonical |
| Netv6.ContainsCidrRange | src/netv6addr/contains.rs:10-11 | a canonical `/p` network contains exactly the `2^(128-p)` addresses from its base |
| Netv6.ContainsNotAntisymmetric | src/netv6addr/contains.rs:11 | two networks with one base and different masks each contain the other |
| Netv6.Merge | src/netv6addr/merge.rs:9-26 | `merge`: the mask shifted left when equal, else the shorter; a network when the masked addresses agree; properties in `Netv6.MergeSound` and below |
| Netv6.MergeComm | src/netv6addr/merge.rs:15-25 | merge is commutative |
| Netv6.MergeSound | src/netv6addr/merge.rs:21-22 | a merged network is canonical and contains both inputs |
| Netv6.MergeNested | src/netv6addr/merge.rs:17-22 | a network inside a canonical network with a shorter mask merges into it, in both orders |
| Netv6.MergeSiblings | src/netv6addr/merge.rs:16-25 | two `/n` networks merge exactly when they agree under `/(n-1)`, into that `/(n-1)` network |
| Netv6.MergeSelf | src/netv6addr/merge.rs:16 | a `/n` network merged with itself is its `/(n-1)` network, with a different mask |
| Netv6.Cmp | src/netv6addr/ord.rs:5-10 | `cmp`: by network address, ties broken by mask; lexicographic by `Netv6.CmpLexicographic` |
| Netv6.PartialCmp | src/netv6addr/partialord.rs:5-11 | `partial_cmp` over `u128::partial_cmp`; always `Some(cmp)` by `Netv6.PartialCmpIsCmp` |
| Netv6.CmpLexicographic | src/netv6addr/ord.rs:5-10 | the order is lexicographic on (address, mask), `Equal` is equality, and it is antisymmetric |
| Netv6.CmpTransitive | src/netv6addr/ord.rs:5-10 | `Less` is transitive |
| Netv6.PartialCmpIsCmp | src/netv6addr/partialord.rs:5-11 | `partial_cmp` always answers, and agrees with `cmp` |
| Netv6.Display | src/netv6addr/display.rs:5-15 | `fmt`: `addr/len` for a prefix mask, `addr/mask` otherwise; parsed back by `Netv6.RoundTrip` |
| Netv6.Parse | src/netv6addr/fromstr.rs:42-70 | `from_str`: split, then prefix length, else netmask, else single address; error cases in `Netv6.ParseNoSeparator`, `Netv6.ParseBadAddress` |
| Netv6.PrefixLengthMask | src/netv6addr/fromstr.rs:56-62 | a parsed prefix length `c` gives the `/min(c, 128)` mask |
| Netv6.ParseNoSeparator | src/netv6addr/fromstr.rs:45-48 | text without `/` or space is refused with the splitting error |
| Netv6.ParseBadAddress | src/netv6addr/fromstr.rs:50-68 | an invalid address part passes the address parser's message out |
| Netv6.ParseForms | src/netv6addr/fromstr.rs:54-67 | a number gives the prefix network, an address the netmask network, anything else the single-address network |
| Netv6.ParseCanonical | src/netv6addr/fromstr.rs:42-70 | every parsed network is canonical |
| Netv6.ParseIgnoresRest | src/netv6addr/fromstr.rs:43-48 | only the first two pieces are read |
| Netv6.DisplayPrefix | src/netv6addr/display.rs:6-11 | a `/p` mask renders as `addr/p` |
| Netv6.DisplayNonPrefix | src/netv6addr/display.rs:10-14 | any other mask renders as `addr/mask` |
| Netv6.DisplayFullMask | src/netv6addr/display.rs:6-11 | the all-ones mask renders as `/128` |
| Netv6.DisplayHost | src/netv6addr/from/ipv6addr.rs:5-7 | the single-address network of an address renders as `addr/128` |
| Netv6.DisplayEmptyMask | src/netv6addr/display.rs:8 | the empty mask renders as `::/0` whatever address built it |
| Netv6.DisplayParse | src/netv6addr/fromstr.rs:42-70 | parsing a rendering gives back the network rebuilt by `new` |
| Netv6.RoundTrip | src/netv6addr/display.rs:5-15 | a canonical network survives rendering and parsing unchanged |
| Netv6.NewAt32 | src/netv6addr/fromstr.rs:19-25 | 2001:db8:dead:beef::1 under /32 is 2001:db8:: |
| Netv6.ParsePrefixExample | src/netv6addr/fromstr.rs:19-25 | `2001:db8:dead:beef::1/32` is 2001:db8::/32 |
| Netv6.MaskFf02 | src/netaddr/fromstr.rs:122-132 | ff02::1 masked with ffff:: is ff02:: |
| Netv6.ParseMaskExample | src/netaddr/fromstr.rs:122-132 | `ff02::1 ffff::0` is ff02:: with mask ffff:: |
| Netv6.ParseHostExample | src/netv6addr/fromstr.rs:83-86 | `ff02::1/zoop` is the single-address network |
| Netv6.ParseFullPrefixExample | src/netv6addr/fromstr.rs:83-86 | `ff02::1/128` equals `ff02::1/zoop` |
| Netv6.FullMaskHost | src/netv6addr/from/ipv6addr.rs:5-7 | the all-ones mask keeps every address |
| Netv6.ParseSplitExample | src/netv6addr/fromstr.rs:89-97 | `zoop` is refused with the splitting error |
| Netv6.Masks63 | src/netaddr/merge.rs:72-114 | under /63, ...beef:: and ...beee:: share a network and ...beed:: does not |
| Netv6.MergeSiblingsExample | src/netaddr/merge.rs:72-80 | ...beef::/64 and ...beee::/64 merge to ...beee::/63 |
| Netv6.MergeAdjacentExample | src/netaddr/merge.rs:107-114 | ...beee::/64 and ...beed::/64 do not merge |
| Netv6.MergeNestedExample | src/netaddr/merge.rs:91-96 | ...beee::/63 absorbs ...beef::/64 |
| Netv6.CmpExamples | src/netv6addr/ord.rs:18-48 | the four ordering tests |
| Network.NetAddr.Mask | src/netaddr.rs:57-62 | `NetAddr::mask`: the mask as an `IpAddr` of the network's family (`Network.AccessorsAgree`) |
| Network.NetAddr.Addr | src/netaddr.rs:64-69 | `NetAddr::addr`: the address as an `IpAddr` of the network's family (`Network.AccessorsAgree`) |
| Network.AccessorsAgree | src/netaddr.rs:57-69 | the accessors keep the family; a network is canonical exactly when its mask leaves its address unchanged |
| Network.FromIpAddr | src/netaddr/from/ipaddr.rs:5-10 | the single-address network of the address's family, canonical, with the all-ones mask |
| Network.ContainsIp | src/netaddr/contains.rs:4-13 | `contains` for an `IpAddr`: the family's test, `false` across families; characterised by `Network.ContainsIpIff` |
| Network.ContainsNet | src/netaddr/contains.rs:15-24 | `contains` for a `NetAddr`: the family's test, `false` across families; characterised by `Network.ContainsNetIff` |
| Network.ContainsIpIff | src/netaddr/contains.rs:5-12 | an address is contained exactly when masking it gives the network address, families never mixing |
| Network.ContainsNetIff | src/netaddr/contains.rs:16-23 | a network is contained exactly when its base address is |
| Network.ContainsCrossFamily | src/netaddr/contains.rs:5-23 | nothing of the other family is contained |
| Network.ContainsIpCidrRange | src/netaddr/contains.rs:5-12 | a `/p` network contains exactly the addresses of its block |
| Network.Loopback8 | src/netaddr/contains.rs:39 | `127.0.0.1/8` is 127.0.0.0/8 |
| Network.Loopback24 | src/netaddr/contains.rs:48 | `127.128.0.1/24` is 127.128.0.0/24 |
| Network.ContainsIpExamples | src/netaddr/contains.rs:38-43 | 127.0.0.0/8 contains 127.0.0.1 and 127.127.255.1 but not 64.0.0.0 |
| Network.ContainsNetV4 | src/netaddr/contains.rs:16-20 | IPv4 network containment is masking the other's base |
| Network.ContainsIpV4 | src/netaddr/contains.rs:5-9 | IPv4 address containment is masking the address |
| Network.Mask8 | src/netaddr/contains.rs:38-50 | 255.0.0.0 keeps an address's top byte |
| Network.Contains8 | src/netaddr/contains.rs:38-43 | a /8 network contains exactly the addresses with its top byte |
| Network.ContainsNet8 | src/netaddr/contains.rs:46-50 | a /8 network contains exactly the networks whose base has its top byte |
| Network.ContainsNetExample | src/netaddr/contains.rs:46-50 | 127.0.0.0/8 contains 127.128.0.0/24 |
| Network.ContainsCrossFamilyExamples | src/netaddr/contains.rs:52-64 | 127.0.0.0/8 contains no IPv6 address or network |
| Network.Merge | src/netaddr/merge.rs:9-15 | `merge`: the family's merge, re-tagged; properties in `Network.MergeSound`, `Network.MergeComm` |
| Network.MergeSound | src/netaddr/merge.rs:9-15 | a merged network keeps the family, is canonical and contains both inputs |
| Network.MergeComm | src/netaddr/merge.rs:34-39 | merge is commutative |
| Network.MergeExamples | src/netaddr/merge.rs:26-114 | the crate's merge tests through `NetAddr`, both families |
| Network.Broadcast | src/netaddr/broadcast.rs:8-13 | there is a broadcast address exactly for IPv4, and it masks back to the network |
| Network.BroadcastContained | src/netaddr/broadcast.rs:10 | a canonical IPv4 network contains its broadcast address |
| Network.BroadcastExamples | src/netaddr/broadcast.rs:27-55 | 127.0.0.1/8 broadcasts on 127.255.255.255; fe80::1/64 has none |
| Network.Cmp | src/netaddr.rs:8-12 | the derived `cmp`: IPv4 before IPv6, then the family's `cmp` (`Network.CmpOrder`) |
| Network.PartialCmp | src/netaddr.rs:8-12 | the derived `partial_cmp`: IPv4 before IPv6, then the family's `partial_cmp` (`Network.PartialCmpIsCmp`) |
| Network.CmpOrder | src/netaddr.rs:8-12 | IPv4 before IPv6, then (address, mask) within a family; `Equal` is equality; antisymmetric |
| Network.CmpTransitive | src/netaddr.rs:8 | `Less` is transitive |
| Network.PartialCmpIsCmp | src/netaddr.rs:8 | `partial_cmp` always answers, and agrees with `cmp` |
| Network.CmpExamples | src/netaddr.rs:8-12 | 1.0.0.0/8 < 2.0.0.0/8, 1.0.0.0/8 > 0.0.0.0/24, IPv4 before IPv6 |
| Network.Display | src/netaddr/display.rs:5-10 | `fmt`: the family's rendering; parsed back by `Network.RoundTrip` |
| Network.Parse | src/netaddr/fromstr.rs:9-18 | `from_str`: the IPv4 parser, then the IPv6 parser, else the IPv6 error; outcomes in `Network.ParseDispatch` |
| Network.ParseDispatch | src/netaddr/fromstr.rs:9-18 | IPv4 is tried first, then IPv6; it fails exactly when both do, with the IPv6 message |
| Network.ParseCanonical | src/netaddr/fromstr.rs:9-18 | every parsed network is canonical |
| Network.V4RefusesV6Display | src/netaddr/fromstr.rs:13-15 | the IPv4 parser refuses a rendered IPv6 network |
| Network.RoundTrip | src/netaddr/display.rs:5-10 | a canonical network of either family survives rendering and parsing |
| Network.ParseSplitExample | src/netaddr/fromstr.rs:39-47 | `zoop` is refused with the splitting error |
| Network.ParseV4Example | src/netaddr/fromstr.rs:31-33 | `127.0.0.1/zoop` is the IPv4 single-address network |
| Network.V4RefusesFf02 | src/netaddr/fromstr.rs:34-35 | the IPv4 parser refuses `ff02::1/zoop` |
| Network.ParseV6Example | src/netaddr/fromstr.rs:34-35 | `ff02::1/zoop` is the IPv6 single-address network |
| Offsets.V6ByU128 | src/iter/offset.rs:9-13 | a result exactly when the sum fits in 128 bits, and then it is the sum |
| Offsets.V6ByI32 | src/iter/offset.rs:15-32 | a result exactly when the signed sum is an address, and then it is the sum |
| Offsets.V6ByU32 | src/iter/offset.rs:34-40 | a result exactly when the sum fits in 128 bits, and then it is the sum |
| Offsets.V4ByU32 | src/iter/offset.rs:42-46 | a result exactly when the sum fits in 32 bits, and then it is the sum |
| Offsets.V4ByI32 | src/iter/offset.rs:48-58 | a result exactly when the signed sum is an address, and then it is the sum |
| Offsets.V4ByU128 | src/iter/offset.rs:60-68 | a result exactly when the sum fits in 32 bits, and then it is the sum |
| Offsets.IpByI32 | src/iter/offset.rs:70-77 | the family is kept; a result exactly when the sum fits the family |
| Offsets.IpByU32 | src/iter/offset.rs:79-86 | the family is kept; a result exactly when the sum fits the family |
| Offsets.IpByU128 | src/iter/offset.rs:88-95 | the family is kept; a result exactly when the sum fits the family |
| Offsets.MaybeNext | src/iter/address.rs:18 | `maybe_next`, taken to be the checked `Offset<u32>` by the count |
| Offsets.OffsetZero | src/iter/offset.rs:121-151 | an offset of zero is the identity for every count type |
| Offsets.OffsetTypesAgree | src/iter/offset.rs:70-95 | the three count types agree where the count fits in each |
| Offsets.V4LargeCountFails | src/iter/offset.rs:60-68 | a `u128` count beyond `u32` never moves an IPv4 address |
| Offsets.OffsetInverse | src/iter/offset.rs:70-77 | stepping back by the same count undoes a step |
| Offsets.OffsetCompose | src/iter/offset.rs:79-86 | two steps compose into one |
| Offsets.V4Examples | src/iter/offset.rs:121-151 | steps from 127.0.0.0, and the two ends of the space |
| Offsets.V6Examples | src/iter/offset.rs:155-181 | steps from 2001:db8::, and the two ends of the space |
| AddressIter.Succ | src/iter/address.rs:18 | `cur.maybe_next(1)`: the next address, `None` after the family's last one |
| AddressIter.Yields | src/iter/address.rs:16-35 | everything repeated `next` calls return from a cursor; described by the `YieldsStep`, `YieldsStop` and `YieldsAtLast` lemmas below |
| AddressIter.Step | src/iter/address.rs:16-35 | an empty cursor stays empty; the family's last address is yielded and ends the run; others are yielded only when contained |
| AddressIter.AddressIterator.constructor | src/iter/address.rs:100-105 | the iterator starts at the network address |
| AddressIter.AddressIterator.Next | src/iter/address.rs:16-35 | one `next` is `Step`; the pending sequence loses its head, or is empty on `None` |
| AddressIter.NoneIsFinal | src/iter/address.rs:18-33 | after `None`, the cursor is unchanged and nothing more is yielded |
| AddressIter.YieldsStep | src/iter/address.rs:21-24 | a contained address, not the last, is yielded and the run continues at the next |
| AddressIter.YieldsStop | src/iter/address.rs:25-27 | an uncontained address, not the last, ends the run without being yielded |
| AddressIter.YieldsAtLast | src/iter/address.rs:29-32 | the family's last address is yielded, contained or not, and ends the run |
| AddressIter.YieldsCountUp | src/iter/address.rs:16-35 | the yielded addresses count up by one from the cursor |
| AddressIter.YieldsInNetOrLast | src/iter/address.rs:16-35 | every yielded address is in the network or is the family's last |
| AddressIter.YieldsShape | src/iter/address.rs:16-35 | starts at the cursor, counts up by one, stays in the network or at the last address |
| AddressIter.Run | src/iter/address.rs:21-24 | the run of `k` consecutive addresses has length `k` and counts up |
| AddressIter.CountsUpUnique | src/iter/address.rs:21-24 | two equally long count-ups from one address are equal |
| AddressIter.YieldsLast | src/iter/address.rs:25-32 | a network's last address is yielded alone, unless the next is the family's last |
| AddressIter.YieldsCount | src/iter/address.rs:16-35 | from inside a `/p` network, exactly the rest of the network is counted |
| AddressIter.YieldsRest | src/iter/address.rs:16-35 | from inside a `/p` network, the yield is exactly the rest of the network in order |
| AddressIter.YieldsNetwork | src/iter/address.rs:16-35 | a `/p` network yields its `2^(w-p)` addresses in order, in the usual case |
| AddressIter.YieldsPastNetwork | src/iter/address.rs:29-32 | a single-address network just below the last address also yields that last address, which it does not contain |
| AddressIter.SingleContains | src/netv4addr/contains.rs:11-12 | a single-address network contains its address and no other |
| AddressIter.YieldsPrefixV4 | src/iter/address.rs:49-54 | an IPv4 `/p` network iterates over its block from its base, in the usual case |
| AddressIter.YieldsPrefixV6 | src/iter/address.rs:100-105 | an IPv6 `/p` network iterates over its block from its base, in the usual case |
| AddressIter.YieldsV4Slash32 | src/iter/address.rs:58-63 | 127.0.16.0/32 yields 127.0.16.0 only |
| AddressIter.YieldsV4Slash29 | src/iter/address.rs:67-80 | 127.0.16.0/29 yields 127.0.16.0 to 127.0.16.7 |
| AddressIter.YieldsV4Top | src/iter/address.rs:83-90 | 255.255.255.254/31 yields its two addresses and stops |
| AddressIter.YieldsV6Slash125 | src/iter/address.rs:161-174 | 2001:db8::/125 yields 2001:db8:: to 2001:db8::7 |
| AddressIter.YieldsV6Slash128 | src/iter/address.rs:152-158 | 2001:db8::1/128 yields 2001:db8::1 only |
| AddressIter.YieldsV6Top | src/iter/address.rs:177-196 | the top IPv6 /127 yields its two addresses and stops |
| AddressIter.YieldsV4PastNetwork | src/iter/address.rs:29-32 | 255.255.255.254/32 yields 255.255.255.254 and then 255.255.255.255, which it does not contain |
| SubnetIter.Len | src/iter/subnet.rs:20 | an address count exactly for masks with a one bit, and then `2^(zero bits)` |
| SubnetIter.OffsetNet | src/iter/subnet.rs:26-30 | the base moves by the count with the mask kept, exactly when the sum fits |
| SubnetIter.HostCountFits | src/iter/subnet.rs:20-24 | only the empty mask spans the whole address space |
| SubnetIter.HasNext | src/iter/subnet.rs:20-28 | whether `next` leaves a cursor: the block has a length, the next block exists and is in the network |
| SubnetIter.Yields | src/iter/subnet.rs:15-46 | everything repeated `next` calls return from a cursor; described by `SubnetIter.SubnetsTile` and the lemmas below |
| SubnetIter.Step | src/iter/subnet.rs:15-46 | an uncontained candidate yields `None` and stays; a contained one is yielded and the cursor moves one block on |
| SubnetIter.SubnetIterator.constructor | src/iter/subnet.rs:60-65 | the first candidate is the outer base under the requested mask |
| SubnetIter.SubnetIterator.Next | src/iter/subnet.rs:15-46 | one `next` is `Step`; the pending sequence loses its head, or is empty on `None` |
| SubnetIter.NoneIsFinal | src/iter/subnet.rs:43-44 | after `None`, the cursor is unchanged and nothing more is yielded |
| SubnetIter.StepSuccessor | src/iter/subnet.rs:26-40 | a next candidate exists exactly when the following block is in the outer network |
| SubnetIter.LenPrefix | src/iter/subnet.rs:20-24 | for a `/q` mask `len` is `2^(32-q)`, and none for `/0` |
| SubnetIter.TilesShape | src/iter/subnet.rs:26-40 | consecutive blocks are ascending, `size` apart, with one mask |
| SubnetIter.SubnetsTile | src/iter/subnet.rs:15-65 | a canonical `/p` network split at `/q` yields its `2^(q-p)` blocks of `2^(32-q)` addresses in order |
| SubnetIter.SubnetsShape | src/iter/subnet.rs:15-65 | exactly `2^(q-p)` subnets, subnet `i` at `i` blocks from the base |
| SubnetIter.SubnetsPartition | src/iter/subnet.rs:15-65 | every outer address is in exactly one subnet, block `(a-base)/2^(32-q)`, and no other address is |
| SubnetIter.BlockCanonical | src/iter/subnet.rs:26-40 | every yielded block is canonical |
| SubnetIter.YieldsOutside | src/iter/subnet.rs:20-24 | an uncontained candidate yields nothing |
| SubnetIter.YieldsAlone | src/iter/subnet.rs:26-40 | a contained candidate without a next block yields itself alone |
| SubnetIter.SubnetsLarger | src/iter/subnet.rs:15-46 | split at a shorter mask, a canonical network yields the larger network at its base once when its base is aligned on that mask, and nothing otherwise |
| SubnetIter.SubnetsLargerAligned | src/iter/subnet.rs:60-65 | 127.0.0.0/24 split at 255.0.0.0 yields 127.0.0.0/8 once |
| SubnetIter.SubnetsLargerNone | src/iter/subnet.rs:69-76 | 127.0.16.0/24 split at 255.0.0.0 yields nothing |
| SubnetIter.Subnets24 | src/iter/subnet.rs:79-87 | 127.16.32.0/24 split at /24 yields itself |
| SubnetIter.Subnets25 | src/iter/subnet.rs:90-99 | split at /25 it yields its two halves |
| SubnetIter.Subnets26 | src/iter/subnet.rs:102-113 | split at /26 it yields its four quarters in order |
| SubnetIter.Subnets27 | src/iter/subnet.rs:116-131 | split at /27 it yields its eight /27 blocks in order |
| SubnetIter.SubnetsHalves | src/iter/subnet.rs:15-65 | a canonical `/p` network split at `/(p+1)` yields its lower and upper half |
| SubnetIter.IterateHalves | src/iter/subnet.rs:90-99 | the iterator object returns the lower half, the upper half, then `None` |
| SubnetIter.TakeTwo | src/iter/subnet.rs:15-46 | with two subnets pending, three `next` calls give those two and then `None` |
| SubnetIter.StartHalves | src/iter/subnet.rs:60-65 | `subnets` at one bit longer has exactly the two halves pending |
| TestUtil.GenV4Mask | src/tests/util.rs:50-55 | the `/n` mask, which passes the renderer's test with `n` ones |
| TestUtil.GenV6Mask | src/tests/util.rs:59-64 | the `/n` mask, which passes the renderer's test with `n` ones |
| TestUtil.V4Cidr | src/tests/util.rs:68-76 | `rnd_v4_cidr` for a given address and length: the text, the masked address and the mask; parsed by `TestUtil.V4CidrParses` |
| TestUtil.V6Cidr | src/tests/util.rs:78-86 | `rnd_v6_cidr` for a given address and length: the text, the masked address and the mask; parsed by `TestUtil.V6CidrParses` |
| TestUtil.V4CidrParses | src/tests/util.rs:68-76 | the expected triple's text parses to the network its other two parts give |
| TestUtil.V6CidrParses | src/tests/util.rs:78-86 | the expected triple's text parses to the network its other two parts give |

## Left out

- Network.Parse: the crate returns the IPv6 parser's `NetAddrError` where an `Error` is declared; the model converts it into `Error::ParseError` with the same message.
- The serde adapters, the `Hash` tests, the benchmarks and the demo programs: they are framework glue and harnesses. Their parse and render values appear only as test evidence.
- The text syntax of single addresses and the `AddrParseError` messages belong to the standard library. They are the `AddrSyntax` parameter, and the round-trip results assume its `Lawful()` predicate. The conversion of an address parse error into `Error`/`NetAddrError` keeps the message text.
- `rnd_ipv4addr`, `rnd_ipv6addr`, `rnd_v4_cidrlen` and `rnd_v6_cidrlen` draw from the thread's random generator. The drawn address and prefix length are parameters of `TestUtil.V4Cidr`/`V6Cidr`. `gen_range(0, 32)` is half open, so the IPv4 helper never draws /32; the model accepts every length up to the width.
- The stale tests, whose fields or expected panics no longer exist in the library, are not modelled.
- The tag-wrapper conversions into `NetAddr` are the `V4`/`V6` constructors themselves.
- The declaration-only files (trait declarations, the library root and the error enum declarations) add nothing beyond the datatypes.
- The `sibling` iterator is declared in src/iter.rs, but its body is not part of this model.
- The bodies of `Netv4Addr::len` and `Offset for Netv4Addr` are not part of this model. `SubnetIter.Len` and `SubnetIter.OffsetNet` give them the meaning the subnet iterator relies on: the address count of the network (none when it would be `2^32`), and a checked move of the base address with the mask kept.
- `MaybeNext<u32>` is not part of this model. It is taken to be the checked `Offset<u32>` by the given count.
- Offsets.V6ByI32: `i32::abs` overflows (panics in debug builds) on `i32::MIN`, so that count is excluded by a precondition rather than modelled as a panic.
- Offsets.IpByI32: the same `i32::MIN` exclusion, for IPv6 addresses.
- Network.Merge: merging networks of different families is `unimplemented!()` in the library, so a same-family precondition stands for that panic.
- The derived `Ord` of the `Netv4Addr`/`Netv6Addr` structs (mask first) is not modelled; the hand-written address-then-mask order is.
- The subnet iterator exists for IPv4 networks only, as in the library.
