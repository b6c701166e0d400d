# NetGrph network queries, modelled in Dafny

This project models the query core of NetGrph, a network-inventory service.
Given an address, a block or a group, the core pulls records from its stores.
It folds them into one result tree: a root node with an ordered sequence of
typed children, each carrying attributes, and a `_ccount` that counts them.
The model covers the following:

- **IPv4 arithmetic** (`Ipv4`): strict parsing and formatting of addresses
  and CIDR blocks as the `ipaddress` module of Python 3.9.5 and later (and
  of 3.8.12 and later) does them, containment, netmask, broadcast address,
  and the "address count minus two" size figure. The source pins no Python
  version.
- **The CIDR resolver** (`CidrResolver`): `compare_cidr`, which compares the
  text after `/` *as strings*, and `find_cidr`. `find_cidr` skips name
  resolution for text matching its dotted-quad pattern, whose `\d` is any
  Unicode decimal digit. It then folds `compare_cidr` over the blocks that
  contain the address, starting from `0.0.0.0/0`.
- **The extended network tree** (`NetTree`): `get_net_props` (later rows
  overwrite earlier ones), `get_net_extended_tree` (one CIDR child per
  distinct vrfcidr, first record wins, with computed block figures and
  optional attributes), and the rtype and result checks of `get_net`.
- **The network lists** (`NetList`): `get_networks_on_filter` and
  `get_networks_on_cidr`. Both index the records by gateway address, so a
  later record with the same gateway replaces an earlier one. They walk the
  gateways in ascending numeric order. The first keeps records passing the
  filter; the second keeps records whose gateway lies inside the block.
- **The switch port listing** (`SwitchPorts`): the aggregation loop of
  `get_switch`. It keeps one INT child per port, built from the first row
  of that port. The child copies only the truncated columns and is named
  after the port.
- **The result tree** (`NgTree`): a finished node is a `Node` value. A node
  being filled in is an `NGTree` object whose methods update its fields in
  place. The `_ccount` invariant is its `Valid()` predicate.
- Shared pieces: `Basics` (values, rows, errors, `Result`), `Text` (Python's
  `str.split`, decimal text, string order) and `Dedup` (first-seen-wins
  deduplication, used by both tree builders).

Everything the core reads from outside is a parameter:

- the rows the graph store or the switch-port database returns;
- the name resolver (`resolve`), which returns nothing on failure;
- the Unicode decimal-digit test behind `\d` (`isDecimal`, a `DecimalTest`),
  which agrees with '0' to '9' on ASCII and is otherwise the interpreter's
  Unicode table;
- the filter check (`passes`);
- the group-to-filter configuration (`groupFilters`);
- the property rows of a network by vrfcidr (`propsOf`);
- the rows routing a block (`routed`).

Each loop the source runs is a method proved against a function that
specifies it. The properties are lemmas about those functions.

Where the system's design description and the code disagree, the model
follows the code:

- The description says the resolver keeps the larger prefix length. The
  code compares the prefix texts as strings (see Findings).
- The description says an unknown group fails. The code prints a message
  and returns nothing (`NetList.NetworksOnFilterSelectors`).
- The description says a child can be attached only once. Nothing in
  nglib/query/net.py or nglib/netdb/switch.py checks that; `add_child_ngtree`
  lives in nglib/ngtree.py, which this model leaves out (see Left out).
- The description treats an empty result as a successful outcome, never an
  error. The code of `get_net` has an `else` branch raising "No CIDR
  Results", which cannot run (see Findings). The model follows the code as
  written (`NetTree.GetNetSpec`); `NetTree.GetNetChecked` models the other
  reading of that branch.

## Model

| member | source | states |
|---|---|---|
| Ipv4.ParseNetwork | nglib/query/net.py:327-331 | a block that parses strictly has a prefix of at most 32 and no host bits set |
| Ipv4.NetworkRoundTrip | nglib/query/net.py:327-331 | parsing the text of any valid block gives that block back |
| Ipv4.StrictRejectsHostBits | nglib/query/net.py:330 | a block text whose base address has bits set below the prefix is rejected with the host-bits error |
| Ipv4.ParseNetworkErrors | nglib/query/net.py:330 | every way a block text fails to parse is a ValueError |
| Ipv4.ParsePrefixErrors | nglib/query/net.py:330 | every way the text after '/' fails to parse is a netmask error |
| Ipv4.SearchPrefix | nglib/query/net.py:330 | a netmask written as an address maps to the prefix length whose netmask it is, and to nothing when no prefix has that netmask |
| Ipv4.AddressRoundTrip | nglib/query/net.py:319 | parsing the text of any address gives that address back |
| Ipv4.AddressCanonical | nglib/query/net.py:319 | an address text that parses is exactly the canonical text of its address (no leading zeros, no signs, no spaces) |
| Ipv4.ParseAddressErrors | nglib/query/net.py:319 | every way an address text fails to parse is the address ValueError |
| Ipv4.LastOctetMustParse | nglib/query/net.py:319 | an address text whose last dotted piece is not an octet does not parse |
| Ipv4.ContainsRange | nglib/query/net.py:319 | an address is in a valid block exactly when it lies between the block's base and its broadcast address |
| Ipv4.SizeOfHostBlock | nglib/query/net.py:112-113 | the size figure of a /32 is "-1 nodes" |
| Ipv4.SizeOfPairBlock | nglib/query/net.py:112-113 | the size figure of a /31 is "0 nodes" |
| Ipv4.SizeOfClassCBlock | nglib/query/net.py:112-122 | the size figure of a /24 is "254 nodes" |
| Ipv4.DefaultRouteContainsAll | nglib/query/net.py:312 | the starting block 0.0.0.0/0 contains every address |
| Ipv4.DefaultRouteParses | nglib/query/net.py:312 | "0.0.0.0/0" parses strictly to the block of all addresses |
| Ipv4.DefaultRouteText | nglib/query/net.py:312 | the block of all addresses is written "0.0.0.0/0" |
| Text.Split | nglib/query/net.py:337-338 | `split` yields at least one piece, no piece holds the separator, and joining the pieces gives the text back |
| Text.SplitJoin | nglib/query/net.py:337-338 | splitting a join of separator-free pieces gives the pieces back |
| Text.IntToDecimal | nglib/query/net.py:122 | `str` of an integer is a '-' exactly for negatives followed by canonical digits that read back as its magnitude |
| Text.DecimalCanonical | nglib/query/net.py:319 | a canonical digit string is exactly `str` of the number it reads as |
| Text.LexTransitive | nglib/query/net.py:340 | Python's string order is transitive |
| Text.LexTotal | nglib/query/net.py:340 | of two different strings one is below the other |
| CidrResolver.MaskIsSecondPiece | nglib/query/net.py:337-338 | a text has a second '/'-piece exactly when it holds '/', and `Mask` is that piece |
| CidrResolver.CompareCidrKeepsGreaterMask | nglib/query/net.py:334-343 | compare_cidr returns one of its arguments, whose mask text is not below either argument's in string order; equal mask texts return the second |
| CidrResolver.SlashEightBeatsSlashSixteen | nglib/query/net.py:340-343 | in either argument order, compare_cidr picks the /8 over the /16, because "8" > "16" as strings |
| CidrResolver.FoldPicksLastGreatest | nglib/query/net.py:318-322 | the fold of compare_cidr returns the last element whose mask text is greatest in string order |
| CidrResolver.FindCidr | nglib/query/net.py:301-324 | the loop with its `mostSpecific` accumulator computes find_cidr's specifying function, including its error cases |
| CidrResolver.ScanIsFoldOverContaining | nglib/query/net.py:317-322 | when the address and every block parse, the scan is the fold of compare_cidr over exactly the containing blocks, in store order |
| CidrResolver.ContainingBlocksAreStored | nglib/query/net.py:318-319 | every containing block is a stored block |
| CidrResolver.FindCidrResult | nglib/query/net.py:311-324 | for a well-formed address whose containing blocks all have a '/': the default route when at most one block is stored; otherwise the last of the default route and the containing blocks whose mask text is greatest |
| CidrResolver.NoContainingBlockGivesDefault | nglib/query/net.py:312-324 | when no stored block contains the address, find_cidr returns "0.0.0.0/0" |
| CidrResolver.ScanErrors | nglib/query/net.py:317-322 | the resolver's scan raises only a ValueError or compare_cidr's IndexError |
| CidrResolver.FindCidrErrors | nglib/query/net.py:301-324 | find_cidr raises only the hostname lookup failure, a ValueError or compare_cidr's IndexError |
| CidrResolver.DefaultRouteHasMask | nglib/query/net.py:312 | the starting block has a '/' and its mask text is "0" |
| CidrResolver.ParsedAddressSkipsLookup | nglib/query/net.py:305-309 | every address text that parses matches the dotted-quad pattern, so it is used as given, without name resolution |
| CidrResolver.DigitGroupsMatch | nglib/query/net.py:305 | four groups of one to three decimal digits joined by dots match the pattern |
| CidrResolver.NonAsciiDigitsSkipLookup | nglib/query/net.py:305-324 | four decimal digits outside ASCII joined by dots match the pattern, so name resolution is skipped; the text is not an address, so find_cidr returns "0.0.0.0/0" with at most one stored block and otherwise raises the ValueError |
| CidrResolver.OutOfRangeOctetMatchesPattern | nglib/query/net.py:305-319 | "999.1.1.1" skips name resolution yet does not parse as an address |
| CidrResolver.NoOctetAbove255 | nglib/query/net.py:319 | "999" is not an octet |
| CidrResolver.NewlineAfterQuadMatches | nglib/query/net.py:305 | a dotted quad followed by a newline still matches, because `$` also matches before a final newline |
| CidrResolver.NewlineAfterQuadFailsToParse | nglib/query/net.py:319 | a text ending in a newline is not an address |
| CidrResolver.TrailingNewlineSkipsLookup | nglib/query/net.py:305-319 | an address followed by a newline bypasses name resolution and then fails to parse |
| CidrResolver.MaskOfFormatted | nglib/query/net.py:337-338 | the mask text of a written block is its prefix length in decimal |
| CidrResolver.ExampleFacts | nglib/query/net.py:319-338 | 10.1.2.3 lies in both 10.0.0.0/8 and 10.1.0.0/16, whose mask texts are "8" and "16" |
| CidrResolver.ScanTwoHolders | nglib/query/net.py:317-322 | with two containing blocks, the scan keeps the first when the second's mask text is smaller in string order |
| CidrResolver.StringOrderPicksWiderBlock | nglib/query/net.py:317-324 | as written, find_cidr resolves 10.1.2.3 against [10.0.0.0/8, 10.1.0.0/16] to the /8 |
| CidrResolver.ScanLongestIsLongest | nglib/query/net.py:317-322 | the numeric scan returns the start or a containing block, and no containing block has a longer prefix than the one returned |
| CidrResolver.ScanLongestTwoHolders | nglib/query/net.py:317-322 | with two containing blocks, the numeric scan keeps the one with the longer prefix, the later one on a tie |
| CidrResolver.FindCidrLongestIsLongest | nglib/query/net.py:301-324 | the corrected resolver, which compares prefixes as numbers and has no `len(networks) > 1` guard, returns, whatever the number of stored blocks, the default route or a containing block whose prefix no containing block exceeds |
| CidrResolver.FindCidrLongestErrors | nglib/query/net.py:301-324 | the corrected resolver never raises "No CIDR Results" itself |
| CidrResolver.NumericOrderPicksNarrowBlock | nglib/query/net.py:317-324 | the corrected resolver resolves the same example to the /16 |
| CidrResolver.OneStoredBlockGivesDefault | nglib/query/net.py:312-324 | as written, with only 10.1.0.0/16 stored, 10.1.2.3 resolves to "0.0.0.0/0", because the loop runs only for more than one stored block |
| CidrResolver.OneStoredBlockResolves | nglib/query/net.py:312-324 | the corrected resolver resolves the same lookup to 10.1.0.0/16 |
| NgTree.NodeAlwaysTruthy | nglib/query/net.py:68-72 | every node's dict holds its name, so `if ngtree:` holds of every tree get_net builds |
| NgTree.NGTree.constructor | nglib/netdb/switch.py:83 | a new node has its name and type, no attributes, no children and no `_ccount` |
| NgTree.NGTree.Set | nglib/query/net.py:107 | setting an attribute changes that attribute only |
| NgTree.NGTree.SetName | nglib/netdb/switch.py:99 | renaming a node changes its name only |
| NgTree.NGTree.AddChild | nglib/query/net.py:106 | adding a child appends it and sets `_ccount` to the new number of children |
| NetTree.GetNetProps | nglib/query/net.py:346-364 | the loop copying every key of every row computes the key-by-key merge of the rows |
| NetTree.MergeRowsLastWins | nglib/query/net.py:360-364 | a key is in the merge exactly when some row has it, with the value of the last row that has it |
| NetTree.MergeRowsKeys | nglib/query/net.py:360-364 | the same for every key at once: the merge's keys are those some row has, each with its last row's value |
| NetTree.BlockFiguresParse | nglib/query/net.py:112-122 | the Netmask and Broadcast texts read back as the block's netmask and broadcast address, and Size is the block's size figure |
| NetTree.CidrChild | nglib/query/net.py:103-132 | the CIDR child builds exactly when every key it reads is present; otherwise the error is a KeyError |
| NetTree.CidrChildStored | nglib/query/net.py:105-126 | the child is named after the cidr, has type CIDR and no children, and copies vrfcidr, VRF, description, gateway and router name |
| NetTree.CidrChildFigures | nglib/query/net.py:112-122 | the child's Netmask, Broadcast and Size come from the queried block, not the record |
| NetTree.CidrChildIpAndRole | nglib/query/net.py:115-125 | IP is set exactly when an address was given; Role and Security Level are set together, exactly when NetRole is in the extended properties |
| NetTree.CidrChildRouterAndVlan | nglib/query/net.py:126-132 | Location is set exactly when the router has one, StandbyRouter exactly when a standby name is truthy, VLAN exactly when vid is truthy, each with that value |
| NetTree.AddCidrChildren | nglib/query/net.py:89-135 | the loop over the records, with its `matches` set, returns the tree with exactly the children its specifying function lists appended, or raises its first error; the tree keeps its `_ccount` invariant, and on success the tree object itself holds the returned node |
| NetTree.GetNetExtendedTree | nglib/query/net.py:77-139 | the block is parsed strictly first, the root is the given tree or a new "Parent" node, and the loop then fills it in |
| NetTree.ExtendedTreeWithoutRows | nglib/query/net.py:86-137 | with no routed records the result is the bare root, or the parse error of the block |
| NetTree.ExtendedTreeErrors | nglib/query/net.py:85-132 | the only errors are a ValueError from the block and a KeyError from a record |
| NetTree.ExtendedErrorsAreMissingKeys | nglib/query/net.py:95-132 | every error the loop raises is a KeyError |
| NetTree.Children | nglib/query/net.py:105-107 | one child per record, in order, each carrying that record's vrfcidr |
| NetTree.ExtendedIsFirstSeen | nglib/query/net.py:89-107 | when every record builds, the children are those of the first record of each vrfcidr, in first-seen order |
| NetTree.OneChildPerVrfcidr | nglib/query/net.py:89-107 | the root keeps its name, type, attributes and earlier children; it gains exactly one child per distinct vrfcidr, no two sharing one |
| NetTree.RepeatedVrfcidrChangesNothing | nglib/query/net.py:103-135 | a further record with an already-matched vrfcidr leaves the tree unchanged |
| NetTree.ExtendedSnocSeen | nglib/query/net.py:103 | a record appended after the others, with a vrfcidr already seen, adds nothing |
| NetTree.GetNet | nglib/query/net.py:48-74 | checks the output type, resolves the block, builds its tree under an "IP Object" root, and raises "No CIDR Results" when the tree is not truthy |
| NetTree.GetNetNeverReportsNoResults | nglib/query/net.py:68-72 | as written, get_net never raises "No CIDR Results": whenever the tree builds, the truth test passes and get_net returns that tree |
| NetTree.EmptyLookupReturnsBareRoot | nglib/query/net.py:58-70 | as written, when the resolved block routes no records, get_net returns the bare "IP Object" root without a CIDR child |
| NetTree.GetNetCheckedReportsEmpty | nglib/query/net.py:68-72 | the corrected lookup succeeds only with a CIDR child, and raises "No CIDR Results" exactly when the tree it built has none |
| NetList.GatewayAddress | nglib/query/net.py:190 | `IPv4Address(value)`: a text is parsed strictly, an integer is accepted exactly in 0..2^32-1, None is rejected |
| NetList.RowGateway | nglib/query/net.py:190 | a record's gateway is its gateway column read as an address; a missing column is a KeyError for that column |
| NetList.IndexByGateway | nglib/query/net.py:188-190 | the loop filling `sort_nets` computes the gateway index, or raises the first record's error |
| NetList.GatewayIndexIndexed | nglib/query/net.py:188-190 | every indexed record holds the gateway column, and its gateway is the address it is indexed under |
| NetList.GatewayIndexLastWins | nglib/query/net.py:188-190 | an address is indexed exactly when some record has it as gateway, and then holds the last such record |
| NetList.GatewayIndexFirstError | nglib/query/net.py:189-190 | the first record whose gateway fails decides the error; a missing column raises a KeyError for it |
| NetList.SortedAddresses | nglib/query/net.py:191 | `sorted(sort_nets.keys())` holds exactly the indexed addresses, in strictly ascending order |
| NetList.ListChild | nglib/query/net.py:202-210 | the child builds exactly when the record has a CIDR; it is named after the CIDR, has type CIDR and no children |
| NetList.ListChildAttrs | nglib/query/net.py:195-209 | the child keeps every column of the record except the tree's own keys, with its value |
| NetList.AddFiltered | nglib/query/net.py:191-210 | the loop appends to the tree exactly the children its specifying function lists, keeping the root's name, type and attributes |
| NetList.GetNetworksOnFilter | nglib/query/net.py:142-229 | checks the output type, sets the selector, indexes, walks the sorted gateways, and sets Count before the CSV check |
| NetList.Passing | nglib/query/net.py:191-200 | the selected gateways are exactly those whose record is non-empty and passes the filter, and they keep ascending order |
| NetList.BuildAll | nglib/query/net.py:202-210 | the children build exactly when every selected record builds, and then the k-th child is that of the k-th record |
| NetList.FilterThenBuild | nglib/query/net.py:191-210 | building while filtering equals filtering first and building after |
| NetList.FilterListingOrder | nglib/query/net.py:188-210 | the children follow strictly ascending gateways, exactly those passing the filter; each is that gateway's record's child, and its Gateway reads back as that gateway |
| NetList.NetworksOnFilterListing | nglib/query/net.py:154-224 | a returned tree is named "Networks" with type NET, holds the selector, has at least one child, and its Count is its number of children |
| NetList.NetworksOnFilterSelectors | nglib/query/net.py:147-229 | an unsupported output type raises; an unknown group returns nothing; no group and no filter raises; a group wins over a filter |
| NetList.CidrChildContents | nglib/query/net.py:263-279 | the child of a kept gateway builds exactly when one of its network's property rows has a CIDR, and raises the KeyError for "CIDR" otherwise; it is named after the last such CIDR, has type CIDR and no children, and keeps every other property some row has, each with the value of the last row that has it |
| NetList.AddInBlock | nglib/query/net.py:256-279 | the loop appends to the tree exactly the children its specifying function lists, parsing the block only for a truthy gateway |
| NetList.GetNetworksOnCidr | nglib/query/net.py:232-297 | checks the output type, indexes, walks the sorted gateways, and sets Count before the CSV check |
| NetList.InBlock | nglib/query/net.py:256-261 | the kept gateways are exactly the truthy ones inside the block, and they keep ascending order |
| NetList.SelectThenBuild | nglib/query/net.py:256-279 | with a parsable block, building while selecting equals selecting first and building after |
| NetList.KeptGateways | nglib/query/net.py:253-261 | the kept gateways are strictly ascending and are exactly the indexed gateways that are truthy and inside the block |
| NetList.NetworksOnCidrListing | nglib/query/net.py:246-292 | fails exactly when a kept network does not build; returns a tree exactly when a gateway is kept and the output is not CSV; its children match the kept gateways in order and its Count is their number |
| NetList.NoTruthyGatewayNoChildren | nglib/query/net.py:260-261 | without a truthy gateway no child is added, whatever the block text |
| NetList.NetworksOnCidrErrors | nglib/query/net.py:239-297 | an unsupported output type raises; an unreadable gateway raises; with no truthy gateway nothing is returned, even for a block that does not parse |
| SwitchPorts.Truncate | nglib/netdb/switch.py:93-95 | the copied columns are exactly the row's columns in the truncated list, with their values |
| SwitchPorts.PortChild | nglib/netdb/switch.py:91-99 | the port child is named after its port, has type INT and no children, and holds only truncated columns, its port among them |
| SwitchPorts.CopyTruncated | nglib/netdb/switch.py:93-95 | the inner loop adds exactly the truncated columns of the row to the child |
| SwitchPorts.GetSwitch | nglib/netdb/switch.py:83-102 | the row loop, with its `pseen` set, builds exactly the tree its specifying function describes; `trunc` does not affect it |
| SwitchPorts.PortChildrenErrors | nglib/netdb/switch.py:90-98 | the listing fails exactly when some row has no port, with a KeyError for "port" |
| SwitchPorts.PortChildrenFirstSeen | nglib/netdb/switch.py:90-100 | the children are those of the rows that first show each port, in order |
| SwitchPorts.SwitchTreeListing | nglib/netdb/switch.py:83-102 | the root is named after the switch with type INTs; no two children share a port; each child is that of its port's first row, in first-row order; there are as many children as distinct ports |
| SwitchPorts.RepeatedPortChangesNothing | nglib/netdb/switch.py:94-100 | a further row for a port already listed leaves the tree unchanged |
| SwitchPorts.NoRowsNoChildren | nglib/netdb/switch.py:83-102 | with no rows the result is the bare root named after the switch |
| Dedup.FirstSeenDistinct | nglib/netdb/switch.py:97-98 | the kept records have pairwise distinct keys, none already seen |
| Dedup.FirstSeenKeys | nglib/query/net.py:103-104 | the kept records carry every key not already seen |
| Dedup.FirstSeenPositions | nglib/netdb/switch.py:97-98 | each kept record is the first record with its key, and the kept records are in the order of those first positions |
| Dedup.FirstSeenCount | nglib/query/net.py:103-104 | the number of kept records is the number of distinct keys |
| Dedup.FirstSeenSnoc | nglib/query/net.py:103-104 | one more record at the end is kept exactly when its key is new |

## Left out

- The store queries are left out: Cypher through `py2neo_ses`, Bolt through `bolt_ses`, and SQL through pymysql with `connect_netdb` and `get_lastseen`. Their rows are inputs, so the query texts, the `ORDER BY` of the rows, and the `port` and `hours` filters of `get_switch` are not modelled.
- `socket.gethostbyname` is the partial input `resolve`. A lookup failure is its `None`.
- `check_net_filter`, `get_net_filter`, `getJSONProperties`, `exp_ngtree`, `print_dict_csv` and `nglib.netdb.ip.get_netdb_ip` live in files that are not part of this model. The filter check is the input `passes`, and the group configuration is the input `groupFilters`. Export, CSV printing and the `use_netdb` branch of `get_net` are left out. The model returns the tree before export.
- Logging, `print` to stdout and stderr (including the debug print of the fetched rows in `get_switch`) and the verbosity branches are output only and are left out.
- nglib/ngtree.py is not part of this model. `get_ngtree` and `add_child_ngtree` are modelled from how they are used. The truth test `if ngtree:` of `get_net` is modelled by the keys a node's dict holds for certain: its name, its type and its attributes (`NgTree.NodeTruthy`). `_ccount` is assumed absent until the first child is added, as the test `'_ccount' in ngtree` in `get_networks_on_filter` implies.
- Dict key order of attributes is not modelled: attributes are a map. Child order is modelled.
- Children are stored as values. The Python code appends a dict and may go on changing it, as `get_net_extended_tree` and `get_networks_on_filter` do. The model builds each child completely before appending it, which gives the same final tree, but aliasing is not modelled.
- IPv6 is left out. `ipaddress.ip_network` would accept an IPv6 block in `get_networks_on_cidr`, and there an IPv4 gateway is never inside it; in the model such a block text fails to parse.
- CidrResolver.FindCidr: a stored IPv6 block is a ValueError in the model. In the source, `ip_network` accepts it, no IPv4 address is inside it, and the loop skips it. A store holding an IPv6 block therefore makes the modelled find_cidr, and with it get_net, fail where the source goes on.
- CidrResolver.FindCidr: which non-ASCII characters count as decimal digits is the input `isDecimal`. The Unicode table behind it depends on the Python version and is not modelled.
- `ipaddress` before Python 3.9.5 (and 3.8.12) accepted a leading zero on an octet ("01.2.3.4" read as 1.2.3.4). The model follows the later, strict versions, under which Ipv4.AddressCanonical holds.
- `get_switch`: a row without a port raises KeyError either way. The model checks the port before copying the columns, which reads the columns in a different order with the same outcome.
- `apisrv/views.py` is routing glue and is left out.

## Findings

| source | as written | input that shows it | evidently intended | confidence | as-written member | corrected member |
|---|---|---|---|---|---|---|
| nglib/query/net.py:340 | `compare_cidr` compares the prefix texts as strings, so "8" beats "16" and find_cidr can return a wider block than the most specific one | address 10.1.2.3, stored blocks 10.0.0.0/8 and 10.1.0.0/16: find_cidr returns 10.0.0.0/8 | the containing block with the longest prefix (10.1.0.0/16) | high, not executed | CidrResolver.StringOrderPicksWiderBlock | CidrResolver.FindCidrLongestIsLongest |
| nglib/query/net.py:317 | the scan runs only when `len(networks) > 1`, so a store holding a single block never resolves to it | address 10.1.2.3, only 10.1.0.0/16 stored: find_cidr returns 0.0.0.0/0 | the most specific containing block whatever the number of stored blocks (10.1.0.0/16) | high, not executed | CidrResolver.OneStoredBlockGivesDefault | CidrResolver.OneStoredBlockResolves |
| nglib/query/net.py:68-72 | `if ngtree:` tests a dict that always holds its name and type, so "No CIDR Results" is never raised and an empty lookup returns a bare root | an address whose resolved block routes no records: get_net returns the "IP Object" root without children | unclear: the dead branch suggests raising "No CIDR Results" when the tree has no CIDR child (the corrected member), while the design description calls an empty result a success, which is what the code does | medium, not executed | NetTree.GetNetNeverReportsNoResults | NetTree.GetNetCheckedReportsEmpty |
